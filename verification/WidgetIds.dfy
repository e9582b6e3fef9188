/** The ids of dashboard widgets (`_assign_widget_ids` of `tiles.py`). */
module WidgetIds {
  // A widget that comes without an id, or with one that was seen before, gets an id derived from
  // its type and a counter, so that loading a file twice gives the same ids. The derivation (the
  // first eight digits of a SHA-256) is a parameter; of it only `Apart` is assumed, that the
  // first few ids of each type that occurs are not empty and differ from each other.

  type Digest = (string, nat) -> string

  ghost predicate Apart(digest: Digest, w: string, bound: nat) {
    && (forall n :: digest(w, n) != "")
    && (forall a, b :: 0 <= a < b <= bound ==> digest(w, a) != digest(w, b))
  }

  /** The same of every widget type that occurs. */
  ghost predicate AllApart(digest: Digest, widgets: seq<string>, bound: nat) {
    forall i :: 0 <= i < |widgets| ==> Apart(digest, widgets[i], bound)
  }

  // ---------------------------------------------------------------- the search for a free id

  ghost function DigestsBelow(digest: Digest, w: string, n: nat): set<string> {
    set k: nat | k < n :: digest(w, k)
  }

  lemma {:induction false} DigestsAreMany(digest: Digest, w: string, n: nat, bound: nat)
    requires Apart(digest, w, bound) && n <= bound + 1
    ensures |DigestsBelow(digest, w, n)| == n
  {
    if n > 0 {
      DigestsAreMany(digest, w, n - 1, bound);
      assert DigestsBelow(digest, w, n) == DigestsBelow(digest, w, n - 1) + {digest(w, n - 1)};
      forall k: nat | k < n - 1
        ensures digest(w, k) != digest(w, n - 1)
      {
      }
    }
  }

  /** Every candidate before `n` is taken, so no more than that many were tried. */
  ghost predicate TriedBelow(digest: Digest, w: string, n: nat, taken: set<string>) {
    forall k: nat :: k < n ==> digest(w, k) in taken
  }

  lemma TriesAreBounded(digest: Digest, w: string, n: nat, taken: set<string>, bound: nat)
    requires Apart(digest, w, bound) && TriedBelow(digest, w, n, taken) && n <= bound + 1
    ensures n <= |taken|
  {
    DigestsAreMany(digest, w, n, bound);
    var tried := DigestsBelow(digest, w, n);
    assert taken == tried + (taken - tried);
  }

  /** The first candidate from `n` on that is free. */
  function Search(digest: Digest, w: string, n: nat, taken: set<string>, ghost bound: nat): (found: nat)
    requires Apart(digest, w, bound) && |taken| <= bound && TriedBelow(digest, w, n, taken) && n <= bound
    ensures n <= found <= bound && digest(w, found) !in taken && TriedBelow(digest, w, found, taken)
    decreases bound - n
  {
    if digest(w, n) in taken then
      TriesAreBounded(digest, w, n + 1, taken, bound);
      Search(digest, w, n + 1, taken, bound)
    else n
  }

  // ---------------------------------------------------------------- the two passes

  /** The first pass: an id that repeats an earlier one is dropped. */
  function Kept(ids: seq<string>): (r: seq<string>)
    ensures |r| == |ids|
  {
    if ids == [] then []
    else
      var before, last := ids[..|ids| - 1], ids[|ids| - 1];
      Kept(before) + [if last in before then "" else last]
  }

  function Given(ids: seq<string>): set<string> {
    set id | id in ids && id != ""
  }

  function Counter(counters: map<string, nat>, w: string): nat {
    if w in counters then counters[w] else 0
  }

  /** Counters only count candidates that are taken. */
  ghost predicate CountersTried(digest: Digest, counters: map<string, nat>, taken: set<string>) {
    forall w :: w in counters ==> TriedBelow(digest, w, counters[w], taken)
  }

  /** The second pass from place `i` on. */
  function Fill(digest: Digest, widgets: seq<string>, ids: seq<string>, i: nat, taken: set<string>,
                counters: map<string, nat>, ghost bound: nat): (r: seq<string>)
    requires |widgets| == |ids| && i <= |ids| && |taken| + (|ids| - i) <= bound
    requires AllApart(digest, widgets, bound) && CountersTried(digest, counters, taken)
    ensures |r| == |ids|
    decreases |ids| - i
  {
    if i == |ids| then ids
    else if ids[i] != "" then Fill(digest, widgets, ids, i + 1, taken, counters, bound)
    else
      var w := widgets[i];
      CounterIsBounded(digest, counters, w, taken, bound);
      var n := Search(digest, w, Counter(counters, w), taken, bound);
      var id := digest(w, n);
      Fill(digest, widgets, ids[i := id], i + 1, taken + {id}, counters[w := n + 1], bound)
  }

  lemma CounterIsBounded(digest: Digest, counters: map<string, nat>, w: string, taken: set<string>, bound: nat)
    requires Apart(digest, w, bound) && CountersTried(digest, counters, taken) && |taken| <= bound
    ensures Counter(counters, w) <= bound && TriedBelow(digest, w, Counter(counters, w), taken)
  {
    if w in counters && counters[w] > bound {
      assert TriedBelow(digest, w, bound + 1, taken);
      TriesAreBounded(digest, w, bound + 1, taken, bound);
    }
  }

  /** Both passes. */
  function Assigned(digest: Digest, widgets: seq<string>, ids: seq<string>): (r: seq<string>)
    requires |widgets| == |ids| && AllApart(digest, widgets, 2 * |ids|)
    ensures |r| == |ids|
  {
    GivenAreFew(ids);
    Fill(digest, widgets, Kept(ids), 0, Given(ids), map[], 2 * |ids|)
  }

  lemma {:induction false} GivenAreFew(ids: seq<string>)
    ensures |Given(ids)| <= |ids|
  {
    if ids != [] {
      var before, last := ids[..|ids| - 1], ids[|ids| - 1];
      GivenAreFew(before);
      assert ids == before + [last];
      assert Given(ids) == Given(before) + if last == "" then {} else {last};
    }
  }

  // ---------------------------------------------------------------- what comes out

  ghost predicate NoRepeats(ids: seq<string>) {
    forall i, j :: 0 <= i < j < |ids| ==> ids[i] == "" || ids[i] != ids[j]
  }

  lemma {:induction false} KeptHasNoRepeats(ids: seq<string>)
    ensures NoRepeats(Kept(ids))
    ensures forall k :: 0 <= k < |ids| ==> Kept(ids)[k] == if ids[k] in ids[..k] then "" else ids[k]
  {
    if ids != [] {
      var before, last := ids[..|ids| - 1], ids[|ids| - 1];
      KeptHasNoRepeats(before);
      assert forall k :: 0 <= k < |before| ==> ids[..k] == before[..k] && ids[k] == before[k];
    }
  }

  /** One of the candidates of a widget type. */
  ghost predicate IsDerived(digest: Digest, w: string, id: string) {
    exists n: nat :: digest(w, n) == id
  }

  ghost predicate AllTaken(ids: seq<string>, taken: set<string>) {
    forall k :: 0 <= k < |ids| && ids[k] != "" ==> ids[k] in taken
  }

  lemma {:induction false} FillCompletes(digest: Digest, widgets: seq<string>, ids: seq<string>, i: nat, taken: set<string>,
                                         counters: map<string, nat>, bound: nat)
    requires |widgets| == |ids| && i <= |ids| && |taken| + (|ids| - i) <= bound
    requires AllApart(digest, widgets, bound) && CountersTried(digest, counters, taken)
    requires NoRepeats(ids) && AllTaken(ids, taken) && forall k :: 0 <= k < i ==> ids[k] != ""
    ensures var r := Fill(digest, widgets, ids, i, taken, counters, bound);
            && NoRepeats(r) && (forall k :: 0 <= k < |r| ==> r[k] != "")
            && (forall k :: 0 <= k < |ids| && ids[k] != "" ==> r[k] == ids[k])
            && (forall k :: 0 <= k < |ids| && ids[k] == "" ==> IsDerived(digest, widgets[k], r[k]))
    decreases |ids| - i
  {
    hide Apart, CountersTried, TriedBelow;
    if i < |ids| {
      if ids[i] != "" {
        FillCompletes(digest, widgets, ids, i + 1, taken, counters, bound);
      } else {
        var w := widgets[i];
        CounterIsBounded(digest, counters, w, taken, bound);
        var n := Search(digest, w, Counter(counters, w), taken, bound);
        var id := digest(w, n);
        DigestIsNoBlank(digest, w, n, bound);
        CountersStayTried(digest, counters, taken, w, n);
        assert IsDerived(digest, w, id);
        FillCompletes(digest, widgets, ids[i := id], i + 1, taken + {id}, counters[w := n + 1], bound);
      }
    }
  }

  lemma DigestIsNoBlank(digest: Digest, w: string, n: nat, bound: nat)
    requires Apart(digest, w, bound)
    ensures digest(w, n) != ""
  {
  }

  lemma CountersStayTried(digest: Digest, counters: map<string, nat>, taken: set<string>, w: string, n: nat)
    requires CountersTried(digest, counters, taken) && TriedBelow(digest, w, n, taken)
    ensures CountersTried(digest, counters[w := n + 1], taken + {digest(w, n)})
  {
  }

  /** Every widget ends up with an id of its own: the first holder of a given id keeps it, every
      other one gets an id derived from its type. */
  lemma IdsAreUnique(digest: Digest, widgets: seq<string>, ids: seq<string>)
    requires |widgets| == |ids| && AllApart(digest, widgets, 2 * |ids|)
    ensures var r := Assigned(digest, widgets, ids);
            && (forall i, j :: 0 <= i < j < |r| ==> r[i] != r[j]) && (forall k :: 0 <= k < |r| ==> r[k] != "")
            && (forall k :: 0 <= k < |ids| ==>
                  if ids[k] != "" && ids[k] !in ids[..k] then r[k] == ids[k] else IsDerived(digest, widgets[k], r[k]))
  {
    KeptHasNoRepeats(ids);
    GivenAreFew(ids);
    FillCompletes(digest, widgets, Kept(ids), 0, Given(ids), map[], 2 * |ids|);
  }

  /** The id is the first candidate of its type that is neither given nor in `before`. */
  ghost predicate IsFirstFree(digest: Digest, w: string, id: string, given: set<string>, before: seq<string>) {
    exists n: nat :: digest(w, n) == id && AllBelow(digest, w, n, given, before)
  }

  ghost predicate AllBelow(digest: Digest, w: string, n: nat, given: set<string>, before: seq<string>) {
    forall k: nat :: k < n ==> digest(w, k) in given || digest(w, k) in before
  }

  lemma FillLeaves(digest: Digest, widgets: seq<string>, ids: seq<string>, i: nat, taken: set<string>,
                   counters: map<string, nat>, bound: nat, k: nat)
    requires |widgets| == |ids| && i <= |ids| && |taken| + (|ids| - i) <= bound
    requires AllApart(digest, widgets, bound) && CountersTried(digest, counters, taken) && k < i
    ensures Fill(digest, widgets, ids, i, taken, counters, bound)[k] == ids[k]
    decreases |ids| - i
  {
    hide Apart, CountersTried, TriedBelow;
    if i < |ids| {
      if ids[i] != "" {
        FillLeaves(digest, widgets, ids, i + 1, taken, counters, bound, k);
      } else {
        var w := widgets[i];
        CounterIsBounded(digest, counters, w, taken, bound);
        var n := Search(digest, w, Counter(counters, w), taken, bound);
        CountersStayTried(digest, counters, taken, w, n);
        FillLeaves(digest, widgets, ids[i := digest(w, n)], i + 1, taken + {digest(w, n)}, counters[w := n + 1], bound, k);
      }
    }
  }

  lemma {:induction false} FillTakesFirst(digest: Digest, widgets: seq<string>, ids: seq<string>, i: nat, taken: set<string>,
                                          counters: map<string, nat>, bound: nat, k: nat)
    requires |widgets| == |ids| && i <= k < |ids| && |taken| + (|ids| - i) <= bound && ids[k] == ""
    requires AllApart(digest, widgets, bound) && CountersTried(digest, counters, taken)
    ensures var r := Fill(digest, widgets, ids, i, taken, counters, bound);
            IsFirstFree(digest, widgets[k], r[k], taken, r[i..k])
    decreases |ids| - i
  {
    hide Apart, CountersTried, TriedBelow, IsFirstFree;
    var r := Fill(digest, widgets, ids, i, taken, counters, bound);
    if ids[i] != "" {
      FillTakesFirst(digest, widgets, ids, i + 1, taken, counters, bound, k);
      MoreBefore(digest, widgets[k], r[k], taken, taken, r[i + 1..k], r[i..k]);
    } else {
      var w := widgets[i];
      CounterIsBounded(digest, counters, w, taken, bound);
      var n := Search(digest, w, Counter(counters, w), taken, bound);
      var id := digest(w, n);
      CountersStayTried(digest, counters, taken, w, n);
      FillLeaves(digest, widgets, ids[i := id], i + 1, taken + {id}, counters[w := n + 1], bound, i);
      assert r[i] == id;
      if i == k {
        FoundIsFirstFree(digest, w, n, taken);
        assert r[i..k] == [];
      } else {
        FillTakesFirst(digest, widgets, ids[i := id], i + 1, taken + {id}, counters[w := n + 1], bound, k);
        assert r[i..k] == [id] + r[i + 1..k];
        MoreBefore(digest, widgets[k], r[k], taken + {id}, taken, r[i + 1..k], r[i..k]);
      }
    }
  }

  lemma FoundIsFirstFree(digest: Digest, w: string, n: nat, taken: set<string>)
    requires TriedBelow(digest, w, n, taken)
    ensures IsFirstFree(digest, w, digest(w, n), taken, [])
  {
    assert AllBelow(digest, w, n, taken, []);
  }

  lemma MoreBefore(digest: Digest, w: string, id: string, given: set<string>, given': set<string>, before: seq<string>,
                   before': seq<string>)
    requires IsFirstFree(digest, w, id, given, before)
    requires forall x :: x in given || x in before ==> x in given' || x in before'
    ensures IsFirstFree(digest, w, id, given', before')
  {
    var n: nat :| digest(w, n) == id && AllBelow(digest, w, n, given, before);
    assert AllBelow(digest, w, n, given', before');
  }

  /** And which one: the first candidate of its type that no widget was given and none before it
      has got. */
  lemma DerivedIsFirstFree(digest: Digest, widgets: seq<string>, ids: seq<string>, k: nat)
    requires |widgets| == |ids| && AllApart(digest, widgets, 2 * |ids|) && k < |ids|
    requires ids[k] == "" || ids[k] in ids[..k]
    ensures var r := Assigned(digest, widgets, ids);
            IsFirstFree(digest, widgets[k], r[k], (set id | id in ids && id != ""), r[..k])
  {
    hide Apart, CountersTried, TriedBelow, IsFirstFree, Fill;
    KeptHasNoRepeats(ids);
    GivenAreFew(ids);
    NothingTried(digest, Given(ids));
    FillTakesFirst(digest, widgets, Kept(ids), 0, Given(ids), map[], 2 * |ids|, k);
    var r := Assigned(digest, widgets, ids);
    assert r[0..k] == r[..k];
  }

  /** Ids that are complete and unique are left alone, so assigning again changes nothing. */
  lemma AssigningAgain(digest: Digest, widgets: seq<string>, ids: seq<string>)
    requires |widgets| == |ids| && AllApart(digest, widgets, 2 * |ids|)
    ensures (forall i, j :: 0 <= i < j < |ids| ==> ids[i] != ids[j]) && (forall k :: 0 <= k < |ids| ==> ids[k] != "")
            <==> Assigned(digest, widgets, ids) == ids
    ensures Assigned(digest, widgets, Assigned(digest, widgets, ids)) == Assigned(digest, widgets, ids)
  {
    IdsAreUnique(digest, widgets, ids);
    IdsAreUnique(digest, widgets, Assigned(digest, widgets, ids));
  }

  // ---------------------------------------------------------------- the loops

  /** The inner loop: the first candidate that is free. */
  method FindFree(digest: Digest, w: string, start: nat, taken: set<string>, ghost bound: nat) returns (number: nat)
    requires Apart(digest, w, bound) && |taken| <= bound && TriedBelow(digest, w, start, taken) && start <= bound
    ensures number == Search(digest, w, start, taken, bound)
  {
    hide Apart, TriedBelow;
    number := start;
    while digest(w, number) in taken
      invariant start <= number <= bound && TriedBelow(digest, w, number, taken)
      invariant Search(digest, w, number, taken, bound) == Search(digest, w, start, taken, bound)
      decreases bound - number
    {
      OneMoreTried(digest, w, number, taken, bound);
      number := number + 1;
    }
  }

  /** `_assign_widget_ids`, on the ids of the widget tiles in place. */
  method AssignWidgetIds(digest: Digest, widgets: seq<string>, ids: array<string>)
    requires |widgets| == ids.Length && AllApart(digest, widgets, 2 * ids.Length)
    modifies ids
    ensures ids[..] == Assigned(digest, widgets, old(ids[..]))
  {
    hide Apart, CountersTried, TriedBelow;
    ghost var given := ids[..];
    var taken := DropRepeats(ids);
    GivenAreFew(given);
    ghost var bound := 2 * ids.Length;
    var counters: map<string, nat> := map[];
    NothingTried(digest, taken);
    var i := 0;
    while i < ids.Length
      invariant i <= ids.Length && |taken| + (ids.Length - i) <= bound
      invariant CountersTried(digest, counters, taken)
      invariant Fill(digest, widgets, ids[..], i, taken, counters, bound) == Assigned(digest, widgets, given)
    {
      if ids[i] != "" {
        i := i + 1;
        continue;
      }
      ghost var before := ids[..];
      var w := widgets[i];
      CounterIsBounded(digest, counters, w, taken, bound);
      var number := FindFree(digest, w, Counter(counters, w), taken, bound);
      var id := digest(w, number);
      CountersStayTried(digest, counters, taken, w, number);
      counters := counters[w := number + 1];
      ids[i] := id;
      assert ids[..] == before[i := id];
      taken := taken + {id};
      i := i + 1;
    }
  }

  lemma NothingTried(digest: Digest, taken: set<string>)
    ensures CountersTried(digest, map[], taken)
  {
  }

  lemma OneMoreTried(digest: Digest, w: string, n: nat, taken: set<string>, bound: nat)
    requires Apart(digest, w, bound) && |taken| <= bound && TriedBelow(digest, w, n, taken) && n <= bound
    requires digest(w, n) in taken
    ensures n + 1 <= bound && TriedBelow(digest, w, n + 1, taken)
  {
    TriesAreBounded(digest, w, n + 1, taken, bound);
  }

  lemma KeptGrows(ids: seq<string>, id: string)
    ensures Kept(ids + [id]) == Kept(ids) + [if id in ids then "" else id]
    ensures Given(ids + [id]) == if id == "" then Given(ids) else Given(ids) + {id}
  {
    assert (ids + [id])[..|ids|] == ids;
  }

  /** The first loop: `taken` collects the ids that stay. */
  method DropRepeats(ids: array<string>) returns (taken: set<string>)
    modifies ids
    ensures ids[..] == Kept(old(ids[..])) && taken == Given(old(ids[..]))
  {
    hide Kept;
    ghost var given := ids[..];
    taken := {};
    var i := 0;
    KeptNothing();
    while i < ids.Length
      invariant i <= ids.Length && |given| == ids.Length
      invariant ids[..i] == Kept(given[..i]) && ids[i..] == given[i..]
      invariant taken == Given(given[..i])
    {
      var id := ids[i];
      assert given[i..][0] == id && given[i..][1..] == given[i + 1..];
      assert given[..i + 1] == given[..i] + [id];
      KeptGrows(given[..i], id);
      if id in taken {
        ids[i] := "";
      } else if id != "" {
        taken := taken + {id};
      }
      assert ids[..i + 1] == ids[..i] + [ids[i]];
      i := i + 1;
    }
    assert given[..i] == given && ids[..i] == ids[..];
  }

  lemma KeptNothing()
    ensures Kept([]) == []
  {
  }
}
