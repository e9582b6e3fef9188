/** The colour slots of the models on the usage page (`assign_slots` of `model_usage.py`). */
module ModelSlots {
  import opened Collections
  import opened Sorting
  import opened Text

  const SLOTS: nat := 7

  // ---------------------------------------------------------------- slots

  type Before = (string, string) -> bool

  /** Tokens and requests of the window. */
  type Load = (int, int)

  predicate Busier(a: Load, b: Load) {
    a.0 > b.0 || (a.0 == b.0 && a.1 > b.1)
  }

  function LoadOf(loads: map<string, Load>, name: string): Load {
    if name in loads then loads[name] else (0, 0)
  }

  function ByName(fold: string -> string): Before {
    (x, y) => Less(fold(x), fold(y))
  }

  function ByLoad(loads: map<string, Load>): Before {
    (x, y) => Busier(LoadOf(loads, x), LoadOf(loads, y))
  }

  function Positions(names: seq<string>): map<string, nat>
    requires Distinct(names)
  {
    map i: nat | i < |names| :: names[i] := i
  }

  lemma ByNameOrders(fold: string -> string)
    ensures IsOrdering(ByName(fold))
  {
    forall a: string, b: string
      ensures Less(fold(a), fold(b)) ==> !Less(fold(b), fold(a))
    {
      LessIsTotal(fold(a), fold(b));
    }
    forall a: string, b: string, c: string | !Less(fold(b), fold(a)) && !Less(fold(c), fold(b))
      ensures !Less(fold(c), fold(a))
    {
      LessIsTotal(fold(a), fold(b));
      LessIsTotal(fold(b), fold(c));
      LessIsTotal(fold(a), fold(c));
      if Less(fold(a), fold(b)) && Less(fold(b), fold(c)) {
        LessIsTransitive(fold(a), fold(b), fold(c));
      }
    }
  }

  lemma SortKeepsDistinct(xs: seq<string>, before: Before)
    requires IsOrdering(before) && Distinct(xs)
    ensures Distinct(Sorted(xs, before)) && |Sorted(xs, before)| == |xs|
    ensures forall x :: x in Sorted(xs, before) <==> x in xs
  {
    SortSorts(xs, before);
    var ys := Sorted(xs, before);
    assert |multiset(ys)| == |ys| && |multiset(xs)| == |xs|;
    DistinctIsOnce(xs);
    OnceIsDistinct(ys);
    forall x: string
      ensures x in ys <==> x in xs
    {
      assert x in multiset(ys) <==> x in multiset(xs);
    }
  }

  lemma {:induction false} DistinctIsOnce(xs: seq<string>)
    requires Distinct(xs)
    ensures forall x :: multiset(xs)[x] <= 1
  {
    if xs != [] {
      var init, last := xs[..|xs| - 1], xs[|xs| - 1];
      DistinctIsOnce(init);
      assert xs == init + [last];
      assert last !in init;
    }
  }

  lemma OnceIsDistinct(xs: seq<string>)
    requires forall x :: multiset(xs)[x] <= 1
    ensures Distinct(xs)
  {
    forall i, j | 0 <= i < j < |xs|
      ensures xs[i] != xs[j]
    {
      var left, right := xs[..i + 1], xs[i + 1..];
      assert xs == left + right;
      assert left[i] == xs[i] && right[j - i - 1] == xs[j];
      assert multiset(xs)[xs[i]] == multiset(left)[xs[i]] + multiset(right)[xs[i]];
      assert xs[i] in multiset(left) && xs[j] in multiset(right);
    }
  }

  lemma ByLoadOrders(loads: map<string, Load>)
    ensures IsOrdering(ByLoad(loads))
  {
  }

  /** The busiest of the models, all of them if there are no more than slots. */
  function Slotted(names: seq<string>, fold: string -> string, loads: map<string, Load>): seq<string> {
    var ordered := Sorted(names, ByName(fold));
    if |ordered| <= SLOTS then ordered
    else Sorted(Sorted(ordered, ByLoad(loads))[..SLOTS], ByName(fold))
  }

  /** The names of the slots: those of the models, each once. */
  lemma SlottedIsDistinct(names: seq<string>, fold: string -> string, loads: map<string, Load>)
    requires Distinct(names)
    ensures Distinct(Slotted(names, fold, loads))
    ensures forall x :: x in Slotted(names, fold, loads) ==> x in names
    ensures |names| <= SLOTS ==> forall x :: x in names ==> x in Slotted(names, fold, loads)
  {
    var ordered := Sorted(names, ByName(fold));
    SortedByName(names, fold);
    if |ordered| > SLOTS {
      BusiestAreDistinct(ordered, loads);
      SortedByName(Sorted(ordered, ByLoad(loads))[..SLOTS], fold);
    }
    hide Sorted, Distinct, ByName, ByLoad;
  }

  lemma SortedByName(names: seq<string>, fold: string -> string)
    requires Distinct(names)
    ensures Distinct(Sorted(names, ByName(fold)))
    ensures forall x :: x in Sorted(names, ByName(fold)) <==> x in names
  {
    hide *;
    ByNameOrders(fold);
    SortKeepsDistinct(names, ByName(fold));
  }

  /** The busiest models are distinct, and nothing left out is busier than one of them. */
  lemma BusiestAreDistinct(ordered: seq<string>, loads: map<string, Load>)
    requires Distinct(ordered) && |ordered| > SLOTS
    ensures var busiest := Sorted(ordered, ByLoad(loads))[..SLOTS];
            && Distinct(busiest) && (forall x :: x in busiest ==> x in ordered)
            && (forall x, y :: x in busiest && y in ordered && y !in busiest ==>
                  !Busier(LoadOf(loads, y), LoadOf(loads, x)))
  {
    hide IsOrdering, Sorted, LoadOf, Busier;
    ByLoadOrders(loads);
    var byLoad := Sorted(ordered, ByLoad(loads));
    SortKeepsDistinct(ordered, ByLoad(loads));
    SortSorts(ordered, ByLoad(loads));
    var busiest := byLoad[..SLOTS];
    forall x, y | x in busiest && y in ordered && y !in busiest
      ensures !Busier(LoadOf(loads, y), LoadOf(loads, x))
    {
      var i :| 0 <= i < |busiest| && busiest[i] == x;
      var j :| 0 <= j < |byLoad| && byLoad[j] == y;
      assert forall k :: 0 <= k < SLOTS ==> busiest[k] == byLoad[k];
      assert !ByLoad(loads)(byLoad[j], byLoad[i]);
    }
  }

  /** `assign_slots`: the positions of the slotted models by name. `names` are the models, each
      once; `fold` is the caseless form of a name. */
  function AssignSlots(names: seq<string>, fold: string -> string, loads: map<string, Load>): map<string, nat>
    requires Distinct(names)
  {
    SlottedIsDistinct(names, fold, loads);
    Positions(Slotted(names, fold, loads))
  }

  lemma PositionsAreOnes(names: seq<string>)
    requires Distinct(names)
    ensures forall x :: x in Positions(names) <==> x in names
    ensures forall x :: x in Positions(names) ==> Positions(names)[x] < |names| && names[Positions(names)[x]] == x
  {
    forall x: string | x in names
      ensures x in Positions(names)
    {
      var i :| 0 <= i < |names| && names[i] == x;
      assert names[i] in Positions(names);
    }
  }

  /** No two names share a slot, the slots are the numbers below `SLOTS`, and only models have
      one. */
  ghost predicate OneEach(slots: map<string, nat>, names: seq<string>) {
    && (forall x, y :: x in slots && y in slots && slots[x] == slots[y] ==> x == y)
    && (forall x :: x in slots ==> slots[x] < 7 && x in names)
  }

  /** With no more models than slots, all have one; with more, no slot is free and no model
      without one is busier than a model with one. */
  ghost predicate ToTheBusiest(slots: map<string, nat>, names: seq<string>, loads: map<string, Load>) {
    if |names| <= 7 then
      forall x :: x in names ==> x in slots
    else
      && (forall k :: 0 <= k < 7 ==> k in slots.Values)
      && (forall x, y :: x in slots && y in names && y !in slots ==> HasNoMore(loads, y, x))
  }

  /** `y` has fewer tokens than `x`, or as many and no more requests; a model without usage has none. */
  ghost predicate HasNoMore(loads: map<string, Load>, y: string, x: string) {
    var (tokens, requests) := if x in loads then loads[x] else (0, 0);
    var (tokens', requests') := if y in loads then loads[y] else (0, 0);
    tokens' < tokens || (tokens' == tokens && requests' <= requests)
  }

  /** The slots follow the caseless names. */
  lemma SlotsFollowNames(names: seq<string>, fold: string -> string, loads: map<string, Load>, x: string, y: string)
    requires Distinct(names)
    requires x in AssignSlots(names, fold, loads) && y in AssignSlots(names, fold, loads) && Less(fold(x), fold(y))
    ensures AssignSlots(names, fold, loads)[x] < AssignSlots(names, fold, loads)[y]
  {
    hide *;
    var slotted := Slotted(names, fold, loads);
    SlottedIsDistinct(names, fold, loads);
    PositionsAreOnes(slotted);
    SlottedIsInOrder(names, fold, loads);
    SlotsArePositions(names, fold, loads);
    var slots := AssignSlots(names, fold, loads);
    EarlierIsFirst(slotted, fold, slots[x], slots[y]);
  }

  lemma SlotsArePositions(names: seq<string>, fold: string -> string, loads: map<string, Load>)
    requires Distinct(names) && Distinct(Slotted(names, fold, loads))
    ensures AssignSlots(names, fold, loads) == Positions(Slotted(names, fold, loads))
  {
    hide Slotted, Positions, Distinct;
  }

  lemma EarlierIsFirst(slotted: seq<string>, fold: string -> string, i: nat, j: nat)
    requires InOrder(slotted, ByName(fold)) && i < |slotted| && j < |slotted|
    requires Less(fold(slotted[i]), fold(slotted[j]))
    ensures i < j
  {
    LessIsTotal(fold(slotted[i]), fold(slotted[j]));
    hide Less;
    var x, y := slotted[i], slotted[j];
    assert i > j ==> !ByName(fold)(x, y);
  }

  lemma SlottedIsInOrder(names: seq<string>, fold: string -> string, loads: map<string, Load>)
    ensures InOrder(Slotted(names, fold, loads), ByName(fold))
  {
    hide ByName, ByLoad, InOrder, Sorted;
    ByNameOrders(fold);
    var ordered := Sorted(names, ByName(fold));
    SortSorts(names, ByName(fold));
    if |ordered| > SLOTS {
      SortSorts(Sorted(ordered, ByLoad(loads))[..SLOTS], ByName(fold));
    }
  }

  /** Each slot goes to one model, and the slots go to the busiest models. */
  lemma SlotsGoToTheBusiest(names: seq<string>, fold: string -> string, loads: map<string, Load>)
    requires Distinct(names)
    ensures OneEach(AssignSlots(names, fold, loads), names)
    ensures ToTheBusiest(AssignSlots(names, fold, loads), names, loads)
  {
    hide Sorted, Distinct, Busier, LoadOf, ByName, ByLoad, Positions;
    var slotted := Slotted(names, fold, loads);
    SlottedIsDistinct(names, fold, loads);
    PositionsAreOnes(slotted);
    if |names| > SLOTS {
      UnslottedAreNotBusier(names, fold, loads);
      PositionsAreTaken(slotted);
      forall x, y | x in slotted && y in names && y !in slotted
        ensures HasNoMore(loads, y, x)
      {
        NotBusierHasNoMore(loads, y, x);
      }
    }
    hide Slotted;
  }

  lemma NotBusierHasNoMore(loads: map<string, Load>, y: string, x: string)
    requires !Busier(LoadOf(loads, y), LoadOf(loads, x))
    ensures HasNoMore(loads, y, x)
  {
  }

  lemma PositionsAreTaken(names: seq<string>)
    requires Distinct(names)
    ensures forall k :: 0 <= k < |names| ==> k in Positions(names).Values
  {
    forall k | 0 <= k < |names|
      ensures k in Positions(names).Values
    {
      assert names[k] in Positions(names);
    }
  }

  lemma UnslottedAreNotBusier(names: seq<string>, fold: string -> string, loads: map<string, Load>)
    requires Distinct(names) && |names| > SLOTS
    ensures forall x, y :: x in Slotted(names, fold, loads) && y in names && y !in Slotted(names, fold, loads) ==>
              !Busier(LoadOf(loads, y), LoadOf(loads, x))
  {
    hide Distinct, Sorted, Busier, LoadOf, ByName, ByLoad;
    var ordered := Sorted(names, ByName(fold));
    SortedByName(names, fold);
    BusiestAreDistinct(ordered, loads);
    SortedByName(Sorted(ordered, ByLoad(loads))[..SLOTS], fold);
  }

  // ---------------------------------------------------------------- stability

  /** With at most seven models of different caseless names, a model keeps its slot: it is the
      same for any loads and any order the models come in. */
  lemma SlotsAreStable(names: seq<string>, others: seq<string>, fold: string -> string,
                       loads: map<string, Load>, later: map<string, Load>)
    requires Distinct(names) && |names| <= SLOTS && multiset(others) == multiset(names)
    requires forall x, y :: x in names && y in names && fold(x) == fold(y) ==> x == y
    ensures Distinct(others) && AssignSlots(others, fold, later) == AssignSlots(names, fold, loads)
  {
    hide Sorted, Less, ByName, Slotted, Positions;
    assert |multiset(names)| == |names| && |multiset(others)| == |others|;
    DistinctIsOnce(names);
    OnceIsDistinct(others);
    ByNameOrders(fold);
    assert forall x :: x in others ==> x in names by {
      assert forall x :: x in others ==> x in multiset(names);
    }
    StrictByName(names, fold);
    StrictByName(others, fold);
    OneOrder(Sorted(names, ByName(fold)), Sorted(others, ByName(fold)), ByName(fold));
    FewAreAllSlotted(names, fold, loads);
    FewAreAllSlotted(others, fold, later);
  }

  /** Of two models whose names differ in case alone, the one that comes first in the list gets the
      lower slot. */
  lemma CaselessTwinsSwap(x: string, y: string, rest: seq<string>, fold: string -> string, loads: map<string, Load>)
    requires Distinct([x, y] + rest) && |rest| + 2 <= SLOTS && fold(x) == fold(y)
    ensures var slots := AssignSlots([x, y] + rest, fold, loads);
            x in slots && y in slots && slots[x] < slots[y]
  {
    hide Slotted, Sorted, Positions, Less;
    var names := [x, y] + rest;
    LessIsTotal(fold(x), fold(y));
    SortIsStable(x, y, rest, ByName(fold));
    FewAreAllSlotted(names, fold, loads);
    SortedByName(names, fold);
    PrecedingIsLower(Sorted(names, ByName(fold)), x, y);
  }

  lemma PrecedingIsLower(names: seq<string>, x: string, y: string)
    requires Distinct(names) && Precedes(names, x, y)
    ensures x in Positions(names) && y in Positions(names) && Positions(names)[x] < Positions(names)[y]
  {
    hide Positions;
    PositionsAreOnes(names);
  }

  /** No two of the names differ in case alone. */
  ghost predicate CaselessApart(names: seq<string>, fold: string -> string) {
    forall x, y :: x in names && y in names && fold(x) == fold(y) ==> x == y
  }

  ghost predicate KeepsSlots(names: seq<string>, others: seq<string>, fold: string -> string,
                             loads: map<string, Load>, later: map<string, Load>)
    requires Distinct(names)
  {
    multiset(others) == multiset(names) && Distinct(others) ==>
      AssignSlots(others, fold, later) == AssignSlots(names, fold, loads)
  }

  /** Up to seven models keep their slots, for any loads and in any order, if and only if no two of
      their names differ in case alone. */
  lemma SlotsAreStableExactly(names: seq<string>, fold: string -> string, loads: map<string, Load>)
    requires Distinct(names) && |names| <= SLOTS
    ensures (forall others, later :: KeepsSlots(names, others, fold, loads, later)) <==> CaselessApart(names, fold)
  {
    hide AssignSlots;
    if CaselessApart(names, fold) {
      forall others: seq<string>, later: map<string, Load>
        ensures KeepsSlots(names, others, fold, loads, later)
      {
        if multiset(others) == multiset(names) && Distinct(others) {
          SlotsAreStable(names, others, fold, loads, later);
        }
      }
    } else {
      var x, y :| x in names && y in names && fold(x) == fold(y) && x != y;
      var rest := TwoInFront(names, x, y);
      CaselessTwinsSwap(x, y, rest, fold, loads);
      CaselessTwinsSwap(y, x, rest, fold, loads);
      assert !KeepsSlots(names, [x, y] + rest, fold, loads, loads) || !KeepsSlots(names, [y, x] + rest, fold, loads, loads);
    }
  }

  /** The same names, with two of them in front. */
  lemma TwoInFront(names: seq<string>, x: string, y: string) returns (rest: seq<string>)
    requires Distinct(names) && x in names && y in names && x != y
    ensures multiset([x, y] + rest) == multiset(names) && multiset([y, x] + rest) == multiset(names)
    ensures Distinct([x, y] + rest) && Distinct([y, x] + rest) && |rest| + 2 == |names|
  {
    var once := OneInFront(names, x);
    TailIsDistinct(x, once);
    SameElements(names, [x] + once);
    assert y in once;
    rest := OneInFront(once, y);
    AddInFront(x, once, [y] + rest);
    assert [x] + ([y] + rest) == [x, y] + rest;
    SwapInFront(x, y, rest);
    SameIsDistinct(names, [x, y] + rest);
    SameIsDistinct(names, [y, x] + rest);
    assert |multiset(names)| == |names| && |multiset([x, y] + rest)| == |rest| + 2;
  }

  lemma TailIsDistinct(x: string, rest: seq<string>)
    requires Distinct([x] + rest)
    ensures Distinct(rest)
  {
    assert forall i :: 0 <= i < |rest| ==> ([x] + rest)[i + 1] == rest[i];
  }

  lemma AddInFront(x: string, a: seq<string>, b: seq<string>)
    requires multiset(a) == multiset(b)
    ensures multiset([x] + a) == multiset([x] + b)
  {
  }

  lemma SwapInFront(x: string, y: string, rest: seq<string>)
    ensures multiset([x, y] + rest) == multiset([y, x] + rest)
  {
    assert multiset([x, y] + rest) == multiset([x, y]) + multiset(rest);
    assert multiset([y, x] + rest) == multiset([y, x]) + multiset(rest);
    assert multiset([x, y]) == multiset{x, y} == multiset([y, x]);
  }

  lemma SameIsDistinct(a: seq<string>, b: seq<string>)
    requires Distinct(a) && multiset(a) == multiset(b)
    ensures Distinct(b)
  {
    DistinctIsOnce(a);
    OnceIsDistinct(b);
  }

  lemma OneInFront(names: seq<string>, x: string) returns (rest: seq<string>)
    requires Distinct(names) && x in names
    ensures multiset([x] + rest) == multiset(names) && Distinct([x] + rest)
  {
    hide Distinct;
    var i :| 0 <= i < |names| && names[i] == x;
    rest := names[..i] + names[i + 1..];
    MovedInFront(names[..i], x, names[i + 1..]);
    assert names == names[..i] + [x] + names[i + 1..];
    SameIsDistinct(names, [x] + rest);
  }

  lemma MovedInFront(before: seq<string>, x: string, after: seq<string>)
    ensures multiset([x] + (before + after)) == multiset(before + [x] + after)
  {
  }

  lemma FewAreAllSlotted(names: seq<string>, fold: string -> string, loads: map<string, Load>)
    requires |names| <= SLOTS
    ensures Slotted(names, fold, loads) == Sorted(names, ByName(fold))
  {
    hide Sorted, ByName, ByLoad;
  }

  lemma StrictByName(names: seq<string>, fold: string -> string)
    requires Distinct(names)
    requires forall x, y :: x in names && y in names && fold(x) == fold(y) ==> x == y
    ensures Strict(Sorted(names, ByName(fold)), ByName(fold))
    ensures multiset(Sorted(names, ByName(fold))) == multiset(names)
  {
    hide Sorted, Less, IsOrdering;
    ByNameOrders(fold);
    SortSorts(names, ByName(fold));
    SortKeepsDistinct(names, ByName(fold));
    var a := Sorted(names, ByName(fold));
    forall i, j | 0 <= i < j < |a|
      ensures ByName(fold)(a[i], a[j])
    {
      assert a[i] in names && a[j] in names;
      LessIsTotal(fold(a[i]), fold(a[j]));
      assert !ByName(fold)(a[j], a[i]);
    }
  }

  ghost predicate Strict(xs: seq<string>, before: Before) {
    forall i, j :: 0 <= i < j < |xs| ==> before(xs[i], xs[j])
  }

  /** A sequence in strict order is the only one of its elements. */
  lemma {:induction false} OneOrder(a: seq<string>, b: seq<string>, before: Before)
    requires Strict(a, before) && Strict(b, before) && multiset(a) == multiset(b)
    requires forall x, y :: before(x, y) ==> !before(y, x)
    ensures a == b
  {
    assert |multiset(a)| == |a| && |multiset(b)| == |b|;
    if a != [] {
      SameLast(a, b, before);
      RestOfOrder(a, b, a[|a| - 1]);
      assert a == a[..|a| - 1] + [a[|a| - 1]] && b == b[..|b| - 1] + [a[|a| - 1]];
      OneOrder(a[..|a| - 1], b[..|b| - 1], before);
    }
  }

  lemma SameLast(a: seq<string>, b: seq<string>, before: Before)
    requires Strict(a, before) && Strict(b, before) && multiset(a) == multiset(b) && a != [] && b != []
    requires forall x, y :: before(x, y) ==> !before(y, x)
    ensures a[|a| - 1] == b[|b| - 1]
  {
    var x, y := a[|a| - 1], b[|b| - 1];
    assert x in multiset(b) && y in multiset(a);
    var i :| 0 <= i < |b| && b[i] == x;
    var j :| 0 <= j < |a| && a[j] == y;
  }

  lemma RestOfOrder(a: seq<string>, b: seq<string>, x: string)
    requires multiset(a) == multiset(b) && a != [] && b != [] && a[|a| - 1] == x == b[|b| - 1]
    ensures multiset(a[..|a| - 1]) == multiset(b[..|b| - 1])
  {
    assert a == a[..|a| - 1] + [x] && b == b[..|b| - 1] + [x];
    assert multiset(a[..|a| - 1]) == multiset(a) - multiset{x};
    assert multiset(b[..|b| - 1]) == multiset(b) - multiset{x};
  }
}
