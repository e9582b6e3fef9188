/** The versions of an add-on on disk (`snapshots.py`, `addon_upgrades.py`). */
module Snapshots {
  import opened Collections
  import opened Text
  import opened Wrappers

  // Every version an add-on ran from is a directory of its own. Pruning deletes what nothing
  // needs any more, while upgrades and rollbacks move the registration between directories.

  const MAX_SNAPSHOTS: nat := 3

  /** `_managed/<catalog>/<revision>/<add-on>`, the single directory of the older layout, and
      any other place an add-on may be registered at. */
  datatype Path =
    | Snapshot(catalog: string, revision: string, addon: string)
    | Legacy(catalog: string, addon: string)
    | Elsewhere(path: string)

  /** The add-on directories that exist, with their modification times. */
  type Disk = map<Path, int>

  predicate IsHex(c: char) {
    IsDigit(c) || 'a' <= c <= 'f'
  }

  /** `^(?:[0-9a-f]{12}|local-\d{14})$` */
  predicate IsRevision(name: string) {
    || (|name| == 12 && forall i :: 0 <= i < 12 ==> IsHex(name[i]))
    || (|name| == 20 && name[..6] == "local-" && forall i :: 6 <= i < 20 ==> IsDigit(name[i]))
  }

  const HEX_DIGITS := "0123456789abcdef"

  /** Twelve digits of a commit, or `local-` and fourteen decimal digits. */
  lemma RevisionNames(name: string)
    ensures IsRevision(name) <==>
              || (|name| == 12 && forall c :: c in name ==> c in HEX_DIGITS)
              || (|name| == 20 && name == "local-" + name[6..] && IsDigits(name[6..]))
  {
    HexDigits();
    if |name| == 20 {
      assert name == name[..6] + name[6..];
      assert forall i :: 6 <= i < 20 ==> name[6..][i - 6] == name[i];
    }
  }

  lemma HexDigits()
    ensures forall c :: IsHex(c) <==> c in HEX_DIGITS
  {
    forall c | IsHex(c)
      ensures c in HEX_DIGITS
    {
      assert HEX_DIGITS[if IsDigit(c) then c as int - '0' as int else c as int - 'a' as int + 10] == c;
    }
    forall c | c in HEX_DIGITS
      ensures IsHex(c)
    {
      var i :| 0 <= i < |HEX_DIGITS| && HEX_DIGITS[i] == c;
    }
  }

  /** The snapshots of one add-on. A revision directory that is an add-on itself, of the older
      layout, holds none. */
  predicate IsCandidate(disk: Disk, catalog: string, addon: string, p: Path) {
    && p in disk && p.Snapshot? && p.catalog == catalog && p.addon == addon
    && IsRevision(p.revision) && Legacy(catalog, p.revision) !in disk
  }

  function Candidates(disk: Disk, catalog: string, addon: string): set<Path> {
    set p | p in disk && IsCandidate(disk, catalog, addon, p)
  }

  /** `rmtree`: a directory goes with everything below it. */
  function RemoveTree(disk: Disk, p: Path): Disk {
    map q | q in disk && q != p && !(p.Legacy? && q.Snapshot? && q.catalog == p.catalog && q.revision == p.addon)
      :: disk[q]
  }

  function Max(a: int, b: int): int {
    if a >= b then a else b
  }

  function Min(a: int, b: int): int {
    if a <= b then a else b
  }

  /** Snapshots lie in revision directories: staging makes no others. */
  ghost predicate InRevisions(disk: Disk) {
    forall p :: p in disk && p.Snapshot? ==> IsRevision(p.revision)
  }

  lemma RemovesOne(disk: Disk, p: Path)
    requires p.Legacy? ==> InRevisions(disk) && !IsRevision(p.addon)
    ensures RemoveTree(disk, p) == disk - {p}
  {
  }

  // ---------------------------------------------------------------- what a prune does

  /** The snapshots no kept directory protects. */
  function Loose(disk: Disk, catalog: string, addon: string, keep: seq<Path>): set<Path> {
    set p | p in Candidates(disk, catalog, addon) && p !in keep
  }

  /** How many of them may stay: what the limit leaves after the kept ones. */
  function Room(keep: seq<Path>, limit: int): nat {
    Max(limit - |keep|, 0)
  }

  /** Of the loose ones `gone` go: all but the `room` newest. */
  ghost predicate IsOldest(loose: set<Path>, gone: set<Path>, disk: Disk, room: nat) {
    && loose <= disk.Keys && gone <= loose && |loose - gone| == Min(room, |loose|)
    && forall g, s :: g in gone && s in loose - gone ==> disk[g] <= disk[s]
  }

  /** The effect of a prune, whichever order equally old snapshots come in: of the loose ones
      as many of the newest stay as there is room for; the older layout's directory goes unless
      it is kept; nothing else is touched. */
  ghost predicate Pruned(before: Disk, after: Disk, catalog: string, addon: string, keep: seq<Path>, limit: int) {
    var loose := Loose(before, catalog, addon, keep);
    var legacy := Legacy(catalog, addon);
    && after.Keys <= before.Keys && (forall p :: p in after ==> after[p] == before[p])
    && (forall p :: p in before && p !in loose && p != legacy ==> p in after)
    && (legacy in after <==> legacy in before && legacy in keep)
    && IsOldest(loose, loose - after.Keys, before, Room(keep, limit))
  }

  lemma {:induction false} ElementsOf(keep: seq<Path>)
    ensures |set p | p in keep| <= |keep|
  {
    if keep != [] {
      ElementsOf(keep[1..]);
      assert (set p | p in keep) == {keep[0]} + (set p | p in keep[1..]);
    }
  }

  /** A prune leaves at most as many snapshots of the add-on as the limit, or as the kept
      directories if those are more; and every kept directory stays. */
  lemma PruneBound(before: Disk, after: Disk, catalog: string, addon: string, keep: seq<Path>, limit: int)
    requires Pruned(before, after, catalog, addon, keep, limit) && limit >= 0
    ensures |Candidates(before, catalog, addon) * after.Keys| <= Max(limit, |keep|)
    ensures forall p :: p in keep && p in before ==> p in after
  {
    hide Candidates, RemoveTree, IsOldest;
    var loose := Loose(before, catalog, addon, keep);
    ElementsOf(keep);
    LooseFit(loose, after.Keys, before, Room(keep, limit));
    LooseOrKept(before, catalog, addon, keep, after.Keys);
    UnionSize(Candidates(before, catalog, addon) * after.Keys, loose * after.Keys, set p | p in keep);
  }

  lemma LooseFit(loose: set<Path>, left: set<Path>, disk: Disk, room: nat)
    requires IsOldest(loose, loose - left, disk, room)
    ensures |loose * left| <= room
  {
    assert loose - (loose - left) == loose * left;
  }

  lemma LooseOrKept(disk: Disk, catalog: string, addon: string, keep: seq<Path>, some: set<Path>)
    ensures Candidates(disk, catalog, addon) * some <= (Loose(disk, catalog, addon, keep) * some) + (set p | p in keep)
  {
    hide Candidates;
  }

  /** Other add-ons, other catalogs and directories elsewhere are not touched. */
  lemma PruneFrame(before: Disk, after: Disk, catalog: string, addon: string, keep: seq<Path>, limit: int, p: Path)
    requires Pruned(before, after, catalog, addon, keep, limit) && p in before
    requires match p
             case Snapshot(c, _, a) => c != catalog || a != addon
             case Legacy(c, a) => c != catalog || a != addon
             case Elsewhere(_) => true
    ensures p in after && after[p] == before[p]
  {
  }

  /** A snapshot of this add-on in a directory named like a revision that is no add-on itself, and
      that nothing keeps. */
  ghost predicate IsLoose(disk: Disk, catalog: string, addon: string, keep: seq<Path>, p: Path) {
    && p.Snapshot? && p.catalog == catalog && p.addon == addon && p !in keep
    && IsRevision(p.revision) && !exists q :: q in disk && q.Legacy? && q.catalog == catalog && q.addon == p.revision
  }

  /** What a prune does, counted: of the loose ones exactly as many stay as the limit leaves after
      the kept ones, none older than one that goes; the older layout's directory stays only if it
      is kept; nothing else is touched. */
  lemma PruneExactly(before: Disk, after: Disk, catalog: string, addon: string, keep: seq<Path>, limit: int)
    requires Pruned(before, after, catalog, addon, keep, limit)
    ensures var loose := set p | p in before && IsLoose(before, catalog, addon, keep, p);
            var room := if limit > |keep| then limit - |keep| else 0;
            && |loose * after.Keys| == (if room < |loose| then room else |loose|)
            && (forall g, s :: g in loose - after.Keys && s in loose * after.Keys ==> before[g] <= before[s])
            && (forall p :: p in before && p !in loose && p != Legacy(catalog, addon) ==> p in after)
            && (Legacy(catalog, addon) in after <==> Legacy(catalog, addon) in before && Legacy(catalog, addon) in keep)
            && forall p :: p in after ==> p in before && after[p] == before[p]
  {
    hide Loose, IsLoose;
    var loose := set p | p in before && IsLoose(before, catalog, addon, keep, p);
    forall p: Path
      ensures p in loose <==> p in Loose(before, catalog, addon, keep)
    {
      LooseIs(before, catalog, addon, keep, p);
    }
    assert loose == Loose(before, catalog, addon, keep);
    OldestGo(loose, after.Keys, before, Room(keep, limit));
    hide IsOldest;
  }

  lemma OldestGo(loose: set<Path>, left: set<Path>, disk: Disk, room: nat)
    requires IsOldest(loose, loose - left, disk, room)
    ensures |loose * left| == (if room < |loose| then room else |loose|)
    ensures forall g, s :: g in loose - left && s in loose * left ==> disk[g] <= disk[s]
  {
    assert loose - (loose - left) == loose * left;
  }

  lemma LooseIs(disk: Disk, catalog: string, addon: string, keep: seq<Path>, p: Path)
    ensures p in Loose(disk, catalog, addon, keep) <==> p in disk && IsLoose(disk, catalog, addon, keep, p)
  {
    hide IsRevision;
    if p.Snapshot? && p.catalog == catalog {
      assert Legacy(catalog, p.revision) in disk <==>
             exists q :: q in disk && q.Legacy? && q.catalog == catalog && q.addon == p.revision;
    }
  }

  // ---------------------------------------------------------------- the pruning loop

  ghost predicate NewestFirst(paths: seq<Path>, disk: Disk) {
    && (forall i :: 0 <= i < |paths| ==> paths[i] in disk)
    && (forall i, j :: 0 <= i < j < |paths| ==> disk[paths[i]] >= disk[paths[j]] && paths[i] != paths[j])
  }

  /** Where a snapshot goes in a list of others, the newest first. */
  method Insert(paths: seq<Path>, p: Path, disk: Disk) returns (r: seq<Path>)
    requires NewestFirst(paths, disk) && p in disk && p !in paths
    ensures NewestFirst(r, disk) && |r| == |paths| + 1
    ensures forall q :: q in r <==> q in paths || q == p
  {
    var i := 0;
    while i < |paths| && disk[paths[i]] >= disk[p]
      invariant i <= |paths| && forall k :: 0 <= k < i ==> disk[paths[k]] >= disk[p]
    {
      i := i + 1;
    }
    r := paths[..i] + [p] + paths[i..];
    InsertedIsSorted(paths, p, disk, i);
  }

  lemma InsertedElements(paths: seq<Path>, p: Path, i: nat)
    requires i <= |paths|
    ensures forall q :: q in paths[..i] + [p] + paths[i..] <==> q in paths || q == p
  {
    assert paths == paths[..i] + paths[i..];
  }

  lemma InsertedIsSorted(paths: seq<Path>, p: Path, disk: Disk, i: nat)
    requires NewestFirst(paths, disk) && p in disk && p !in paths && i <= |paths|
    requires forall k :: 0 <= k < i ==> disk[paths[k]] >= disk[p]
    requires i < |paths| ==> disk[paths[i]] < disk[p]
    ensures var r := paths[..i] + [p] + paths[i..];
            NewestFirst(r, disk) && forall q :: q in r <==> q in paths || q == p
  {
    var r := paths[..i] + [p] + paths[i..];
    assert r[i] == p;
    forall k | 0 <= k < |r| && k != i
      ensures r[k] == paths[if k < i then k else k - 1]
      ensures r[k] != p && if k < i then disk[r[k]] >= disk[p] else disk[r[k]] <= disk[p]
    {
      var was := if k < i then k else k - 1;
      assert r[k] == paths[was] && paths[was] in paths;
      assert k > i ==> disk[paths[i]] >= disk[paths[was]];
    }
    InsertedElements(paths, p, i);
  }

  /** The candidates as `candidates.sort(reverse=True)` leaves them. */
  method SortedCandidates(disk: Disk, catalog: string, addon: string) returns (paths: seq<Path>)
    ensures NewestFirst(paths, disk)
    ensures forall p :: p in paths <==> p in Candidates(disk, catalog, addon)
  {
    var left := Candidates(disk, catalog, addon);
    paths := [];
    while left != {}
      invariant left <= Candidates(disk, catalog, addon) && NewestFirst(paths, disk)
      invariant forall p :: p in paths <==> p in Candidates(disk, catalog, addon) - left
    {
      var p :| p in left;
      paths := Insert(paths, p, disk);
      left := left - {p};
    }
  }

  /** `prune_snapshots` on the candidates, newest first: which of them go. */
  method Surplus(paths: seq<Path>, keep: seq<Path>, limit: int) returns (gone: seq<Path>)
    ensures gone == SurplusOf(paths, keep, Room(keep, limit))
  {
    var room := Max(limit - |keep|, 0);
    gone := [];
    var i := 0;
    assert paths[0..] == paths;
    while i < |paths|
      invariant i <= |paths| && room >= 0
      invariant gone + SurplusOf(paths[i..], keep, room) == SurplusOf(paths, keep, Room(keep, limit))
    {
      var p := paths[i];
      assert paths[i..][1..] == paths[i + 1..];
      i := i + 1;
      if p in keep {
        continue;
      }
      if room > 0 {
        room := room - 1;
        continue;
      }
      gone := gone + [p];
    }
  }

  function SurplusOf(paths: seq<Path>, keep: seq<Path>, room: nat): seq<Path> {
    if paths == [] then []
    else if paths[0] in keep then SurplusOf(paths[1..], keep, room)
    else if room > 0 then SurplusOf(paths[1..], keep, room - 1)
    else [paths[0]] + SurplusOf(paths[1..], keep, 0)
  }

  function LooseOf(paths: seq<Path>, keep: seq<Path>): set<Path> {
    set p | p in paths && p !in keep
  }

  function Elements(paths: seq<Path>): set<Path> {
    set p | p in paths
  }

  lemma {:induction false} NoRoomTakesAll(paths: seq<Path>, keep: seq<Path>)
    ensures Elements(SurplusOf(paths, keep, 0)) == LooseOf(paths, keep)
  {
    if paths != [] {
      NoRoomTakesAll(paths[1..], keep);
      assert paths == [paths[0]] + paths[1..];
      assert Elements(SurplusOf(paths, keep, 0))
          == (if paths[0] in keep then {} else {paths[0]}) + Elements(SurplusOf(paths[1..], keep, 0));
    }
  }

  lemma TailNewestFirst(paths: seq<Path>, disk: Disk)
    requires NewestFirst(paths, disk) && paths != []
    ensures NewestFirst(paths[1..], disk) && paths[0] !in paths[1..]
    ensures forall q :: q in paths[1..] ==> disk[paths[0]] >= disk[q]
    ensures forall q :: q in paths <==> q == paths[0] || q in paths[1..]
  {
    assert paths == [paths[0]] + paths[1..];
  }

  lemma OneMoreStays(loose: set<Path>, gone: set<Path>, newest: Path, disk: Disk, room: nat)
    requires IsOldest(loose, gone, disk, room) && newest in disk && newest !in loose
    requires forall p :: p in loose ==> disk[p] <= disk[newest]
    ensures IsOldest({newest} + loose, gone, disk, room + 1)
  {
    assert ({newest} + loose) - gone == {newest} + (loose - gone);
  }

  lemma AllGo(loose: set<Path>, disk: Disk)
    requires loose <= disk.Keys
    ensures IsOldest(loose, loose, disk, 0)
  {
    assert loose - loose == {};
  }

  /** What goes is loose, what stays of the loose is as much as there is room for, and it is no
      older than what goes. */
  lemma {:induction false} SurplusIsTheOldest(paths: seq<Path>, disk: Disk, keep: seq<Path>, room: nat)
    requires NewestFirst(paths, disk)
    ensures IsOldest(LooseOf(paths, keep), Elements(SurplusOf(paths, keep, room)), disk, room)
  {
    hide IsOldest;
    if paths == [] {
      assert LooseOf(paths, keep) == {} && Elements(SurplusOf(paths, keep, room)) == {};
      NothingLoose(disk, room);
    } else if room == 0 {
      NoRoomTakesAll(paths, keep);
      assert LooseOf(paths, keep) <= disk.Keys;
      AllGo(LooseOf(paths, keep), disk);
    } else {
      TailNewestFirst(paths, disk);
      var rest := paths[1..];
      if paths[0] in keep {
        SurplusIsTheOldest(rest, disk, keep, room);
        assert LooseOf(paths, keep) == LooseOf(rest, keep);
      } else {
        SurplusIsTheOldest(rest, disk, keep, room - 1);
        assert LooseOf(paths, keep) == {paths[0]} + LooseOf(rest, keep);
        OneMoreStays(LooseOf(rest, keep), Elements(SurplusOf(rest, keep, room - 1)), paths[0], disk, room - 1);
      }
    }
  }

  lemma NothingLoose(disk: Disk, room: nat)
    ensures IsOldest({}, {}, disk, room)
  {
    var none: set<Path> := {};
    assert none - none == none;
  }

  /** The same about the candidates on disk. */
  ghost predicate IsSurplus(disk: Disk, catalog: string, addon: string, keep: seq<Path>, limit: int, gone: set<Path>) {
    IsOldest(Loose(disk, catalog, addon, keep), gone, disk, Room(keep, limit))
  }

  lemma SurplusIsLoose(disk: Disk, catalog: string, addon: string, keep: seq<Path>, limit: int, paths: seq<Path>)
    requires NewestFirst(paths, disk) && forall p :: p in paths <==> p in Candidates(disk, catalog, addon)
    ensures IsSurplus(disk, catalog, addon, keep, limit, Elements(SurplusOf(paths, keep, Room(keep, limit))))
    ensures Elements(SurplusOf(paths, keep, Room(keep, limit))) <= Loose(disk, catalog, addon, keep)
    ensures forall p :: p in SurplusOf(paths, keep, Room(keep, limit)) ==> p in disk && p.Snapshot?
  {
    SurplusIsTheOldest(paths, disk, keep, Room(keep, limit));
    assert LooseOf(paths, keep) == Loose(disk, catalog, addon, keep);
    forall p | p in SurplusOf(paths, keep, Room(keep, limit))
      ensures p in disk && p.Snapshot?
    {
      assert p in Elements(SurplusOf(paths, keep, Room(keep, limit)));
    }
  }

  lemma PrunedBy(before: Disk, after: Disk, catalog: string, addon: string, keep: seq<Path>, limit: int, gone: set<Path>)
    requires IsSurplus(before, catalog, addon, keep, limit, gone) && gone <= Loose(before, catalog, addon, keep)
    requires after == before - (gone + if Legacy(catalog, addon) in keep then {} else {Legacy(catalog, addon)})
    ensures Pruned(before, after, catalog, addon, keep, limit)
  {
    LooseAreSnapshots(before, catalog, addon, keep);
    hide Loose, Room, IsOldest;
    var loose, legacy := Loose(before, catalog, addon, keep), Legacy(catalog, addon);
    var removed := gone + if legacy in keep then {} else {legacy};
    assert forall p :: p in after <==> p in before && p !in removed;
    assert loose - after.Keys == gone;
  }

  lemma LooseAreSnapshots(disk: Disk, catalog: string, addon: string, keep: seq<Path>)
    ensures forall p :: p in Loose(disk, catalog, addon, keep) ==> p in disk && p.Snapshot?
  {
  }

  // ---------------------------------------------------------------- one add-on over time

  /** The registration papaia-ctl keeps: the directory the add-on runs from and the one a
      rollback goes back to. */
  datatype Entry = Entry(registered: Option<Path>, previous: Option<Path>)

  datatype Step =
    | Stage(path: Path, at: int, written: bool)
    | Upgrade(path: Path, moved: bool)
    | Rollback(moved: bool, swaps: bool)
    | Prune(extra: Option<Path>)

  datatype Store = Store(disk: Disk, entry: Entry)

  function ListOf(p: Option<Path>): seq<Path> {
    if p.None? then [] else [p.value]
  }

  /** What `prune_after` keeps, read from the registration as it is then. */
  function Keep(entry: Entry, extra: Option<Path>): seq<Path> {
    ListOf(entry.registered) + ListOf(entry.previous) + ListOf(extra)
  }

  /** papaia-ctl is foreign: it may move the registration or not, whatever it exits with, but it
      registers only a directory that exists. After a rollback it may remember where it came
      from or not. */
  ghost predicate Does(step: Step, before: Store, after: Store, catalog: string, addon: string) {
    match step
    case Stage(path, at, written) =>
      after == before.(disk := if written then before.disk[path := at] else before.disk)
    case Upgrade(path, moved) =>
      if moved then path in before.disk && after == before.(entry := Entry(Some(path), before.entry.registered))
      else after == before
    case Rollback(moved, swaps) =>
      if moved then
        && before.entry.previous.Some? && before.entry.previous.value in before.disk
        && after == before.(entry := Entry(before.entry.previous, if swaps then before.entry.registered else None))
      else after == before
    case Prune(extra) =>
      && after.entry == before.entry
      && Pruned(before.disk, after.disk, catalog, addon, Keep(before.entry, extra), MAX_SNAPSHOTS)
  }

  ghost predicate IsStored(disk: Disk, p: Option<Path>) {
    p.Some? ==> p.value in disk
  }

  /** Both directories are there. */
  ghost predicate Safe(s: Store) {
    IsStored(s.disk, s.entry.registered) && IsStored(s.disk, s.entry.previous)
  }

  lemma StepIsSafe(step: Step, before: Store, after: Store, catalog: string, addon: string)
    requires Safe(before) && Does(step, before, after, catalog, addon)
    ensures Safe(after)
    ensures step.Prune? ==>
              |Candidates(before.disk, catalog, addon) * after.disk.Keys| <= 3
              && (step.extra.Some? && step.extra.value in before.disk ==> step.extra.value in after.disk)
  {
    if step.Prune? {
      PruneBound(before.disk, after.disk, catalog, addon, Keep(before.entry, step.extra), MAX_SNAPSHOTS);
    }
  }

  /** In every order of stagings, upgrades, rollbacks and prunes, the directory that runs and
      the one a rollback needs stay on disk. */
  lemma {:induction false} EveryOrderIsSafe(stores: seq<Store>, steps: seq<Step>, catalog: string, addon: string, n: nat)
    requires |stores| == |steps| + 1 && n <= |steps| && Safe(stores[0])
    requires forall i :: 0 <= i < |steps| ==> Does(steps[i], stores[i], stores[i + 1], catalog, addon)
    ensures Safe(stores[n])
  {
    if n > 0 {
      EveryOrderIsSafe(stores, steps, catalog, addon, n - 1);
      StepIsSafe(steps[n - 1], stores[n - 1], stores[n], catalog, addon);
    }
  }

  // ---------------------------------------------------------------- a prune that reads too early

  /** The other loose snapshots that are at least as new. */
  function Rivals(disk: Disk, catalog: string, addon: string, keep: seq<Path>, p: Path): set<Path>
    requires p in disk
  {
    set q | q in Loose(disk, catalog, addon, keep) && q != p && disk[q] >= disk[p]
  }

  /** Some newest `n` of the paths. */
  lemma {:induction false} SomeNewest(paths: set<Path>, disk: Disk, n: nat) returns (newest: set<Path>)
    requires paths <= disk.Keys && n <= |paths|
    ensures newest <= paths && |newest| == n
    ensures forall p, q :: p in paths - newest && q in newest ==> disk[p] <= disk[q]
  {
    newest := {};
    if n > 0 {
      var top := Newest(paths, disk);
      var rest := SomeNewest(paths - {top}, disk, n - 1);
      newest := rest + {top};
    }
  }

  lemma {:induction false} Newest(paths: set<Path>, disk: Disk) returns (top: Path)
    requires paths <= disk.Keys && paths != {}
    ensures top in paths && forall p :: p in paths ==> disk[p] <= disk[top]
  {
    top :| top in paths;
    if paths != {top} {
      var rest := Newest(paths - {top}, disk);
      if disk[rest] > disk[top] {
        top := rest;
      }
    }
  }

  lemma NewestStay(loose: set<Path>, rivals: set<Path>, stay: set<Path>, disk: Disk, room: nat, p: Path)
    requires loose <= disk.Keys && p in loose && stay <= rivals && |stay| == room
    requires forall q :: q in rivals <==> q in loose && q != p && disk[q] >= disk[p]
    requires forall q, r :: q in rivals - stay && r in stay ==> disk[q] <= disk[r]
    ensures IsOldest(loose, loose - stay, disk, room) && p !in stay
  {
    assert loose - (loose - stay) == stay;
    SubsetSize(stay, loose);
  }

  /** A snapshot there is no room for goes in some outcome of a prune. */
  lemma SomePruneTakes(before: Disk, catalog: string, addon: string, keep: seq<Path>, limit: int, p: Path)
    returns (after: Disk)
    requires p in Loose(before, catalog, addon, keep) && |Rivals(before, catalog, addon, keep, p)| >= Room(keep, limit)
    ensures Pruned(before, after, catalog, addon, keep, limit) && p !in after
  {
    hide Candidates, IsOldest;
    LooseAreSnapshots(before, catalog, addon, keep);
    var loose, rivals := Loose(before, catalog, addon, keep), Rivals(before, catalog, addon, keep, p);
    var stay := SomeNewest(rivals, before, Room(keep, limit));
    var gone := loose - stay;
    NewestStay(loose, rivals, stay, before, Room(keep, limit), p);
    after := before - (gone + if Legacy(catalog, addon) in keep then {} else {Legacy(catalog, addon)});
    PrunedBy(before, after, catalog, addon, keep, limit, gone);
  }

  lemma RoomKeeps(before: Disk, after: Disk, catalog: string, addon: string, keep: seq<Path>, limit: int, p: Path)
    requires p in Loose(before, catalog, addon, keep) && |Rivals(before, catalog, addon, keep, p)| < Room(keep, limit)
    requires Pruned(before, after, catalog, addon, keep, limit)
    ensures p in after
  {
    hide IsCandidate;
    var loose, rivals := Loose(before, catalog, addon, keep), Rivals(before, catalog, addon, keep, p);
    if p !in after {
      var gone := loose - after.Keys;
      assert loose - gone <= rivals;
      SubsetSize(loose - gone, rivals);
      SubsetSize(rivals + {p}, loose);
    }
  }

  lemma SomeOldest(loose: set<Path>, disk: Disk, room: nat) returns (gone: set<Path>)
    requires loose <= disk.Keys
    ensures gone <= loose && IsOldest(loose, gone, disk, room)
  {
    var stay := SomeNewest(loose, disk, Min(room, |loose|));
    gone := loose - stay;
    assert loose - gone == stay;
  }

  /** There is always some outcome. */
  lemma SomePrune(before: Disk, catalog: string, addon: string, keep: seq<Path>, limit: int) returns (after: Disk)
    ensures Pruned(before, after, catalog, addon, keep, limit)
  {
    hide Candidates, Loose, Pruned, Room, IsOldest;
    LooseAreSnapshots(before, catalog, addon, keep);
    var gone := SomeOldest(Loose(before, catalog, addon, keep), before, Room(keep, limit));
    after := before - (gone + if Legacy(catalog, addon) in keep then {} else {Legacy(catalog, addon)});
    PrunedBy(before, after, catalog, addon, keep, limit, gone);
  }

  /** Kept, or outside the add-on's place, or a snapshot with fewer others that nothing keeps at
      least as new as there is room for. */
  predicate HasPlace(disk: Disk, catalog: string, addon: string, keep: seq<Path>, limit: int, p: Path)
    requires p in disk
  {
    || p in keep
    || if p in Candidates(disk, catalog, addon) then |Rivals(disk, catalog, addon, keep, p)| < Room(keep, limit)
       else p != Legacy(catalog, addon)
  }

  /** A directory stays whichever way ties are broken if and only if it has a place. */
  lemma StaysExactlyWithPlace(before: Disk, catalog: string, addon: string, keep: seq<Path>, limit: int, p: Path)
    requires p in before
    ensures (forall after :: Pruned(before, after, catalog, addon, keep, limit) ==> p in after)
            <==> HasPlace(before, catalog, addon, keep, limit, p)
  {
    hide Rivals, IsOldest, IsCandidate;
    if HasPlace(before, catalog, addon, keep, limit, p) {
      forall after | Pruned(before, after, catalog, addon, keep, limit)
        ensures p in after
      {
        if p in Loose(before, catalog, addon, keep) {
          RoomKeeps(before, after, catalog, addon, keep, limit, p);
        }
      }
    } else if p == Legacy(catalog, addon) {
      var after := SomePrune(before, catalog, addon, keep, limit);
      assert p !in after;
    } else {
      var after := SomePruneTakes(before, catalog, addon, keep, limit, p);
    }
  }

  /** A prune must read the registration and delete in one go. When what it keeps was read before
      an upgrade moved the registration, and it deletes by that after, both directories of the
      add-on stay in every outcome if and only if the one it moved to was kept all the same, or
      had a place. */
  lemma StalePruneCanLose(before: Store, after: Store, catalog: string, addon: string, extra: Option<Path>, moved: Path)
    requires Safe(before) && Does(Upgrade(moved, true), before, after, catalog, addon)
    ensures var keep := Keep(before.entry, extra);
            (forall disk :: Pruned(after.disk, disk, catalog, addon, keep, MAX_SNAPSHOTS) ==> Safe(after.(disk := disk)))
            <==> HasPlace(after.disk, catalog, addon, keep, MAX_SNAPSHOTS, moved)
  {
    hide HasPlace, Pruned;
    var keep := Keep(before.entry, extra);
    StaysExactlyWithPlace(after.disk, catalog, addon, keep, MAX_SNAPSHOTS, moved);
    forall disk | Pruned(after.disk, disk, catalog, addon, keep, MAX_SNAPSHOTS)
      ensures Safe(after.(disk := disk)) <==> moved in disk
    {
      if before.entry.registered.Some? {
        assert before.entry.registered.value in keep;
        KeptStays(after.disk, disk, catalog, addon, keep, MAX_SNAPSHOTS, before.entry.registered.value);
      }
    }
    hide Keep, Safe;
  }

  lemma KeptStays(before: Disk, after: Disk, catalog: string, addon: string, keep: seq<Path>, limit: int, p: Path)
    requires Pruned(before, after, catalog, addon, keep, limit) && p in keep && p in before
    ensures p in after
  {
    hide IsOldest, Candidates;
  }

  /** An add-on with two versions to keep and two more staged is upgraded to the older of those
      while a prune holds the list it read before: the directory it now runs from goes. */
  lemma StalePruneLoses()
    ensures var a, b := Snapshot("c", "00000000000a", "x"), Snapshot("c", "00000000000b", "x");
            var m, n := Snapshot("c", "00000000000d", "x"), Snapshot("c", "00000000000e", "x");
            var before := Store(map[a := 1, b := 2, m := 3, n := 4], Entry(Some(a), Some(b)));
            var upgraded := before.(entry := Entry(Some(m), Some(a)));
            var after := upgraded.(disk := map[a := 1, b := 2, n := 4]);
            && Safe(before) && Does(Upgrade(m, true), before, upgraded, "c", "x")
            && Pruned(upgraded.disk, after.disk, "c", "x", Keep(before.entry, None), MAX_SNAPSHOTS)
            && !Safe(after)
  {
    hide Pruned, IsRevision;
    var a, b := Snapshot("c", "00000000000a", "x"), Snapshot("c", "00000000000b", "x");
    var m, n := Snapshot("c", "00000000000d", "x"), Snapshot("c", "00000000000e", "x");
    FourApart(a, b, m, n);
    OlderStagedGoes(a, b, m, n);
    assert Keep(Entry(Some(a), Some(b)), None) == [a, b];
  }

  lemma LooseOfFour(a: Path, b: Path, m: Path, n: Path, disk: Disk)
    requires a != b && a != m && a != n && b != m && b != n && m != n
    requires forall p :: p in {a, b, m, n} ==> p.Snapshot? && p.catalog == "c" && p.addon == "x" && IsRevision(p.revision)
    requires disk.Keys == {a, b, m, n}
    ensures Loose(disk, "c", "x", [a, b]) == {m, n}
  {
    hide IsRevision;
    forall p: Path
      ensures p in Loose(disk, "c", "x", [a, b]) <==> p == m || p == n
    {
    }
  }

  lemma OlderStagedGoes(a: Path, b: Path, m: Path, n: Path)
    requires a != b && a != m && a != n && b != m && b != n && m != n
    requires forall p :: p in {a, b, m, n} ==> p.Snapshot? && p.catalog == "c" && p.addon == "x" && IsRevision(p.revision)
    ensures Pruned(map[a := 1, b := 2, m := 3, n := 4], map[a := 1, b := 2, n := 4], "c", "x", [a, b], MAX_SNAPSHOTS)
  {
    hide IsOldest, Pruned;
    var disk, keep := map[a := 1, b := 2, m := 3, n := 4], [a, b];
    LooseOfFour(a, b, m, n, disk);
    OlderGoes(m, n, disk);
    assert disk - ({m} + {Legacy("c", "x")}) == map[a := 1, b := 2, n := 4];
    PrunedBy(disk, map[a := 1, b := 2, n := 4], "c", "x", keep, MAX_SNAPSHOTS, {m});
  }

  lemma FourApart(a: Path, b: Path, m: Path, n: Path)
    requires a == Snapshot("c", "00000000000a", "x") && b == Snapshot("c", "00000000000b", "x")
    requires m == Snapshot("c", "00000000000d", "x") && n == Snapshot("c", "00000000000e", "x")
    ensures a != b && a != m && a != n && b != m && b != n && m != n
    ensures IsRevision(a.revision) && IsRevision(b.revision) && IsRevision(m.revision) && IsRevision(n.revision)
  {
    assert a.revision[11] == 'a' && b.revision[11] == 'b' && m.revision[11] == 'd' && n.revision[11] == 'e';
  }

  lemma OlderGoes(m: Path, n: Path, disk: Disk)
    requires m != n && m in disk && n in disk && disk[m] <= disk[n]
    ensures IsOldest({m, n}, {m}, disk, 1)
  {
    assert {m, n} - {m} == {n};
    assert |{m, n}| == 2;
  }

  /** What a catalog's version is taken from: a working directory, or a clone at some commit. */
  datatype Origin = Local | Clone(head: string)

  datatype Staging = Staged(revision: string) | Gone | NoCommit | Changed | CopyFailed | NotInCatalog

  /** `^[0-9a-f]{40}$` */
  predicate IsCommit(head: string) {
    |head| == 40 && forall i :: 0 <= i < 40 ==> IsHex(head[i])
  }

  /** The directory tree, changed in place. */
  class SnapshotStore {
    var disk: Disk
    var entry: Entry
    /** The directories that hold a `papaia-app.yaml`. */
    var manifests: set<Path>

    ghost function Now(): Store
      reads this
    {
      Store(disk, entry)
    }

    constructor (disk: Disk, entry: Entry, manifests: set<Path>)
      ensures this.disk == disk && this.entry == entry && this.manifests == manifests
    {
      this.disk, this.entry, this.manifests := disk, entry, manifests;
    }

    predicate IsComplete(path: Path)
      reads this
    {
      path in disk && path in manifests
    }

    /** `stage_revision`. The directory is complete afterwards and the one that was reviewed, if
        one was; a complete directory of a commit is never touched. `shipped` is whether the
        catalog has the add-on, `stamp` the name of a directory made now. */
    method StageRevision(catalog: string, addon: string, origin: Origin, reviewed: string, shipped: bool, copies: bool,
                         stamp: string, at: int)
      returns (outcome: Staging, ghost step: Step)
      requires IsRevision(stamp)
      modifies this`disk, this`manifests
      ensures old(InRevisions(disk)) ==> InRevisions(disk)
      ensures step.Stage? && Does(step, old(Now()), Now(), catalog, addon)
      ensures outcome.Staged? ==> IsComplete(Snapshot(catalog, outcome.revision, addon))
      ensures outcome.Staged? && reviewed != "" ==> outcome.revision == reviewed
      ensures outcome.Staged? && reviewed == "" && origin.Local? ==>
                outcome.revision == stamp && disk == old(disk)[Snapshot(catalog, stamp, addon) := at]
      ensures outcome.Staged? && origin.Clone? ==> |outcome.revision| == 12 && outcome.revision <= origin.head
      ensures outcome.Staged? <==>
                if origin.Local? then
                  if reviewed == "" then shipped && copies else old(IsComplete(Snapshot(catalog, reviewed, addon)))
                else && IsCommit(origin.head) && reviewed in {"", origin.head[..12]}
                     && (old(IsComplete(Snapshot(catalog, origin.head[..12], addon))) || (shipped && copies))
      ensures !outcome.Staged? && (shipped || !copies || origin.Local?) ==> disk == old(disk) && manifests == old(manifests)
      ensures origin.Clone? ==> forall p :: old(IsComplete(p)) ==> IsComplete(p) && disk[p] == old(disk[p])
    {
      if origin.Local? {
        if reviewed != "" {
          var path := Snapshot(catalog, reviewed, addon);
          step := Stage(path, at, false);
          if IsComplete(path) {
            return Staged(reviewed), step;
          }
          return Gone, step;
        }
        var path := Snapshot(catalog, stamp, addon);
        step := Stage(path, at, shipped && copies);
        if !shipped {
          return NotInCatalog, step;
        }
        if !copies {
          return CopyFailed, step;
        }
        disk, manifests := disk[path := at], manifests + {path};
        return Staged(stamp), step;
      }
      step := Stage(Elsewhere(""), at, false);
      if !IsCommit(origin.head) {
        return NoCommit, step;
      }
      var current := origin.head[..12];
      if reviewed != "" && reviewed != current {
        return Changed, step;
      }
      var path := Snapshot(catalog, current, addon);
      if !IsComplete(path) {
        if !copies {
          return CopyFailed, step;
        }
        step := Stage(path, at, true);
        disk, manifests := disk[path := at], if shipped then manifests + {path} else manifests - {path};
        if !shipped {
          return NotInCatalog, step;
        }
      }
      return Staged(current), step;
    }

    /** `prune_snapshots`. An add-on named like a revision is outside its layout. */
    method PruneSnapshots(catalog: string, addon: string, keep: seq<Path>, limit: int) returns (removed: seq<Path>)
      requires InRevisions(disk) && !IsRevision(addon)
      modifies this`disk
      ensures InRevisions(disk)
      ensures Pruned(old(disk), disk, catalog, addon, keep, limit)
      ensures forall p :: p in removed <==> p in old(disk) && p !in disk
    {
      hide Loose, Room, IsCandidate, Pruned, IsSurplus, RemoveTree, IsRevision, SurplusOf, NewestFirst;
      var paths := SortedCandidates(disk, catalog, addon);
      var gone := Surplus(paths, keep, limit);
      var before := disk;
      SurplusIsLoose(before, catalog, addon, keep, limit, paths);
      var i := 0;
      while i < |gone|
        invariant i <= |gone| && disk == before - Elements(gone[..i])
      {
        assert gone[i] in Elements(gone);
        RemovesOne(disk, gone[i]);
        disk := RemoveTree(disk, gone[i]);
        assert Elements(gone[..i + 1]) == Elements(gone[..i]) + {gone[i]};
        i := i + 1;
      }
      assert gone[..|gone|] == gone;
      removed := gone;
      var legacy := Legacy(catalog, addon);
      if legacy in disk && legacy !in keep {
        RemovesOne(disk, legacy);
        disk := RemoveTree(disk, legacy);
        removed := removed + [legacy];
      }
      assert forall p :: p in gone <==> p in Elements(gone);
      PrunedBy(before, disk, catalog, addon, keep, limit, Elements(gone));
    }

    /** `prune_after`. */
    method PruneAfter(catalog: string, addon: string, extra: Option<Path>) returns (removed: seq<Path>)
      requires InRevisions(disk) && !IsRevision(addon)
      modifies this`disk
      ensures InRevisions(disk)
      ensures Does(Prune(extra), old(Now()), Now(), catalog, addon)
      ensures forall p :: p in removed <==> p in old(disk) && p !in disk
    {
      var keep: seq<Path> := [];
      if entry.registered.Some? {
        keep := keep + [entry.registered.value];
      }
      if entry.previous.Some? {
        keep := keep + [entry.previous.value];
      }
      if extra.Some? {
        keep := keep + [extra.value];
      }
      assert keep == Keep(entry, extra);
      removed := PruneSnapshots(catalog, addon, keep, MAX_SNAPSHOTS);
    }
  }
}
