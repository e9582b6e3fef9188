/** What installed.yaml says about an add-on across upgrades and rollbacks
    (`addon_upgrades.py`, `snapshots.py`). */
module AddonHistory {
  import opened Wrappers

  const MAX_SNAPSHOTS: nat := 3

  datatype HistoryEntry = HistoryEntry(commit: string, version: string, installedAt: int)

  datatype Installed = Installed(commit: string, version: string, installedAt: int, history: seq<HistoryEntry>)

  function Take<T>(s: seq<T>, n: nat): seq<T> {
    if |s| <= n then s else s[..n]
  }

  /** `next_history`: the version that is replaced goes to the front, unless the same commit is
      installed again. */
  function NextHistory(inst: Installed, newCommit: string): seq<HistoryEntry> {
    if inst.commit == newCommit then inst.history
    else Take([HistoryEntry(inst.commit, inst.version, inst.installedAt)] + inst.history, MAX_SNAPSHOTS)
  }

  /** `sync_installed_after_upgrade`, once papaia-ctl registered the staged directory. */
  function AfterUpgrade(inst: Installed, commit: string, version: string, now: int): Installed {
    Installed(commit, version, now, Take(NextHistory(inst, commit), MAX_SNAPSHOTS))
  }

  /** The first entry of a version, if there is one. */
  function FirstOf(history: seq<HistoryEntry>, version: string): (at: Option<nat>)
    ensures at.Some? ==> at.value < |history|
  {
    if history == [] then None
    else if history[0].version == version then Some(0)
    else
      var later := FirstOf(history[1..], version);
      if later.None? then None else Some(later.value + 1)
  }

  lemma {:induction false} FirstOfIsFirst(history: seq<HistoryEntry>, version: string)
    ensures match FirstOf(history, version)
            case None => forall h :: h in history ==> h.version != version
            case Some(i) => i < |history| && history[i].version == version && forall k :: 0 <= k < i ==> history[k].version != version
  {
    if history != [] {
      FirstOfIsFirst(history[1..], version);
      assert history == [history[0]] + history[1..];
    }
  }

  /** `sync_installed_after_rollback` to a directory of `version`: the commit is the one of the
      first entry of that version, which is taken out of the history. */
  function AfterRollback(inst: Installed, version: string, now: int): Installed {
    FirstOfIsFirst(inst.history, version);
    var at := FirstOf(inst.history, version);
    if at.None? then Installed("unknown", version, now, Take(inst.history, MAX_SNAPSHOTS))
    else
      Installed(inst.history[at.value].commit, version, now,
                Take(inst.history[..at.value] + inst.history[at.value + 1..], MAX_SNAPSHOTS))
  }

  /** What installed.yaml holds: `record_installed` cuts the history. */
  ghost predicate IsRecord(inst: Installed) {
    |inst.history| <= MAX_SNAPSHOTS
  }

  lemma RecordsStayRecords(inst: Installed, commit: string, version: string, now: int)
    ensures IsRecord(AfterUpgrade(inst, commit, version, now)) && IsRecord(AfterRollback(inst, version, now))
  {
  }

  /** After an upgrade to another commit the replaced version is first, and of those before it the
      newest two follow; the same commit again leaves the history as it is. */
  lemma UpgradeIsRecorded(inst: Installed, commit: string, version: string, now: int)
    requires IsRecord(inst)
    ensures var up := AfterUpgrade(inst, commit, version, now);
            && up.commit == commit && up.version == version && up.installedAt == now
            && if commit == inst.commit then up.history == inst.history
               else && |up.history| == (if |inst.history| < 3 then |inst.history| + 1 else 3)
                    && up.history[0] == HistoryEntry(inst.commit, inst.version, inst.installedAt)
                    && forall k :: 1 <= k < |up.history| ==> up.history[k] == inst.history[k - 1]
  {
  }

  /** A rollback takes the first entry of the version, and nothing else, out of the history and its
      commit with it; without one the commit is unknown and the history stays. */
  lemma RollbackTakesTheEntry(inst: Installed, version: string, now: int)
    requires IsRecord(inst)
    ensures var back := AfterRollback(inst, version, now);
            && back.version == version && back.installedAt == now
            && ((forall h :: h in inst.history ==> h.version != version) ==>
                  back.commit == "unknown" && back.history == inst.history)
            && forall i :: 0 <= i < |inst.history| && inst.history[i].version == version
                           && (forall k :: 0 <= k < i ==> inst.history[k].version != version) ==>
                 && back.commit == inst.history[i].commit && |back.history| == |inst.history| - 1
                 && forall k :: 0 <= k < |back.history| ==> back.history[k] == inst.history[if k < i then k else k + 1]
  {
    FirstOfIsFirst(inst.history, version);
  }

  ghost predicate Undone(before: Installed, after: Installed) {
    after.commit == before.commit && after.version == before.version && Take(after.history, 2) == Take(before.history, 2)
  }

  /** An upgrade to another commit and a rollback restore commit, version and the first two
      entries of the history; of the third only the length of the list can tell. */
  lemma RollbackUndoesUpgrade(inst: Installed, commit: string, version: string, at: int, later: int)
    requires IsRecord(inst) && inst.commit != commit
    ensures var back := AfterRollback(AfterUpgrade(inst, commit, version, at), inst.version, later);
            Undone(inst, back) && back.history == Take(inst.history, 2)
  {
    var up := AfterUpgrade(inst, commit, version, at);
    assert up.history[0] == HistoryEntry(inst.commit, inst.version, inst.installedAt);
    assert FirstOf(up.history, inst.version) == Some(0);
    assert up.history[..0] + up.history[1..] == up.history[1..];
  }

  /** A local catalog records every commit as `local`, so an upgrade leaves no entry behind. Then
      a rollback finds the installed commit again if and only if the history happens to hold the
      installed version, first with that commit -- or it is the word for an unknown one. */
  lemma RollbackOfSameCommit(inst: Installed, version: string, at: int, later: int)
    requires IsRecord(inst)
    ensures var back := AfterRollback(AfterUpgrade(inst, inst.commit, version, at), inst.version, later);
            var found := FirstOf(inst.history, inst.version);
            && back.version == inst.version
            && (back.commit == inst.commit <==>
                  if found.None? then inst.commit == "unknown" else inst.history[found.value].commit == inst.commit)
            && (found.Some? ==> |back.history| == |inst.history| - 1)
  {
    FirstOfIsFirst(inst.history, inst.version);
  }

  /** A local add-on without a history comes back with an unknown commit. */
  lemma LocalRollbackForgets()
    ensures var inst := Installed("local", "1.0.0", 0, []);
            AfterRollback(AfterUpgrade(inst, "local", "1.1.0", 1), "1.0.0", 2) == Installed("unknown", "1.0.0", 2, [])
  {
  }
}
