/** Backup schedule, overdue limit and retention (`schedule.py`, `backups.py`). */
module Retention {
  import opened Wrappers

  // Every scheduled run may hand papaia-ctl a retention, and papaia-ctl prunes by it after the
  // run, a failed one included. The last good restore point survives only because two rules
  // fit together: validation forces the retention to twice the longest gap, and a run applies
  // it only while the newest good point is at most one and a half gaps old.
  //
  // Times and spans are whole seconds.

  const DAY: int := 86400
  const MIN_INTERVAL: int := 3600

  // ---------------------------------------------------------------- the catalogue

  /** `taken` is None for a creation time that does not parse. */
  datatype RestorePoint = RestorePoint(id: string, taken: Option<int>, result: string, scope: seq<string>)

  /** A whole-stack backup that finished `ok`: neither a partial nor a scoped one counts. */
  predicate IsGood(p: RestorePoint) {
    p.result == "ok" && p.scope == [] && p.taken.Some?
  }

  /** `newest_successful`: the first of the good points no other one is newer than. */
  function NewestSuccessful(points: seq<RestorePoint>): Option<RestorePoint> {
    if points == [] then None
    else
      var rest := NewestSuccessful(points[1..]);
      if IsGood(points[0]) && (rest.Some? && rest.value.taken.Some? ==> points[0].taken.value >= rest.value.taken.value)
      then Some(points[0])
      else rest
  }

  /** What is chosen finished `ok`, has the whole stack and a time, no such point is newer, and of
      equally new ones it is the first; nothing is chosen only if there is no such point. */
  lemma {:induction false} NewestIsNewest(points: seq<RestorePoint>)
    ensures match NewestSuccessful(points)
            case None => forall p :: p in points ==> p.result != "ok" || p.scope != [] || p.taken.None?
            case Some(n) =>
              && n in points && n.result == "ok" && n.scope == [] && n.taken.Some?
              && (forall p :: p in points && p.result == "ok" && p.scope == [] && p.taken.Some? ==> p.taken.value <= n.taken.value)
              && exists i :: 0 <= i < |points| && points[i] == n && forall j :: 0 <= j < i ==> !IsAsNew(points[j], n)
  {
    if points != [] {
      NewestIsNewest(points[1..]);
      assert points == [points[0]] + points[1..];
      var rest := NewestSuccessful(points[1..]);
      if rest.Some? && NewestSuccessful(points) == rest && NewestSuccessful(points) != Some(points[0]) {
        var n := rest.value;
        var i :| 0 <= i < |points[1..]| && points[1..][i] == n && forall j :: 0 <= j < i ==> !IsAsNew(points[1..][j], n);
        assert points[i + 1] == n;
        assert forall j :: 1 <= j < i + 1 ==> points[j] == points[1..][j - 1];
      }
    }
  }

  ghost predicate IsAsNew(p: RestorePoint, n: RestorePoint) {
    p.result == "ok" && p.scope == [] && p.taken.Some? && (n.taken.Some? ==> p.taken.value >= n.taken.value)
  }

  /** `count_older_than`: what papaia-ctl's retention would delete. */
  function CountOlderThan(points: seq<RestorePoint>, days: int, now: int): nat {
    if points == [] then 0
    else (if IsOlder(points[0], days, now) then 1 else 0) + CountOlderThan(points[1..], days, now)
  }

  /** Strictly older than the cutoff; an entry whose time cannot be read is never old. */
  predicate IsOlder(p: RestorePoint, days: int, now: int) {
    p.taken.Some? && p.taken.value < now - days * DAY
  }

  /** The core's `prune`, by that rule. */
  function Prune(points: seq<RestorePoint>, days: int, now: int): seq<RestorePoint> {
    if points == [] then []
    else (if IsOlder(points[0], days, now) then [] else [points[0]]) + Prune(points[1..], days, now)
  }

  /** Good points taken at `since` or later. */
  function GoodSince(points: seq<RestorePoint>, since: int): nat {
    if points == [] then 0
    else (if IsGood(points[0]) && points[0].taken.value >= since then 1 else 0) + GoodSince(points[1..], since)
  }

  function GoodCount(points: seq<RestorePoint>): nat {
    if points == [] then 0 else (if IsGood(points[0]) then 1 else 0) + GoodCount(points[1..])
  }

  /** The number shown on the page is the number a prune would take. */
  lemma {:induction false} CountIsWhatPruneDeletes(points: seq<RestorePoint>, days: int, now: int)
    ensures |Prune(points, days, now)| + CountOlderThan(points, days, now) == |points|
    ensures multiset(Prune(points, days, now)) <= multiset(points)
  {
    if points != [] {
      CountIsWhatPruneDeletes(points[1..], days, now);
      assert points == [points[0]] + points[1..];
    }
  }

  /** A prune takes exactly the points, good or not, whose time is known and more than the given
      days ago. */
  lemma {:induction false} PruneTakesTheOld(points: seq<RestorePoint>, days: int, now: int, p: RestorePoint)
    ensures multiset(Prune(points, days, now))[p]
            == if p.taken.Some? && p.taken.value + days * 86400 < now then 0 else multiset(points)[p]
  {
    if points != [] {
      PruneTakesTheOld(points[1..], days, now, p);
      assert points == [points[0]] + points[1..];
    }
  }

  lemma {:induction false} PruneKeepsRecentGood(points: seq<RestorePoint>, days: int, now: int)
    ensures GoodCount(Prune(points, days, now)) == GoodSince(points, now - days * DAY)
  {
    if points != [] {
      PruneKeepsRecentGood(points[1..], days, now);
      var rest := Prune(points[1..], days, now);
      assert ([points[0]] + rest)[1..] == rest;
      assert [] + rest == rest;
    }
  }

  lemma {:induction false} GoodSinceShrinks(points: seq<RestorePoint>, since: int, later: int)
    requires since <= later
    ensures GoodSince(points, later) <= GoodSince(points, since) <= GoodCount(points)
  {
    if points != [] {
      GoodSinceShrinks(points[1..], since, later);
    }
  }

  lemma {:induction false} GoodSinceAppend(a: seq<RestorePoint>, b: seq<RestorePoint>, since: int)
    ensures GoodSince(a + b, since) == GoodSince(a, since) + GoodSince(b, since)
    ensures GoodCount(a + b) == GoodCount(a) + GoodCount(b)
  {
    if a == [] {
      assert a + b == b;
    } else {
      GoodSinceAppend(a[1..], b, since);
      assert (a + b)[1..] == a[1..] + b;
    }
  }

  /** There is a good point exactly when there is a newest one, and it counts from its time on. */
  lemma {:induction false} NewestCounts(points: seq<RestorePoint>)
    ensures NewestSuccessful(points).Some? <==> GoodCount(points) > 0
    ensures NewestSuccessful(points).Some? ==>
              NewestSuccessful(points).value.taken.Some? &&
              GoodSince(points, NewestSuccessful(points).value.taken.value) > 0
  {
    NewestIsNewest(points);
    if points != [] {
      NewestCounts(points[1..]);
      NewestIsNewest(points[1..]);
    }
  }

  // ---------------------------------------------------------------- the schedule

  /** A schedule as far as this module asks about it: the gaps of its expression (`Cadence`)
      and its retention. */
  datatype Schedule = Schedule(shortest: int, longest: int, retentionDays: Option<int>)

  function Max(a: int, b: int): int {
    if a >= b then a else b
  }

  function CeilDiv(a: int, b: int): int
    requires b > 0
  {
    -((-a) / b)
  }

  function MinRetentionDays(longest: int): int {
    Max(1, CeilDiv(2 * longest, DAY))
  }

  /** The floor is the least whole number of days, at least one, that covers two longest gaps. */
  lemma MinRetentionIsTwoGaps(longest: int, days: int)
    ensures days >= MinRetentionDays(longest) <==> days >= 1 && days * DAY >= 2 * longest
  {
  }

  datatype ScheduleError = RetentionOutOfRange | TooOften | RetentionTooShort(floor: int)

  /** The validation of `BackupSchedule`. */
  function BuildSchedule(shortest: int, longest: int, retentionDays: Option<int>): Result<Schedule, ScheduleError> {
    if retentionDays.Some? && !(1 <= retentionDays.value <= 3650) then Err(RetentionOutOfRange)
    else if shortest < MIN_INTERVAL then Err(TooOften)
    else if retentionDays.Some? && retentionDays.value < MinRetentionDays(longest)
      then Err(RetentionTooShort(MinRetentionDays(longest)))
    else Ok(Schedule(shortest, longest, retentionDays))
  }

  /** A schedule is accepted if and only if its runs are an hour apart and its retention, if it has
      one, is 1 to 3650 days and covers two longest gaps; and each refusal names what is wrong. */
  lemma AcceptedSchedules(shortest: int, longest: int, retentionDays: Option<int>)
    ensures var r := BuildSchedule(shortest, longest, retentionDays);
            var inRange := retentionDays.Some? ==> 1 <= retentionDays.value <= 3650;
            var longEnough := retentionDays.Some? ==> retentionDays.value * 86400 >= 2 * longest;
            && (r == Ok(Schedule(shortest, longest, retentionDays)) <==> inRange && shortest >= 3600 && longEnough)
            && (r == Err(RetentionOutOfRange) <==> !inRange)
            && (r == Err(TooOften) <==> inRange && shortest < 3600)
            && (r.Err? && r.error.RetentionTooShort? <==> inRange && shortest >= 3600 && !longEnough)
  {
    if retentionDays.Some? {
      MinRetentionIsTwoGaps(longest, retentionDays.value);
    }
  }

  ghost predicate IsValid(s: Schedule) {
    BuildSchedule(s.shortest, s.longest, s.retentionDays) == Ok(s)
  }

  /** Older than `OVERDUE_FACTOR` (1.5) times the longest gap. */
  predicate IsOverdue(s: Schedule, age: int) {
    2 * age > 3 * s.longest
  }

  /** The greatest age that is not overdue. */
  function OverdueLimit(s: Schedule): int {
    3 * s.longest / 2
  }

  function NewestTaken(points: seq<RestorePoint>): Option<int> {
    var newest := NewestSuccessful(points);
    if newest.None? then None else newest.value.taken
  }

  /** `catchup_due`. */
  predicate CatchupDue(s: Schedule, points: seq<RestorePoint>, now: int) {
    var taken := NewestTaken(points);
    taken.None? || IsOverdue(s, now - taken.value)
  }

  datatype Held = NoGoodPoint | GoodPointOverdue

  /** `days` None is no flag at all; `skipped` says why a configured retention is held back. */
  datatype Plan = Plan(days: Option<int>, skipped: Option<Held>)

  /** `plan_retention`. */
  function PlanRetention(s: Schedule, points: seq<RestorePoint>, now: int): Plan {
    if s.retentionDays.None? then Plan(None, None)
    else
      var taken := NewestTaken(points);
      if taken.None? then Plan(None, Some(NoGoodPoint))
      else if IsOverdue(s, now - taken.value) then Plan(None, Some(GoodPointOverdue))
      else Plan(s.retentionDays, None)
  }

  /** One limit behind both questions: a configured retention is held back exactly when a missed
      run would be made up. */
  lemma HeldBackIsCatchupDue(s: Schedule, points: seq<RestorePoint>, now: int)
    ensures s.retentionDays.Some? ==>
              (PlanRetention(s, points, now).skipped.Some? <==> CatchupDue(s, points, now))
    ensures PlanRetention(s, points, now).days.Some? ==>
              PlanRetention(s, points, now).days == s.retentionDays
              && GoodSince(points, now - OverdueLimit(s)) > 0
  {
    NewestCounts(points);
    var newest := NewestSuccessful(points);
    if PlanRetention(s, points, now).days.Some? {
      GoodSinceShrinks(points, now - OverdueLimit(s), newest.value.taken.value);
    }
  }

  /** A good point that is no older than one and a half times the longest gap. */
  ghost predicate IsRecent(s: Schedule, p: RestorePoint, now: int) {
    p.result == "ok" && p.scope == [] && p.taken.Some? && 2 * (now - p.taken.value) <= 3 * s.longest
  }

  /** A run is made up for if and only if no point is recent; a configured retention is handed on
      if and only if one is, and otherwise the reason says whether there is a good point at all. */
  lemma PlannedByAge(s: Schedule, points: seq<RestorePoint>, now: int)
    ensures CatchupDue(s, points, now) <==> forall p :: p in points ==> !IsRecent(s, p, now)
    ensures PlanRetention(s, points, now) == (
              if s.retentionDays.None? then Plan(None, None)
              else if exists p :: p in points && IsRecent(s, p, now) then Plan(s.retentionDays, None)
              else if exists p :: p in points && p.result == "ok" && p.scope == [] && p.taken.Some?
                then Plan(None, Some(GoodPointOverdue))
              else Plan(None, Some(NoGoodPoint)))
  {
    NewestIsNewest(points);
    hide NewestSuccessful;
    var newest := NewestSuccessful(points);
    if newest.Some? {
      assert newest.value in points;
    }
  }

  // ---------------------------------------------------------------- runs

  /** What changes the catalogue: a scheduled run that plans at `now` and is followed by
      papaia-ctl's prune `delay` later, with whatever restore points it made (ok, partial,
      failed, or none at all); or a point that was taken outside the schedule. */
  datatype Step =
    | Scheduled(s: Schedule, now: int, delay: int, made: seq<RestorePoint>)
    | Other(point: RestorePoint)

  function After(points: seq<RestorePoint>, step: Step): seq<RestorePoint> {
    match step
    case Other(point) => points + [point]
    case Scheduled(s, now, delay, made) =>
      var plan := PlanRetention(s, points, now);
      if plan.days.None? then points + made
      else Prune(points + made, plan.days.value, now + delay)
  }

  /** What a step leaves: what was there and what it made, but for what its prune, if the plan was
      to have one, takes. */
  lemma AfterExactly(points: seq<RestorePoint>, step: Step, p: RestorePoint)
    ensures multiset(After(points, step))[p] ==
              match step
              case Other(point) => multiset(points)[p] + multiset{point}[p]
              case Scheduled(s, now, delay, made) =>
                if && s.retentionDays.Some? && (exists q :: q in points && IsRecent(s, q, now))
                   && p.taken.Some? && p.taken.value + s.retentionDays.value * 86400 < now + delay
                then 0 else multiset(points)[p] + multiset(made)[p]
  {
    hide PlanRetention, Prune, IsRecent;
    match step
    case Other(point) =>
    case Scheduled(s, now, delay, made) =>
      PlannedByAge(s, points, now);
      var plan := PlanRetention(s, points, now);
      if plan.days.Some? {
        PruneTakesTheOld(points + made, plan.days.value, now + delay, p);
      }
  }

  function Run(points: seq<RestorePoint>, steps: seq<Step>): seq<RestorePoint>
    decreases |steps|
  {
    if steps == [] then points else Run(After(points, steps[0]), steps[1..])
  }

  /** What is left after a run that pruned: the good points younger than the retention. */
  lemma AfterCounts(points: seq<RestorePoint>, step: Step)
    requires step.Scheduled? && PlanRetention(step.s, points, step.now).days.Some?
    ensures step.s.retentionDays.Some?
    ensures GoodCount(After(points, step))
            == GoodSince(points, step.now + step.delay - step.s.retentionDays.value * DAY)
               + GoodSince(step.made, step.now + step.delay - step.s.retentionDays.value * DAY)
  {
    var days := step.s.retentionDays.value;
    PruneKeepsRecentGood(points + step.made, days, step.now + step.delay);
    GoodSinceAppend(points, step.made, step.now + step.delay - days * DAY);
  }

  /** How long a run may take from its plan to its prune: at most half the longest gap. */
  ghost predicate InTime(step: Step) {
    step.Scheduled? ==> IsValid(step.s) && 2 * step.delay <= step.s.longest
  }

  lemma StepKeepsAGoodPoint(points: seq<RestorePoint>, step: Step)
    requires InTime(step) && GoodCount(points) > 0
    ensures GoodCount(After(points, step)) > 0
  {
    if step.Other? {
      GoodSinceAppend(points, [step.point], 0);
    } else if PlanRetention(step.s, points, step.now).days.None? {
      GoodSinceAppend(points, step.made, 0);
    } else {
      AfterCounts(points, step);
      HeldBackIsCatchupDue(step.s, points, step.now);
      MinRetentionIsTwoGaps(step.s.longest, step.s.retentionDays.value);
      GoodSinceShrinks(points, step.now + step.delay - step.s.retentionDays.value * DAY,
                       step.now - OverdueLimit(step.s));
    }
  }

  /** Over any run of scheduled backups, good or failed, in any order and with the schedule
      changing in between, a catalogue that holds a good restore point always holds one. */
  lemma {:induction false} NeverLosesTheLast(points: seq<RestorePoint>, steps: seq<Step>)
    requires GoodCount(points) > 0 && forall i :: 0 <= i < |steps| ==> InTime(steps[i])
    ensures GoodCount(Run(points, steps)) > 0
    decreases |steps|
  {
    if steps != [] {
      StepKeepsAGoodPoint(points, steps[0]);
      NeverLosesTheLast(After(points, steps[0]), steps[1..]);
    }
  }

  // ---------------------------------------------------------------- exactly how much slack

  /** A catalogue of two good points, the newer one as old as a plan still accepts. */
  function OldPoints(s: Schedule, now: int, gap: int): seq<RestorePoint> {
    [RestorePoint("newer", Some(now - OverdueLimit(s)), "ok", []),
     RestorePoint("older", Some(now - OverdueLimit(s) - gap), "ok", [])]
  }

  ghost predicate KeepsOne(s: Schedule, delay: int, points: seq<RestorePoint>, now: int) {
    GoodCount(points) > 0 ==> GoodCount(After(points, Scheduled(s, now, delay, []))) > 0
  }

  /** Whatever the catalogue and the time, a run that makes nothing keeps the last good point,
      if and only if its prune follows the plan by no more than the retention exceeds the
      overdue limit. */
  lemma PruneDelayLimit(s: Schedule, delay: int)
    requires s.retentionDays.Some?
    ensures (forall points, now :: KeepsOne(s, delay, points, now))
            <==> delay + OverdueLimit(s) <= s.retentionDays.value * DAY
  {
    var kept := s.retentionDays.value * DAY;
    if delay + OverdueLimit(s) <= kept {
      forall points: seq<RestorePoint>, now: int
        ensures KeepsOne(s, delay, points, now)
      {
        var step := Scheduled(s, now, delay, []);
        if GoodCount(points) > 0 && PlanRetention(s, points, now).days.Some? {
          AfterCounts(points, step);
          HeldBackIsCatchupDue(s, points, now);
          GoodSinceShrinks(points, now + delay - kept, now - OverdueLimit(s));
        }
        assert points + [] == points;
      }
    } else {
      var points := OldPoints(s, 0, 0);
      OldPointsCount(s, delay, 0);
      assert !KeepsOne(s, delay, points, 0);
    }
  }

  lemma OldPointsCount(s: Schedule, delay: int, gap: int)
    requires s.retentionDays.Some? && gap >= 0
    ensures var kept := s.retentionDays.value * DAY;
            var points := OldPoints(s, 0, gap);
            && NewestTaken(points) == Some(-OverdueLimit(s))
            && GoodCount(points) == 2 && GoodSince(points, -OverdueLimit(s) - gap) == 2
            && GoodCount(After(points, Scheduled(s, 0, delay, [])))
               == (if delay + OverdueLimit(s) <= kept then 1 else 0)
                  + (if delay + OverdueLimit(s) + gap <= kept then 1 else 0)
  {
    var points := OldPoints(s, 0, gap);
    assert points[1..] == [points[1]] && points[1..][1..] == [];
    assert GoodCount(points[1..]) == 1;
    assert GoodSince(points[1..], -OverdueLimit(s) - gap) == 1;
    assert NewestSuccessful(points[1..]) == Some(points[1]);
    assert NewestSuccessful(points) == Some(points[0]);
    AfterCounts(points, Scheduled(s, 0, delay, []));
  }

  /** Two good points, the older one no more than `gap` older than the newest. */
  predicate TwoWithin(points: seq<RestorePoint>, gap: int) {
    var taken := NewestTaken(points);
    taken.Some? && GoodSince(points, taken.value - gap) >= 2
  }

  ghost predicate KeepsTwo(s: Schedule, delay: int, gap: int, points: seq<RestorePoint>, now: int) {
    TwoWithin(points, gap) ==> GoodCount(After(points, Scheduled(s, now, delay, []))) >= 2
  }

  /** The message of the validation promises two restore points. Two good points at most `gap`
      apart both survive a run that makes nothing, whatever the time, if and only if the
      retention covers the gap on top of the overdue limit and the delay of the prune. */
  lemma TwoPointsLimit(s: Schedule, delay: int, gap: int)
    requires s.retentionDays.Some? && gap >= 0
    ensures (forall points, now :: KeepsTwo(s, delay, gap, points, now))
            <==> gap + delay + OverdueLimit(s) <= s.retentionDays.value * DAY
  {
    var kept := s.retentionDays.value * DAY;
    if gap + delay + OverdueLimit(s) <= kept {
      forall points: seq<RestorePoint>, now: int
        ensures KeepsTwo(s, delay, gap, points, now)
      {
        if TwoWithin(points, gap) {
          var step := Scheduled(s, now, delay, []);
          assert points + [] == points;
          if PlanRetention(s, points, now).days.Some? {
            AfterCounts(points, step);
            GoodSinceShrinks(points, now + delay - kept, NewestTaken(points).value - gap);
          } else {
            GoodSinceShrinks(points, NewestTaken(points).value - gap, NewestTaken(points).value - gap);
          }
        }
      }
    } else {
      OldPointsCount(s, delay, gap);
      assert !KeepsTwo(s, delay, gap, OldPoints(s, 0, gap), 0);
    }
  }

  /** A daily schedule with the shortest retention it accepts, a good point yesterday and one the
      day before, and a run that fails today and prunes a minute after its plan: one good point is
      left. So the shortest retention does not keep two points when a run fails. */
  lemma FailedRunLeavesOne()
    ensures var points := [RestorePoint("a", Some(-DAY), "ok", []), RestorePoint("b", Some(-2 * DAY), "ok", [])];
            var step := Scheduled(Schedule(DAY, DAY, Some(2)), 0, 60, [RestorePoint("c", Some(0), "failed", [])]);
            InTime(step) && GoodCount(points) == 2 && GoodCount(After(points, step)) == 1
  {
    var a, b, c := RestorePoint("a", Some(-DAY), "ok", []), RestorePoint("b", Some(-2 * DAY), "ok", []),
                   RestorePoint("c", Some(0), "failed", []);
    var points := [a, b];
    assert points[1..] == [b] && [b][1..] == [] && [c][1..] == [];
    assert NewestSuccessful([b]) == Some(b) && NewestSuccessful(points) == Some(a);
    assert GoodCount([b]) == 1 && GoodSince([b], 60 - 2 * DAY) == 0 && GoodSince([c], 60 - 2 * DAY) == 0;
    AfterCounts(points, Scheduled(Schedule(DAY, DAY, Some(2)), 0, 60, [c]));
  }

  // ---------------------------------------------------------------- two points over whole runs

  /** A good run that follows any good point, however long after it, leaves at least two. */
  lemma GoodRunsKeepTwo(points: seq<RestorePoint>, step: Step)
    requires step.Scheduled? && InTime(step) && step.s.longest >= 0
    requires GoodCount(points) > 0 && GoodSince(step.made, step.now) > 0
    ensures GoodCount(After(points, step)) >= 2
  {
    hide GoodSince, GoodCount, Prune, NewestSuccessful;
    if PlanRetention(step.s, points, step.now).days.None? {
      GoodSinceAppend(points, step.made, step.now);
      GoodSinceShrinks(step.made, step.now, step.now);
    } else {
      var days := step.s.retentionDays.value;
      var cutoff := step.now + step.delay - days * DAY;
      AfterCounts(points, step);
      HeldBackIsCatchupDue(step.s, points, step.now);
      MinRetentionIsTwoGaps(step.s.longest, days);
      GoodSinceShrinks(points, cutoff, step.now - OverdueLimit(step.s));
      GoodSinceShrinks(step.made, cutoff, step.now);
    }
  }

  lemma {:induction false} RunAppend(points: seq<RestorePoint>, steps: seq<Step>, step: Step)
    ensures Run(points, steps + [step]) == After(Run(points, steps), step)
    decreases |steps|
  {
    hide After;
    if steps != [] {
      RunAppend(After(points, steps[0]), steps[1..], step);
      assert (steps + [step])[1..] == steps[1..] + [step];
    } else {
      assert ([] + [step])[1..] == [];
    }
  }

  /** After every good run of any run of steps in time at least two good points remain, whatever
      came before and however far apart the good runs were. */
  lemma EveryGoodRunLeavesTwo(points: seq<RestorePoint>, steps: seq<Step>, step: Step)
    requires GoodCount(points) > 0 && forall i :: 0 <= i < |steps| ==> InTime(steps[i])
    requires step.Scheduled? && InTime(step) && step.s.longest >= 0 && GoodSince(step.made, step.now) > 0
    ensures GoodCount(Run(points, steps + [step])) >= 2
  {
    hide GoodSince, GoodCount, After;
    NeverLosesTheLast(points, steps);
    RunAppend(points, steps, step);
    GoodRunsKeepTwo(Run(points, steps), step);
  }

  function Made(step: Step): seq<RestorePoint> {
    if step.Scheduled? then step.made else [step.point]
  }

  /** A step of one schedule, pruned at most `delay` after its plan; what it makes that is good, if
      anything, is at most `gap` newer than the newest good point. */
  ghost predicate IsSpacedStep(points: seq<RestorePoint>, step: Step, s: Schedule, delay: int, gap: int) {
    && (step.Scheduled? ==> step.s == s && step.delay <= delay)
    && NewestTaken(points).Some?
    && GoodSince(Made(step), NewestTaken(points).value + gap + 1) == 0
  }

  ghost predicate IsSpaced(points: seq<RestorePoint>, steps: seq<Step>, s: Schedule, delay: int, gap: int)
    decreases |steps|
  {
    steps == [] || (IsSpacedStep(points, steps[0], s, delay, gap) && IsSpaced(After(points, steps[0]), steps[1..], s, delay, gap))
  }

  lemma {:induction false} NoneSince(points: seq<RestorePoint>, since: int)
    ensures GoodSince(points, since) == 0 <==> forall p :: p in points && IsGood(p) ==> p.taken.value < since
  {
    if points != [] {
      NoneSince(points[1..], since);
      assert points == [points[0]] + points[1..];
    }
  }

  lemma NewestByCount(points: seq<RestorePoint>, t: int)
    ensures NewestTaken(points) == Some(t) <==> GoodSince(points, t) > 0 && GoodSince(points, t + 1) == 0
  {
    hide GoodSince, GoodCount, NewestSuccessful;
    NewestCounts(points);
    NewestIsNewest(points);
    GoodSinceShrinks(points, t, t);
    var newest := NewestTaken(points);
    if newest.Some? {
      NoneSince(points, newest.value + 1);
      if newest.value < t {
        GoodSinceShrinks(points, newest.value + 1, t);
      } else if newest.value > t {
        GoodSinceShrinks(points, t + 1, newest.value);
      }
    }
  }

  /** What a step leaves of the good points since a time that its prune does not reach. */
  lemma AfterSince(points: seq<RestorePoint>, step: Step, since: int)
    requires step.Scheduled? && PlanRetention(step.s, points, step.now).days.Some? ==>
               step.s.retentionDays.Some? && step.now + step.delay - step.s.retentionDays.value * DAY <= since
    ensures GoodSince(After(points, step), since) == GoodSince(points, since) + GoodSince(Made(step), since)
  {
    hide GoodSince, Prune, NewestSuccessful, NewestTaken;
    GoodSinceAppend(points, Made(step), since);
    if step.Scheduled? && PlanRetention(step.s, points, step.now).days.Some? {
      PruneKeepsSince(points + step.made, step.s.retentionDays.value, step.now + step.delay, since);
    }
  }

  lemma SpacedStepKeepsTwo(points: seq<RestorePoint>, step: Step, s: Schedule, delay: int, gap: int)
    requires s.retentionDays.Some? && gap >= 0 && gap + delay + OverdueLimit(s) <= s.retentionDays.value * DAY
    requires TwoWithin(points, gap) && IsSpacedStep(points, step, s, delay, gap)
    ensures TwoWithin(After(points, step), gap)
  {
    hide GoodSince, After, NewestSuccessful, NewestTaken;
    var t := NewestTaken(points).value;
    NewestByCount(points, t);
    forall since | since >= t - gap
      ensures GoodSince(After(points, step), since) == GoodSince(points, since) + GoodSince(Made(step), since)
    {
      ReachesNoFurther(points, step, s, delay, gap);
      AfterSince(points, step, since);
    }
    if GoodSince(Made(step), t + 1) == 0 {
      NewestByCount(After(points, step), t);
      assert GoodSince(After(points, step), t - gap) >= 2;
    } else {
      var u := LatestSince(Made(step), t + 1, t + gap + 1);
      GoodSinceShrinks(points, t + 1, u);
      GoodSinceShrinks(points, t + 1, u + 1);
      NewestByCount(After(points, step), u);
      GoodSinceShrinks(points, u - gap, t);
      GoodSinceShrinks(Made(step), u - gap, u);
    }
  }

  /** A prune whose plan went through comes before what lies `gap` before the newest good point. */
  lemma ReachesNoFurther(points: seq<RestorePoint>, step: Step, s: Schedule, delay: int, gap: int)
    requires s.retentionDays.Some? && gap + delay + OverdueLimit(s) <= s.retentionDays.value * DAY
    requires IsSpacedStep(points, step, s, delay, gap)
    ensures step.Scheduled? && PlanRetention(step.s, points, step.now).days.Some? ==>
              step.now + step.delay - s.retentionDays.value * DAY <= NewestTaken(points).value - gap
  {
    hide GoodSince, NewestSuccessful;
  }

  /** The time of the newest good point of some that lie between two times. */
  lemma {:induction false} LatestSince(points: seq<RestorePoint>, from: int, end: int) returns (latest: int)
    requires GoodSince(points, from) > 0 && GoodSince(points, end) == 0
    ensures from <= latest < end && GoodSince(points, latest) > 0 && GoodSince(points, latest + 1) == 0
    decreases end - from
  {
    hide GoodSince;
    if from >= end {
      GoodSinceShrinks(points, end, from);
    }
    if GoodSince(points, from + 1) == 0 {
      latest := from;
    } else {
      latest := LatestSince(points, from + 1, end);
    }
  }

  lemma {:induction false} SpacedRunKeepsTwo(points: seq<RestorePoint>, steps: seq<Step>, s: Schedule, delay: int, gap: int)
    requires s.retentionDays.Some? && gap >= 0 && gap + delay + OverdueLimit(s) <= s.retentionDays.value * DAY
    requires TwoWithin(points, gap) && IsSpaced(points, steps, s, delay, gap)
    ensures TwoWithin(Run(points, steps), gap)
    decreases |steps|
  {
    hide TwoWithin, IsSpacedStep, After;
    if steps != [] {
      SpacedStepKeepsTwo(points, steps[0], s, delay, gap);
      SpacedRunKeepsTwo(After(points, steps[0]), steps[1..], s, delay, gap);
    }
  }

  ghost predicate AlwaysTwo(points: seq<RestorePoint>, steps: seq<Step>, s: Schedule, delay: int, gap: int) {
    TwoWithin(points, gap) && IsSpaced(points, steps, s, delay, gap) ==> GoodCount(Run(points, steps)) >= 2
  }

  /** Over whole runs of good, failed and other backups in which good points come at most `gap`
      apart, two of them remain if and only if the retention covers the gap on top of the overdue
      limit and the greatest delay of a prune. */
  lemma TwoPointsOverRuns(s: Schedule, delay: int, gap: int)
    requires s.retentionDays.Some? && gap >= 0
    ensures (forall points, steps :: AlwaysTwo(points, steps, s, delay, gap))
            <==> gap + delay + OverdueLimit(s) <= s.retentionDays.value * DAY
  {
    hide IsSpacedStep, TwoWithin;
    if gap + delay + OverdueLimit(s) <= s.retentionDays.value * DAY {
      forall points: seq<RestorePoint>, steps: seq<Step>
        ensures AlwaysTwo(points, steps, s, delay, gap)
      {
        if TwoWithin(points, gap) && IsSpaced(points, steps, s, delay, gap) {
          SpacedRunKeepsTwo(points, steps, s, delay, gap);
          TwoAreTwo(Run(points, steps), gap);
        }
      }
    } else {
      OneFailedStep(s, delay, gap);
      assert !AlwaysTwo(OldPoints(s, 0, gap), [Scheduled(s, 0, delay, [])], s, delay, gap);
    }
  }

  lemma TwoAreTwo(points: seq<RestorePoint>, gap: int)
    requires TwoWithin(points, gap)
    ensures GoodCount(points) >= 2
  {
    hide GoodSince, GoodCount;
    var since := NewestTaken(points).value - gap;
    GoodSinceShrinks(points, since, since);
  }

  lemma OneFailedStep(s: Schedule, delay: int, gap: int)
    requires s.retentionDays.Some? && gap >= 0 && gap + delay + OverdueLimit(s) > s.retentionDays.value * DAY
    ensures var points, steps := OldPoints(s, 0, gap), [Scheduled(s, 0, delay, [])];
            TwoWithin(points, gap) && IsSpaced(points, steps, s, delay, gap) && GoodCount(Run(points, steps)) < 2
  {
    var points, step := OldPoints(s, 0, gap), Scheduled(s, 0, delay, []);
    OldPointsCount(s, delay, gap);
    hide NewestSuccessful, OldPoints;
    assert [step][1..] == [];
    assert Run(After(points, step), []) == After(points, step);
  }

  lemma {:induction false} PruneKeepsSince(points: seq<RestorePoint>, days: int, now: int, since: int)
    requires now - days * DAY <= since
    ensures GoodSince(Prune(points, days, now), since) == GoodSince(points, since)
  {
    if points != [] {
      PruneKeepsSince(points[1..], days, now, since);
      var rest := Prune(points[1..], days, now);
      assert ([points[0]] + rest)[1..] == rest;
      assert [] + rest == rest;
    }
  }
}
