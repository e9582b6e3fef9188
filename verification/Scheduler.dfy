/** The backup scheduler (`scheduler.py`): when a run is started, retried and given up. */
module Scheduler {
  import opened Wrappers

  // A slot that comes due, or a run made up after a start, begins a chain of attempts. Each
  // attempt reads the world once and then starts a backup, plans the next attempt, or stops.
  // Reading takes time: the attempts of different chains can be in flight together, and the
  // schedule can be replaced meanwhile. Times are whole seconds.

  const CATCHUP_DELAY: int := 120
  const RETRY_DELAY: int := 600
  const MAX_ATTEMPTS: int := 6
  const MIN_INTERVAL: int := 3600

  /** What one attempt finds: an enabled schedule, a reachable backup directory, a restore or
      upgrade that runs, and a job in the queue. */
  datatype Reading = Reading(enabled: bool, reachable: bool, runner: bool, jobActive: bool)

  datatype Outcome = Started | Retry | GaveUp | Disabled

  /** An attempt that is planned for `due`. `chain` numbers the slot or catch-up it belongs to
      and `since` is when that chain made its first attempt, or was planned to. */
  datatype Pending = Pending(chain: nat, attempt: int, due: int, since: int)

  datatype Flight = Flight(chain: nat, attempt: int, firedAt: int, since: int)

  datatype Firing = Firing(flight: Flight, reading: Reading, outcome: Outcome)

  /** The job store -- the slot job, at most one retry and at most one catch-up, each under an
      id of its own -- and what happened so far. */
  datatype State = State(slot: bool, retry: Option<Pending>, catchup: Option<Pending>,
                         flights: seq<Flight>, history: seq<Firing>, chains: nat)

  const INITIAL: State := State(false, None, None, [], [], 0)

  // ---------------------------------------------------------------- one step

  predicate CanStart(r: Reading) {
    r.enabled && r.reachable && !r.runner && !r.jobActive
  }

  /** `fire` and `_skip`: what an attempt comes to. */
  function Decide(attempt: int, r: Reading): Outcome {
    if !r.enabled then Disabled
    else if CanStart(r) then Started
    else if attempt >= MAX_ATTEMPTS then GaveUp
    else Retry
  }

  /** `apply`: whatever is still pending belongs to the schedule that is replaced. */
  function Applied(st: State, enabled: bool): State {
    st.(slot := enabled, retry := None, catchup := None)
  }

  /** `_schedule_catchup`, once it was found that a run was missed. */
  function CatchupPlanned(st: State, now: int): State {
    st.(catchup := Some(Pending(st.chains, 1, now + CATCHUP_DELAY, now + CATCHUP_DELAY)), chains := st.chains + 1)
  }

  function SlotFired(st: State, now: int): State {
    st.(flights := st.flights + [Flight(st.chains, 1, now, now)], chains := st.chains + 1)
  }

  function InFlight(p: Pending, now: int): Flight {
    Flight(p.chain, p.attempt, now, p.since)
  }

  /** A job with a date is gone from the store when it fires. */
  function RetryFired(st: State, now: int): State
    requires st.retry.Some?
  {
    st.(retry := None, flights := st.flights + [InFlight(st.retry.value, now)])
  }

  function CatchupFired(st: State, now: int): State
    requires st.catchup.Some?
  {
    st.(catchup := None, flights := st.flights + [InFlight(st.catchup.value, now)])
  }

  /** The attempt `i` in flight ends: a retry replaces whatever retry was pending. */
  function Finished(st: State, i: nat, r: Reading, now: int): State
    requires i < |st.flights|
  {
    var flight := st.flights[i];
    var outcome := Decide(flight.attempt, r);
    st.(flights := st.flights[..i] + st.flights[i + 1..],
        history := st.history + [Firing(flight, r, outcome)],
        retry := if outcome.Retry?
                 then Some(Pending(flight.chain, flight.attempt + 1, now + RETRY_DELAY, flight.since))
                 else st.retry)
  }

  datatype Event =
    | Apply(enabled: bool)
    | PlanCatchup(now: int)
    | FireSlot(now: int)
    | FireRetry(now: int)
    | FireCatchup(now: int)
    | MissRetry        // later than its misfire grace: dropped
    | MissCatchup
    | Finish(i: nat, reading: Reading, now: int)

  /** Which events can happen: a job fires when it is in the store and not before it is due. */
  predicate Possible(st: State, e: Event) {
    match e
    case Apply(_) => true
    case PlanCatchup(_) => st.catchup.None?
    case FireSlot(_) => st.slot
    case FireRetry(now) => st.retry.Some? && st.retry.value.due <= now
    case FireCatchup(now) => st.catchup.Some? && st.catchup.value.due <= now
    case MissRetry => st.retry.Some?
    case MissCatchup => st.catchup.Some?
    case Finish(i, _, now) => i < |st.flights| && st.flights[i].firedAt <= now
  }

  function Next(st: State, e: Event): State
    requires Possible(st, e)
  {
    match e
    case Apply(enabled) => Applied(st, enabled)
    case PlanCatchup(now) => CatchupPlanned(st, now)
    case FireSlot(now) => SlotFired(st, now)
    case FireRetry(now) => RetryFired(st, now)
    case FireCatchup(now) => CatchupFired(st, now)
    case MissRetry => st.(retry := None)
    case MissCatchup => st.(catchup := None)
    case Finish(i, reading, now) => Finished(st, i, reading, now)
  }

  ghost predicate IsRun(states: seq<State>, events: seq<Event>) {
    && |states| == |events| + 1 && states[0] == INITIAL
    && forall k :: 0 <= k < |events| ==> Possible(states[k], events[k]) && states[k + 1] == Next(states[k], events[k])
  }

  // ---------------------------------------------------------------- what every run keeps

  /** A chain is alive while one of its attempts is pending or in flight. */
  predicate RetryOf(st: State, chain: nat) {
    st.retry.Some? && st.retry.value.chain == chain
  }

  predicate CatchupOf(st: State, chain: nat) {
    st.catchup.Some? && st.catchup.value.chain == chain
  }

  /** An attempt comes no earlier than its place in the chain says. */
  predicate NotEarly(attempt: int, at: int, since: int) {
    at >= since + (attempt - 1) * RETRY_DELAY
  }

  ghost predicate Bounds(st: State) {
    && (st.retry.Some? ==> 2 <= st.retry.value.attempt <= MAX_ATTEMPTS && st.retry.value.chain < st.chains
                           && NotEarly(st.retry.value.attempt, st.retry.value.due, st.retry.value.since))
    && (st.catchup.Some? ==> st.catchup.value.attempt == 1 && st.catchup.value.chain < st.chains
                             && NotEarly(1, st.catchup.value.due, st.catchup.value.since))
    && (forall i :: 0 <= i < |st.flights| ==>
          1 <= st.flights[i].attempt <= MAX_ATTEMPTS && st.flights[i].chain < st.chains
          && NotEarly(st.flights[i].attempt, st.flights[i].firedAt, st.flights[i].since))
    && (forall h :: 0 <= h < |st.history| ==>
          1 <= st.history[h].flight.attempt <= MAX_ATTEMPTS && st.history[h].flight.chain < st.chains
          && NotEarly(st.history[h].flight.attempt, st.history[h].flight.firedAt, st.history[h].flight.since)
          && st.history[h].outcome == Decide(st.history[h].flight.attempt, st.history[h].reading))
  }

  /** No chain has two attempts pending or in flight. */
  ghost predicate OneAttemptAlive(st: State) {
    && (st.retry.Some? && st.catchup.Some? ==> st.retry.value.chain != st.catchup.value.chain)
    && (forall i :: 0 <= i < |st.flights| ==>
          !RetryOf(st, st.flights[i].chain) && !CatchupOf(st, st.flights[i].chain))
    && (forall i, j :: 0 <= i < j < |st.flights| ==> st.flights[i].chain != st.flights[j].chain)
  }

  /** The finished attempts of a chain are numbered upwards, an attempt that is pending or in
      flight comes after all of them, and a chain is not alive after it has ended. */
  ghost predicate ChainsMoveOn(st: State) {
    && (forall h, i :: 0 <= h < |st.history| && 0 <= i < |st.flights| && st.history[h].flight.chain == st.flights[i].chain
          ==> st.history[h].flight.attempt < st.flights[i].attempt && st.history[h].outcome.Retry?
              && st.history[h].flight.since == st.flights[i].since)
    && (forall h :: 0 <= h < |st.history| && RetryOf(st, st.history[h].flight.chain)
          ==> st.history[h].flight.attempt < st.retry.value.attempt && st.history[h].outcome.Retry?
              && st.history[h].flight.since == st.retry.value.since)
    && (forall h :: 0 <= h < |st.history| ==> !CatchupOf(st, st.history[h].flight.chain))
    && (forall g, h :: 0 <= g < h < |st.history| && st.history[g].flight.chain == st.history[h].flight.chain
          ==> st.history[g].flight.attempt < st.history[h].flight.attempt && st.history[g].outcome.Retry?
              && st.history[g].flight.since == st.history[h].flight.since)
  }

  ghost predicate Invariant(st: State) {
    Bounds(st) && OneAttemptAlive(st) && ChainsMoveOn(st)
  }

  lemma FinishKeepsBounds(st: State, i: nat, r: Reading, now: int)
    requires Bounds(st) && Possible(st, Finish(i, r, now))
    ensures Bounds(Finished(st, i, r, now))
  {
    var st' := Finished(st, i, r, now);
    assert forall k :: 0 <= k < |st'.flights| ==> st'.flights[k] == st.flights[if k < i then k else k + 1];
  }

  lemma FinishKeepsOneAlive(st: State, i: nat, r: Reading, now: int)
    requires OneAttemptAlive(st) && Possible(st, Finish(i, r, now))
    requires st.catchup.Some? ==> st.catchup.value.chain != st.flights[i].chain
    ensures OneAttemptAlive(Finished(st, i, r, now))
  {
    var st' := Finished(st, i, r, now);
    assert forall k :: 0 <= k < |st'.flights| ==> st'.flights[k] == st.flights[if k < i then k else k + 1];
  }

  lemma FinishKeepsMovingOn(st: State, i: nat, r: Reading, now: int)
    requires Invariant(st) && Possible(st, Finish(i, r, now))
    ensures ChainsMoveOn(Finished(st, i, r, now))
  {
    var st' := Finished(st, i, r, now);
    assert forall k :: 0 <= k < |st'.flights| ==> st'.flights[k] == st.flights[if k < i then k else k + 1];
    assert forall h :: 0 <= h < |st.history| ==> st'.history[h] == st.history[h];
    assert st'.history[|st.history|].flight == st.flights[i];
  }

  /** Pending attempts go without firing, or a catch-up of a new chain is planned. */
  ghost predicate OnlyStore(st: State, st': State) {
    && st'.flights == st.flights && st'.history == st.history && st.chains <= st'.chains
    && (st'.retry == st.retry || st'.retry == None)
    && (|| st'.catchup == st.catchup || st'.catchup == None
        || (st'.catchup.Some? && st'.catchup.value.attempt == 1 && st'.catchup.value.due >= st'.catchup.value.since
            && st.chains <= st'.catchup.value.chain < st'.chains))
  }

  lemma StoreKeepsBounds(st: State, st': State)
    requires Bounds(st) && OnlyStore(st, st')
    ensures Bounds(st')
  {
  }

  lemma StoreKeepsOneAlive(st: State, st': State)
    requires Bounds(st) && OneAttemptAlive(st) && OnlyStore(st, st')
    ensures OneAttemptAlive(st')
  {
  }

  lemma StoreKeepsMovingOn(st: State, st': State)
    requires Bounds(st) && ChainsMoveOn(st) && OnlyStore(st, st')
    ensures ChainsMoveOn(st')
  {
  }

  lemma StoreKeepsInvariant(st: State, st': State)
    requires Invariant(st) && OnlyStore(st, st')
    ensures Invariant(st')
  {
    hide Bounds, OneAttemptAlive, ChainsMoveOn, OnlyStore;
    StoreKeepsBounds(st, st');
    StoreKeepsOneAlive(st, st');
    StoreKeepsMovingOn(st, st');
  }

  /** A new attempt in flight, of a chain that is not alive otherwise. */
  ghost predicate FiresNext(st: State, st': State, flight: Flight) {
    && st'.flights == st.flights + [flight] && st'.history == st.history && st.chains <= st'.chains
    && (st'.retry == st.retry || st'.retry == None)
    && (st'.catchup == st.catchup || st'.catchup == None)
    && 1 <= flight.attempt <= MAX_ATTEMPTS && flight.chain < st'.chains
    && NotEarly(flight.attempt, flight.firedAt, flight.since)
    && !RetryOf(st', flight.chain) && !CatchupOf(st', flight.chain)
    && (forall i :: 0 <= i < |st.flights| ==> st.flights[i].chain != flight.chain)
    && (forall h :: 0 <= h < |st.history| && st.history[h].flight.chain == flight.chain ==>
          st.history[h].flight.attempt < flight.attempt && st.history[h].outcome.Retry?
          && st.history[h].flight.since == flight.since)
  }

  lemma FireKeepsBounds(st: State, st': State, flight: Flight)
    requires Bounds(st) && FiresNext(st, st', flight)
    ensures Bounds(st')
  {
  }

  lemma FireKeepsOneAlive(st: State, st': State, flight: Flight)
    requires OneAttemptAlive(st) && FiresNext(st, st', flight)
    ensures OneAttemptAlive(st')
  {
  }

  lemma FireKeepsMovingOn(st: State, st': State, flight: Flight)
    requires ChainsMoveOn(st) && FiresNext(st, st', flight)
    ensures ChainsMoveOn(st')
  {
  }

  lemma FireKeepsInvariant(st: State, st': State, flight: Flight)
    requires Invariant(st) && FiresNext(st, st', flight)
    ensures Invariant(st')
  {
    FireKeepsBounds(st, st', flight);
    FireKeepsOneAlive(st, st', flight);
    FireKeepsMovingOn(st, st', flight);
  }

  lemma FinishKeepsInvariant(st: State, i: nat, r: Reading, now: int)
    requires Invariant(st) && Possible(st, Finish(i, r, now))
    ensures Invariant(Finished(st, i, r, now))
  {
    assert !CatchupOf(st, st.flights[i].chain);
    FinishKeepsBounds(st, i, r, now);
    FinishKeepsOneAlive(st, i, r, now);
    FinishKeepsMovingOn(st, i, r, now);
  }

  lemma StepKeepsInvariant(st: State, e: Event)
    requires Invariant(st) && Possible(st, e)
    ensures Invariant(Next(st, e))
  {
    match e
    case Finish(i, r, now) => FinishKeepsInvariant(st, i, r, now);
    case FireRetry(now) => RetryFiresNext(st, now);
    case FireCatchup(now) => CatchupFiresNext(st, now);
    case FireSlot(now) => SlotFiresNext(st, now);
    case _ => StoreKeepsInvariant(st, Next(st, e));
  }

  lemma RetryFiresNext(st: State, now: int)
    requires Invariant(st) && Possible(st, FireRetry(now))
    ensures Invariant(RetryFired(st, now))
  {
    var flight := InFlight(st.retry.value, now);
    assert FiresNext(st, RetryFired(st, now), flight);
    FireKeepsInvariant(st, RetryFired(st, now), flight);
  }

  lemma CatchupFiresNext(st: State, now: int)
    requires Invariant(st) && Possible(st, FireCatchup(now))
    ensures Invariant(CatchupFired(st, now))
  {
    var flight := InFlight(st.catchup.value, now);
    assert FiresNext(st, CatchupFired(st, now), flight);
    FireKeepsInvariant(st, CatchupFired(st, now), flight);
  }

  lemma SlotFiresNext(st: State, now: int)
    requires Invariant(st)
    ensures Invariant(SlotFired(st, now))
  {
    FireKeepsInvariant(st, SlotFired(st, now), Flight(st.chains, 1, now, now));
  }

  lemma {:induction false} RunKeepsInvariant(states: seq<State>, events: seq<Event>, k: nat)
    requires IsRun(states, events) && k <= |events|
    ensures Invariant(states[k])
  {
    if k > 0 {
      RunKeepsInvariant(states, events, k - 1);
      StepKeepsInvariant(states[k - 1], events[k - 1]);
    }
  }

  // ---------------------------------------------------------------- ten minutes in between

  /** Between any two attempts of a chain lie at least ten minutes: those that were made, and the
      one that is pending or in flight after them. */
  ghost predicate Spaced(st: State) {
    && (forall h :: 0 <= h < |st.history| && RetryOf(st, st.history[h].flight.chain) ==>
          st.retry.value.due >= st.history[h].flight.firedAt + RETRY_DELAY)
    && (forall h, i :: 0 <= h < |st.history| && 0 <= i < |st.flights| && st.history[h].flight.chain == st.flights[i].chain
          ==> st.flights[i].firedAt >= st.history[h].flight.firedAt + RETRY_DELAY)
    && (forall g, h :: 0 <= g < h < |st.history| && st.history[g].flight.chain == st.history[h].flight.chain
          ==> st.history[h].flight.firedAt >= st.history[g].flight.firedAt + RETRY_DELAY)
  }

  lemma FinishKeepsSpaced(st: State, i: nat, r: Reading, now: int)
    requires OneAttemptAlive(st) && Spaced(st) && Possible(st, Finish(i, r, now))
    ensures Spaced(Finished(st, i, r, now))
  {
    var st' := Finished(st, i, r, now);
    assert forall k :: 0 <= k < |st'.flights| ==> st'.flights[k] == st.flights[if k < i then k else k + 1];
    assert forall h :: 0 <= h < |st.history| ==> st'.history[h] == st.history[h];
    assert st'.history[|st.history|].flight == st.flights[i];
  }

  /** A new flight, at least ten minutes after what its chain has made. */
  lemma FireKeepsSpaced(st: State, st': State, flight: Flight)
    requires Spaced(st) && st'.flights == st.flights + [flight] && st'.history == st.history
    requires st'.retry == st.retry || st'.retry == None
    requires forall h :: 0 <= h < |st.history| && st.history[h].flight.chain == flight.chain ==>
               flight.firedAt >= st.history[h].flight.firedAt + RETRY_DELAY
    ensures Spaced(st')
  {
  }

  lemma StepKeepsSpaced(st: State, e: Event)
    requires Invariant(st) && Spaced(st) && Possible(st, e)
    ensures Spaced(Next(st, e))
  {
    hide Spaced;
    match e
    case Finish(i, r, now) => FinishKeepsSpaced(st, i, r, now);
    case FireRetry(now) =>
      PendingIsSpaced(st);
      FireKeepsSpaced(st, RetryFired(st, now), InFlight(st.retry.value, now));
    case FireCatchup(now) => FireKeepsSpaced(st, CatchupFired(st, now), InFlight(st.catchup.value, now));
    case FireSlot(now) => FireKeepsSpaced(st, SlotFired(st, now), Flight(st.chains, 1, now, now));
    case _ => StoreKeepsSpaced(st, Next(st, e));
  }

  lemma PendingIsSpaced(st: State)
    requires Spaced(st)
    ensures forall h :: 0 <= h < |st.history| && RetryOf(st, st.history[h].flight.chain) ==>
              st.retry.value.due >= st.history[h].flight.firedAt + RETRY_DELAY
  {
  }

  lemma StoreKeepsSpaced(st: State, st': State)
    requires Spaced(st) && st'.flights == st.flights && st'.history == st.history
    requires st'.retry == st.retry || st'.retry == None
    ensures Spaced(st')
  {
  }

  lemma {:induction false} RunKeepsSpaced(states: seq<State>, events: seq<Event>, k: nat)
    requires IsRun(states, events) && k <= |events|
    ensures Spaced(states[k])
  {
    hide Invariant, Next, Possible;
    if k > 0 {
      RunKeepsSpaced(states, events, k - 1);
      RunKeepsInvariant(states, events, k - 1);
      hide Spaced;
      StepKeepsSpaced(states[k - 1], events[k - 1]);
    }
  }

  /** Over every run, whatever is in flight together and whenever the schedule is replaced: a
      chain starts at most one backup, and makes nothing of an attempt after that; it makes at
      most six attempts, each no sooner than ten minutes after the one before, so the last at
      least fifty minutes after the first; a pending retry is the second to the sixth attempt;
      and a backup was started if and only if that attempt read an enabled schedule, a reachable
      directory, no runner and an idle queue. */
  lemma EveryRun(states: seq<State>, events: seq<Event>, k: nat)
    requires IsRun(states, events) && k <= |events|
    ensures var st := states[k];
            && (st.retry.Some? ==> 2 <= st.retry.value.attempt <= MAX_ATTEMPTS)
            && (forall h :: 0 <= h < |st.history| ==>
                  1 <= st.history[h].flight.attempt <= MAX_ATTEMPTS
                  && ComesTo(st.history[h].flight.attempt, st.history[h].reading, st.history[h].outcome))
            && (forall g, h :: 0 <= g < h < |st.history| && st.history[g].flight.chain == st.history[h].flight.chain
                  ==> !st.history[g].outcome.Started?
                      && st.history[g].flight.attempt < st.history[h].flight.attempt
                      && st.history[h].flight.firedAt >= st.history[g].flight.firedAt + RETRY_DELAY)
            && (forall h :: 0 <= h < |st.history| ==>
                  st.history[h].flight.firedAt >= st.history[h].flight.since + (st.history[h].flight.attempt - 1) * RETRY_DELAY)
  {
    RunKeepsInvariant(states, events, k);
    RunKeepsSpaced(states, events, k);
  }

  // ---------------------------------------------------------------- every attempt, from the events

  /** What an attempt has to come to, by what it found. */
  ghost predicate ComesTo(attempt: int, r: Reading, outcome: Outcome) {
    && (outcome.Disabled? <==> !r.enabled)
    && (outcome.Started? <==> r.enabled && r.reachable && !r.runner && !r.jobActive)
    && (outcome.GaveUp? <==> r.enabled && (!r.reachable || r.runner || r.jobActive) && attempt >= 6)
  }

  /** The event starts this attempt: the slot a first one, a pending job the one it was planned as. */
  ghost predicate Fires(e: Event, st: State, flight: Flight) {
    match e
    case FireSlot(now) => flight.attempt == 1 && flight.firedAt == now && flight.since == now
    case FireRetry(now) =>
      st.retry.Some? && flight == Flight(st.retry.value.chain, st.retry.value.attempt, now, st.retry.value.since)
    case FireCatchup(now) =>
      st.catchup.Some? && flight == Flight(st.catchup.value.chain, st.catchup.value.attempt, now, st.catchup.value.since)
    case _ => false
  }

  /** The event ends this attempt with these readings and this outcome, and plans the next one ten
      minutes later if there is to be one. */
  ghost predicate Ends(e: Event, st: State, st': State, done: Firing) {
    && e.Finish? && e.i < |st.flights| && st.flights[e.i] == done.flight && e.reading == done.reading
    && ComesTo(done.flight.attempt, done.reading, done.outcome)
    && st'.retry == if done.outcome.Retry?
                    then Some(Pending(done.flight.chain, done.flight.attempt + 1, e.now + 600, done.flight.since))
                    else st.retry
  }

  ghost predicate WasFired(states: seq<State>, events: seq<Event>, k: nat, flight: Flight)
    requires IsRun(states, events) && k <= |events|
  {
    exists f :: 0 <= f < k && Fires(events[f], states[f], flight)
  }

  ghost predicate HasEnded(states: seq<State>, events: seq<Event>, k: nat, done: Firing)
    requires IsRun(states, events) && k <= |events|
  {
    exists e :: 0 <= e < k && Ends(events[e], states[e], states[e + 1], done)
  }

  lemma StepFires(st: State, e: Event)
    requires Possible(st, e)
    ensures forall flight :: flight in Next(st, e).flights ==> flight in st.flights || Fires(e, st, flight)
    ensures forall flight :: flight in st.flights ==>
              flight in Next(st, e).flights || (e.Finish? && flight == st.flights[e.i])
    ensures e.FireSlot? || e.FireRetry? || e.FireCatchup? ==>
              exists flight :: flight in Next(st, e).flights && Fires(e, st, flight)
  {
    if e.Finish? {
      assert st.flights == st.flights[..e.i] + [st.flights[e.i]] + st.flights[e.i + 1..];
    } else if e.FireSlot? || e.FireRetry? || e.FireCatchup? {
      var flights := Next(st, e).flights;
      assert flights[|st.flights|] in flights && Fires(e, st, flights[|st.flights|]);
    }
  }

  lemma StepEnds(st: State, e: Event)
    requires Possible(st, e)
    ensures st.history <= Next(st, e).history
    ensures if e.Finish? then |Next(st, e).history| == |st.history| + 1
                              && Ends(e, st, Next(st, e), Next(st, e).history[|st.history|])
            else Next(st, e).history == st.history
  {
  }

  lemma {:induction false} FlightWasFired(states: seq<State>, events: seq<Event>, k: nat, flight: Flight)
    requires IsRun(states, events) && k <= |events| && flight in states[k].flights
    ensures WasFired(states, events, k, flight)
  {
    hide Next, Possible, Fires;
    if k > 0 {
      StepFires(states[k - 1], events[k - 1]);
      if flight in states[k - 1].flights {
        FlightWasFired(states, events, k - 1, flight);
      }
    }
  }

  /** Every attempt on record was fired by an event and ended by another: a backup was started if
      and only if the schedule was enabled, the directory reachable, and no runner and no job in
      the way as that attempt read them; it gave up if and only if something was and it was the
      sixth. */
  lemma {:induction false} EveryAttempt(states: seq<State>, events: seq<Event>, k: nat, h: nat)
    requires IsRun(states, events) && k <= |events| && h < |states[k].history|
    ensures WasFired(states, events, k, states[k].history[h].flight)
    ensures HasEnded(states, events, k, states[k].history[h])
    ensures ComesTo(states[k].history[h].flight.attempt, states[k].history[h].reading, states[k].history[h].outcome)
  {
    hide Next, Possible, Fires, ComesTo;
    if k > 0 {
      StepEnds(states[k - 1], events[k - 1]);
      if h < |states[k - 1].history| {
        EveryAttempt(states, events, k - 1, h);
      } else {
        FlightWasFired(states, events, k - 1, states[k].history[h].flight);
        assert Ends(events[k - 1], states[k - 1], states[k], states[k].history[h]);
      }
    }
  }

  ghost predicate InFlightOrDone(st: State, flight: Flight) {
    flight in st.flights || exists h :: 0 <= h < |st.history| && st.history[h].flight == flight
  }

  /** And no attempt is lost: whatever was fired is in flight or on record ever after. */
  lemma {:induction false} NoAttemptIsLost(states: seq<State>, events: seq<Event>, f: nat, k: nat) returns (flight: Flight)
    requires IsRun(states, events) && f < k <= |events|
    requires events[f].FireSlot? || events[f].FireRetry? || events[f].FireCatchup?
    ensures Fires(events[f], states[f], flight) && InFlightOrDone(states[k], flight)
    decreases k
  {
    hide Next, Possible, Fires;
    StepFires(states[k - 1], events[k - 1]);
    StepEnds(states[k - 1], events[k - 1]);
    if k == f + 1 {
      flight :| flight in states[k].flights && Fires(events[f], states[f], flight);
    } else {
      flight := NoAttemptIsLost(states, events, f, k - 1);
      var st, st' := states[k - 1], states[k];
      if flight !in st.flights {
        var h :| 0 <= h < |st.history| && st.history[h].flight == flight;
        assert st'.history[h] == st.history[h];
      } else if flight !in st'.flights {
        assert st'.history[|st.history|].flight == flight;
      }
    }
  }

  /** The event plans this retry: an attempt under an enabled schedule found something in the way
      and was not the sixth. */
  ghost predicate PlansRetry(st: State, e: Event, p: Pending) {
    && e.Finish? && e.i < |st.flights| && e.reading.enabled
    && (!e.reading.reachable || e.reading.runner || e.reading.jobActive) && st.flights[e.i].attempt < 6
    && p == Pending(st.flights[e.i].chain, st.flights[e.i].attempt + 1, e.now + 600, st.flights[e.i].since)
  }

  ghost predicate PlansCatchup(e: Event, p: Pending) {
    e.PlanCatchup? && p.attempt == 1 && p.due == e.now + 120 && p.since == p.due
  }

  /** What takes a pending retry or catch-up out of the store: it fires, it is dropped as too late,
      or the schedule is replaced. */
  ghost predicate EndsRetry(e: Event) {
    e.Apply? || e.FireRetry? || e.MissRetry?
  }

  ghost predicate EndsCatchup(e: Event) {
    e.Apply? || e.FireCatchup? || e.MissCatchup?
  }

  ghost predicate SlotStands(events: seq<Event>, k: nat)
    requires k <= |events|
  {
    exists a :: 0 <= a < k && events[a] == Apply(true) && forall j :: a < j < k ==> !events[j].Apply?
  }

  ghost predicate RetryStands(states: seq<State>, events: seq<Event>, k: nat, p: Pending)
    requires k <= |events| && |events| < |states|
  {
    exists e :: 0 <= e < k && PlansRetry(states[e], events[e], p) && forall j :: e < j < k ==> !EndsRetry(events[j])
  }

  ghost predicate CatchupStands(events: seq<Event>, k: nat, p: Pending)
    requires k <= |events|
  {
    exists e :: 0 <= e < k && PlansCatchup(events[e], p) && forall j :: e < j < k ==> !EndsCatchup(events[j])
  }

  ghost predicate RetryIsCurrent(states: seq<State>, events: seq<Event>, k: nat)
    requires k <= |events| && |events| < |states|
  {
    if states[k].retry.Some? then RetryStands(states, events, k, states[k].retry.value)
    else forall p :: !RetryStands(states, events, k, p)
  }

  ghost predicate CatchupIsCurrent(states: seq<State>, events: seq<Event>, k: nat)
    requires k <= |events| && |events| < |states|
  {
    if states[k].catchup.Some? then CatchupStands(events, k, states[k].catchup.value)
    else forall p :: !CatchupStands(events, k, p)
  }

  /** What is in the store, from the events alone: the slot if and only if the latest schedule is
      enabled; a retry or a catch-up if and only if one was planned and has neither fired nor been
      dropped since, and the schedule has not been replaced. */
  lemma {:induction false} StoreIsCurrent(states: seq<State>, events: seq<Event>, k: nat)
    requires IsRun(states, events) && k <= |events|
    ensures states[k].slot <==> SlotStands(events, k)
    ensures RetryIsCurrent(states, events, k) && CatchupIsCurrent(states, events, k)
  {
    if k > 0 {
      StoreIsCurrent(states, events, k - 1);
      hide Possible, Next;
      SlotStep(states, events, k);
      RetryStep(states, events, k);
      CatchupStep(states, events, k);
    }
  }

  lemma SlotStep(states: seq<State>, events: seq<Event>, k: nat)
    requires IsRun(states, events) && 0 < k <= |events|
    requires states[k - 1].slot <==> SlotStands(events, k - 1)
    ensures states[k].slot <==> SlotStands(events, k)
  {
  }

  lemma StandsOn(states: seq<State>, events: seq<Event>, k: nat, p: Pending)
    requires 0 < k <= |events| && |events| < |states|
    ensures RetryStands(states, events, k, p) <==>
              PlansRetry(states[k - 1], events[k - 1], p) || (!EndsRetry(events[k - 1]) && RetryStands(states, events, k - 1, p))
    ensures CatchupStands(events, k, p) <==>
              PlansCatchup(events[k - 1], p) || (!EndsCatchup(events[k - 1]) && CatchupStands(events, k - 1, p))
  {
    hide PlansRetry, PlansCatchup, EndsRetry, EndsCatchup;
  }

  lemma RetryStep(states: seq<State>, events: seq<Event>, k: nat)
    requires IsRun(states, events) && 0 < k <= |events|
    requires RetryIsCurrent(states, events, k - 1)
    ensures RetryIsCurrent(states, events, k)
  {
    hide RetryStands;
    forall p | states[k].retry.None? || p == states[k].retry.value
      ensures RetryStands(states, events, k, p) <==> states[k].retry.Some?
    {
      StandsOn(states, events, k, p);
    }
  }

  lemma CatchupStep(states: seq<State>, events: seq<Event>, k: nat)
    requires IsRun(states, events) && 0 < k <= |events|
    requires CatchupIsCurrent(states, events, k - 1)
    ensures CatchupIsCurrent(states, events, k)
  {
    hide CatchupStands;
    forall p | states[k].catchup.None? || p == states[k].catchup.value
      ensures CatchupStands(events, k, p) <==> states[k].catchup.Some?
    {
      StandsOn(states, events, k, p);
    }
  }

  // ---------------------------------------------------------------- punctual runs

  /** On time: a pending attempt fires when it is due, and an attempt takes no time. So nothing
      else happens between firing and finishing, and time does not pass a due attempt by. */
  predicate Punctual(st: State, e: Event) {
    match e
    case FireRetry(now) => st.retry.Some? && now == st.retry.value.due && st.flights == []
    case FireCatchup(now) => st.catchup.Some? && now == st.catchup.value.due && st.flights == []
    case FireSlot(now) => st.flights == [] && (st.retry.Some? ==> now <= st.retry.value.due)
    case Finish(i, _, now) => i < |st.flights| && now == st.flights[i].firedAt
    case PlanCatchup(_) => false
    case MissRetry => false
    case MissCatchup => false
    case Apply(_) => st.flights == []
  }

  /** The slots of a schedule are at least `MIN_INTERVAL` apart; `last` is the latest one. */
  predicate SlotsApart(st: State, e: Event, last: Option<int>) {
    e.FireSlot? && last.Some? ==> e.now >= last.value + MIN_INTERVAL
  }

  function LastSlot(events: seq<Event>): Option<int>
  {
    if events == [] then None
    else if events[|events| - 1].FireSlot? then Some(events[|events| - 1].now)
    else LastSlot(events[..|events| - 1])
  }

  ghost predicate IsPunctualRun(states: seq<State>, events: seq<Event>) {
    IsRun(states, events)
    && forall k :: 0 <= k < |events| ==>
         Punctual(states[k], events[k]) && SlotsApart(states[k], events[k], LastSlot(events[..k]))
  }

  /** Whatever is alive belongs to the latest slot and is exactly where its number puts it. */
  ghost predicate OnSchedule(st: State, last: Option<int>) {
    && st.catchup.None? && |st.flights| <= 1
    && (st.retry.Some? ==>
          last == Some(st.retry.value.since) && st.flights == []
          && st.retry.value.due == st.retry.value.since + (st.retry.value.attempt - 1) * RETRY_DELAY)
    && (st.flights != [] ==>
          last == Some(st.flights[0].since)
          && st.flights[0].firedAt == st.flights[0].since + (st.flights[0].attempt - 1) * RETRY_DELAY)
  }

  lemma PunctualStep(st: State, e: Event, last: Option<int>)
    requires Bounds(st) && OnSchedule(st, last) && Possible(st, e) && Punctual(st, e) && SlotsApart(st, e, last)
    ensures OnSchedule(Next(st, e), if e.FireSlot? then Some(e.now) else last)
    ensures e.FireSlot? || e.Finish? ==> st.retry.None?
  {
  }

  lemma {:induction false} PunctualIsOnSchedule(states: seq<State>, events: seq<Event>, k: nat)
    requires IsPunctualRun(states, events) && k <= |events|
    ensures OnSchedule(states[k], LastSlot(events[..k])) && Invariant(states[k])
  {
    hide OnSchedule, Bounds, OneAttemptAlive, ChainsMoveOn, Punctual, SlotsApart, Possible;
    RunKeepsInvariant(states, events, k);
    if k > 0 {
      PunctualIsOnSchedule(states, events, k - 1);
      PunctualStep(states[k - 1], events[k - 1], LastSlot(events[..k - 1]));
      assert events[..k][..k - 1] == events[..k - 1];
    } else {
      AtFirst();
    }
  }

  lemma AtFirst()
    ensures OnSchedule(INITIAL, None)
  {
  }

  /** With slots at least an hour apart and everything on time, no chain is still alive when
      the next slot comes due, so a planned retry is never replaced by another chain's, and the
      sixth attempt comes fifty minutes after the slot. */
  lemma SlotChainsDoNotOverlap(states: seq<State>, events: seq<Event>, k: nat)
    requires IsPunctualRun(states, events) && k < |events|
    ensures events[k].FireSlot? ==> states[k].retry.None? && states[k].catchup.None? && states[k].flights == []
    ensures events[k].Finish? ==> states[k].retry.None?
    ensures events[k].FireRetry? ==>
              events[k].now == states[k].retry.value.since + (states[k].retry.value.attempt - 1) * RETRY_DELAY
              && events[k].now <= states[k].retry.value.since + 3000
  {
    PunctualIsOnSchedule(states, events, k);
    PunctualStep(states[k], events[k], LastSlot(events[..k]));
  }

  // ---------------------------------------------------------------- the scheduler itself

  /** The job store of `BackupScheduler`, one entry per job id. What is in flight and what has
      happened is kept for the specification only. */
  class BackupScheduler {
    var slot: bool
    var retry: Option<Pending>
    var catchup: Option<Pending>
    ghost var flights: seq<Flight>
    ghost var history: seq<Firing>
    ghost var chains: nat

    ghost function Now(): State
      reads this
    {
      State(slot, retry, catchup, flights, history, chains)
    }

    constructor ()
      ensures Now() == INITIAL
    {
      slot, retry, catchup := false, None, None;
      flights, history, chains := [], [], 0;
    }

    method ApplySchedule(enabled: bool)
      modifies this
      ensures Now() == Applied(old(Now()), enabled)
      ensures slot == enabled && retry.None? && catchup.None?
    {
      retry := None;
      catchup := None;
      if !enabled {
        slot := false;
        return;
      }
      slot := true;
    }

    /** `_schedule_catchup`; `missed` is what the catalogue says. */
    method ScheduleCatchup(enabled: bool, ifMissed: bool, missed: bool, now: int, chain: nat)
      requires chain == chains
      modifies this
      ensures Now() == if enabled && ifMissed && missed then CatchupPlanned(old(Now()), now) else old(Now())
      ensures enabled && ifMissed && missed ==> catchup == Some(Pending(chain, 1, now + 120, now + 120))
    {
      if !enabled || !ifMissed {
        return;
      }
      if !missed {
        return;
      }
      catchup := Some(Pending(chain, 1, now + CATCHUP_DELAY, now + CATCHUP_DELAY));
      chains := chains + 1;
    }

    /** `fire`, from its first read to its end: `i` is its place among the attempts in flight. */
    method Fire(attempt: int, chain: nat, since: int, reading: Reading, now: int, ghost i: nat)
      returns (outcome: Outcome)
      requires i < |flights| && flights[i].attempt == attempt && flights[i].chain == chain && flights[i].since == since
      modifies this
      ensures Now() == Finished(old(Now()), i, reading, now)
      ensures ComesTo(attempt, reading, outcome)
      ensures retry == if outcome.Retry? then Some(Pending(chain, attempt + 1, now + 600, since)) else old(retry)
    {
      ghost var flight := flights[i];
      flights := flights[..i] + flights[i + 1..];
      if !reading.enabled {
        outcome := Disabled;
      } else if !reading.reachable {
        outcome := Skip(attempt, chain, since, now);
      } else if reading.runner {
        outcome := Skip(attempt, chain, since, now);
      } else if reading.jobActive {
        outcome := Skip(attempt, chain, since, now);
      } else {
        outcome := Started;
      }
      history := history + [Firing(flight, reading, outcome)];
    }

    /** `_skip`: plan the next attempt unless this was the last one. */
    method Skip(attempt: int, chain: nat, since: int, now: int) returns (outcome: Outcome)
      modifies this`retry
      ensures outcome == if attempt >= MAX_ATTEMPTS then GaveUp else Retry
      ensures retry == if outcome.Retry? then Some(Pending(chain, attempt + 1, now + RETRY_DELAY, since)) else old(retry)
    {
      if attempt >= MAX_ATTEMPTS {
        return GaveUp;
      }
      retry := Some(Pending(chain, attempt + 1, now + RETRY_DELAY, since));
      return Outcome.Retry;
    }
  }
}
