/** The single-flight refresh of a session (`auth/deps.py`). */
module TokenRefresh {
  import opened Collections
  import opened Wrappers

  // A burst of requests arrives with the same expired cookie. One of them exchanges the refresh
  // token, under a lock of its own for every token; the others copy the outcome, which is kept
  // for a short window. Requests interleave wherever one waits: for the lock, and for the
  // answer to the exchange. Keys are the digests of refresh tokens, times whole seconds.

  const RESULT_TTL: int := 60
  const MAX_LOCKS: nat := 512

  type Key = string
  type Payload = string

  datatype Stored = Stored(at: int, payload: Payload)

  datatype Phase =
    | Waiting(key: Key, lock: nat)
    | Exchanging(key: Key, lock: nat, since: int)
    | Copied(key: Key, session: Payload)
    | Renewed(key: Key, session: Payload)
    | Rejected(key: Key)

  /** What the log tells: an exchange began, succeeded (having begun at `since`), or an earlier
      outcome was copied. */
  datatype Entry =
    | Began(key: Key, at: int)
    | Succeeded(key: Key, since: int, payload: Payload)
    | CopiedAt(key: Key, at: int, payload: Payload)

  /** The two dictionaries, which request holds which lock, every request, the time of the latest
      reading of the clock, and the log. */
  datatype State = State(locks: map<Key, nat>, nextLock: nat, results: map<Key, Stored>, held: map<nat, nat>,
                         requests: map<nat, Phase>, clock: int, log: seq<Entry>)

  // ---------------------------------------------------------------- one step

  predicate IsFresh(stored: Stored, now: int) {
    now - stored.at <= RESULT_TTL
  }

  function FreshResults(results: map<Key, Stored>, now: int): map<Key, Stored> {
    map key | key in results && IsFresh(results[key], now) :: results[key]
  }

  /** Locks are swept only when there are too many, and then all without a recent result. */
  function SweptLocks(locks: map<Key, nat>, results: map<Key, Stored>): map<Key, nat> {
    if |locks| > MAX_LOCKS then map key | key in locks && key in results :: locks[key] else locks
  }

  /** `_refresh_locks.setdefault(key, Lock())`, then waiting for the lock. */
  function Arrived(st: State, r: nat, key: Key): State {
    var known := key in st.locks;
    var lock := if known then st.locks[key] else st.nextLock;
    st.(locks := st.locks[key := lock], nextLock := if known then st.nextLock else st.nextLock + 1,
        requests := st.requests[r := Waiting(key, lock)])
  }

  /** Inside the lock, up to the exchange or the end. */
  function Entered(st: State, r: nat, now: int): State
    requires r in st.requests && st.requests[r].Waiting?
  {
    var key, lock := st.requests[r].key, st.requests[r].lock;
    var results := FreshResults(st.results, now);
    var pruned := st.(results := results, locks := SweptLocks(st.locks, results), clock := now);
    if key in results then
      pruned.(requests := st.requests[r := Copied(key, results[key].payload)],
              log := st.log + [CopiedAt(key, now, results[key].payload)])
    else
      pruned.(requests := st.requests[r := Exchanging(key, lock, now)], held := st.held[lock := r],
              log := st.log + [Began(key, now)])
  }

  /** The exchange answered: the outcome is kept under the time it began. */
  function Answered(st: State, r: nat, answer: Option<Payload>): State
    requires r in st.requests && st.requests[r].Exchanging?
  {
    var request := st.requests[r];
    var released := st.(held := st.held - {request.lock});
    if answer.None? then released.(requests := st.requests[r := Rejected(request.key)])
    else
      released.(results := st.results[request.key := Stored(request.since, answer.value)],
                requests := st.requests[r := Renewed(request.key, answer.value)],
                log := st.log + [Succeeded(request.key, request.since, answer.value)])
  }

  datatype Event =
    | Arrive(r: nat, key: Key)
    | Enter(r: nat, now: int)
    | Answer(r: nat, answer: Option<Payload>)

  /** A lock admits a request when nobody holds it, and the clock does not go back. */
  predicate Possible(st: State, e: Event) {
    match e
    case Arrive(r, _) => r !in st.requests
    case Enter(r, now) => r in st.requests && st.requests[r].Waiting? && st.requests[r].lock !in st.held && st.clock <= now
    case Answer(r, _) => r in st.requests && st.requests[r].Exchanging?
  }

  function Next(st: State, e: Event): State
    requires Possible(st, e)
  {
    match e
    case Arrive(r, key) => Arrived(st, r, key)
    case Enter(r, now) => Entered(st, r, now)
    case Answer(r, answer) => Answered(st, r, answer)
  }

  function Initial(now: int): State {
    State(map[], 0, map[], map[], map[], now, [])
  }

  // ---------------------------------------------------------------- what every run keeps

  predicate InLock(phase: Phase) {
    phase.Waiting? || phase.Exchanging?
  }

  /** Everyone who waits for or is inside a lock has the one the table holds for its key. */
  ghost predicate LocksKnown(st: State) {
    && (forall key :: key in st.locks ==> st.locks[key] < st.nextLock)
    && (forall a, b :: a in st.locks && b in st.locks && st.locks[a] == st.locks[b] ==> a == b)
    && (forall r :: r in st.requests && InLock(st.requests[r]) ==>
          st.requests[r].key in st.locks && st.locks[st.requests[r].key] == st.requests[r].lock)
  }

  ghost predicate HoldersExchange(st: State) {
    && (forall r :: r in st.requests && st.requests[r].Exchanging? ==>
          st.requests[r].lock in st.held && st.held[st.requests[r].lock] == r && st.requests[r].since <= st.clock)
    && (forall lock :: lock in st.held ==>
          st.held[lock] in st.requests && st.requests[st.held[lock]].Exchanging? && st.requests[st.held[lock]].lock == lock)
  }

  /** The latest success of a key that the log tells. */
  function LastSuccess(log: seq<Entry>, key: Key): Option<Stored> {
    if log == [] then None
    else
      var last := log[|log| - 1];
      if last.Succeeded? && last.key == key then Some(Stored(last.since, last.payload)) else LastSuccess(log[..|log| - 1], key)
  }

  /** What is kept of a key is its latest success, and it is kept through the window. */
  ghost predicate ResultsAreLatest(st: State) {
    && (forall key :: key in st.results ==> LastSuccess(st.log, key) == Some(st.results[key]))
    && (forall key :: LastSuccess(st.log, key).Some? && IsFresh(LastSuccess(st.log, key).value, st.clock) ==> key in st.results)
  }

  /** Nothing is exchanged while an earlier success is recent, and whatever is copied is the
      latest success. */
  ghost predicate EntryIsSound(before: seq<Entry>, e: Entry) {
    var last := LastSuccess(before, e.key);
    && (e.Began? && last.Some? ==> !IsFresh(last.value, e.at))
    && (e.CopiedAt? ==> last.Some? && last.value.payload == e.payload && IsFresh(last.value, e.at))
  }

  ghost predicate LogIsSound(log: seq<Entry>) {
    forall i :: 0 <= i < |log| ==> EntryIsSound(log[..i], log[i])
  }

  ghost predicate Invariant(st: State) {
    LocksKnown(st) && HoldersExchange(st) && ResultsAreLatest(st) && LogIsSound(st.log)
  }

  lemma LastSuccessAppend(log: seq<Entry>, e: Entry, key: Key)
    ensures LastSuccess(log + [e], key) ==
            if e.Succeeded? && e.key == key then Some(Stored(e.since, e.payload)) else LastSuccess(log, key)
  {
    assert (log + [e])[..|log|] == log;
  }

  lemma LogGrows(log: seq<Entry>, e: Entry)
    requires LogIsSound(log) && EntryIsSound(log, e)
    ensures LogIsSound(log + [e])
  {
    var more := log + [e];
    forall i | 0 <= i < |more|
      ensures EntryIsSound(more[..i], more[i])
    {
      if i < |log| {
        assert more[..i] == log[..i] && EntryIsSound(log[..i], log[i]);
      } else {
        assert more[..i] == log;
      }
    }
  }

  lemma ArriveKeepsInvariant(st: State, r: nat, key: Key)
    requires Invariant(st) && r !in st.requests
    ensures Invariant(Arrived(st, r, key))
  {
    hide ResultsAreLatest, LogIsSound, LastSuccess;
    ArriveKeepsResults(st, r, key);
  }

  lemma ArriveKeepsResults(st: State, r: nat, key: Key)
    requires ResultsAreLatest(st)
    ensures ResultsAreLatest(Arrived(st, r, key))
  {
  }

  /** Pruning at `now` keeps what is said about the results, and decides by the latest success. */
  lemma PruneKeepsResults(st: State, now: int)
    requires ResultsAreLatest(st) && st.clock <= now
    ensures var results := FreshResults(st.results, now);
            && (forall key :: key in results ==> LastSuccess(st.log, key) == Some(results[key]) && IsFresh(results[key], now))
            && (forall key :: LastSuccess(st.log, key).Some? && IsFresh(LastSuccess(st.log, key).value, now) ==> key in results)
  {
  }

  lemma EnterKeepsResults(st: State, r: nat, now: int)
    requires ResultsAreLatest(st) && LogIsSound(st.log) && Possible(st, Enter(r, now))
    ensures ResultsAreLatest(Entered(st, r, now)) && LogIsSound(Entered(st, r, now).log)
  {
    PruneKeepsResults(st, now);
    var st', key := Entered(st, r, now), st.requests[r].key;
    var e := st'.log[|st.log|];
    LogGrows(st.log, e);
    forall k: Key
      ensures LastSuccess(st'.log, k) == LastSuccess(st.log, k)
    {
      LastSuccessAppend(st.log, e, k);
    }
  }

  lemma EnterKeepsLocks(st: State, r: nat, now: int)
    requires LocksKnown(st) && HoldersExchange(st) && Possible(st, Enter(r, now)) && |st.locks| <= MAX_LOCKS
    ensures LocksKnown(Entered(st, r, now)) && HoldersExchange(Entered(st, r, now))
  {
  }

  lemma AnswerKeepsResults(st: State, r: nat, answer: Option<Payload>)
    requires ResultsAreLatest(st) && LogIsSound(st.log) && Possible(st, Answer(r, answer))
    ensures ResultsAreLatest(Answered(st, r, answer)) && LogIsSound(Answered(st, r, answer).log)
  {
    var request := st.requests[r];
    if answer.Some? {
      var e := Succeeded(request.key, request.since, answer.value);
      LogGrows(st.log, e);
      forall k: Key
        ensures LastSuccess(st.log + [e], k)
                == if k == request.key then Some(Stored(request.since, answer.value)) else LastSuccess(st.log, k)
      {
        LastSuccessAppend(st.log, e, k);
      }
    }
  }

  lemma AnswerKeepsLocks(st: State, r: nat, answer: Option<Payload>)
    requires LocksKnown(st) && HoldersExchange(st) && Possible(st, Answer(r, answer))
    ensures LocksKnown(Answered(st, r, answer)) && HoldersExchange(Answered(st, r, answer))
  {
    hide LocksKnown, HoldersExchange;
    AnswerKeepsTable(st, r, answer);
    AnswerKeepsHolders(st, r, answer);
  }

  lemma AnswerKeepsTable(st: State, r: nat, answer: Option<Payload>)
    requires LocksKnown(st) && Possible(st, Answer(r, answer))
    ensures LocksKnown(Answered(st, r, answer))
  {
  }

  lemma AnswerKeepsHolders(st: State, r: nat, answer: Option<Payload>)
    requires HoldersExchange(st) && Possible(st, Answer(r, answer))
    ensures HoldersExchange(Answered(st, r, answer))
  {
    var after, lock := Answered(st, r, answer), st.requests[r].lock;
    assert after.held == st.held - {lock} && after.clock == st.clock;
    assert forall q :: q in st.requests && q != r ==> after.requests[q] == st.requests[q];
    assert !after.requests[r].Exchanging?;
  }

  /** With at most `MAX_LOCKS` entries in the table when a request enters no lock is taken away. */
  lemma StepKeepsInvariant(st: State, e: Event)
    requires Invariant(st) && Possible(st, e) && (e.Enter? ==> |st.locks| <= MAX_LOCKS)
    ensures Invariant(Next(st, e))
  {
    hide LocksKnown, HoldersExchange, ResultsAreLatest, LogIsSound;
    match e
    case Arrive(r, key) => ArriveKeepsInvariant(st, r, key);
    case Enter(r, now) =>
      EnterKeepsResults(st, r, now);
      EnterKeepsLocks(st, r, now);
    case Answer(r, answer) =>
      AnswerKeepsResults(st, r, answer);
      AnswerKeepsLocks(st, r, answer);
  }

  ghost predicate IsRun(states: seq<State>, events: seq<Event>) {
    && |states| == |events| + 1 && states[0] == Initial(states[0].clock)
    && forall k :: 0 <= k < |events| ==>
         Possible(states[k], events[k]) && states[k + 1] == Next(states[k], events[k])
  }

  /** The table of locks has at most `n` entries whenever a request enters its lock. */
  ghost predicate TableWithin(states: seq<State>, events: seq<Event>, n: nat) {
    |states| > |events| && forall k :: 0 <= k < |events| && events[k].Enter? ==> |states[k].locks| <= n
  }

  lemma InitialIsFine(now: int)
    ensures Invariant(Initial(now))
  {
  }

  lemma {:induction false} RunKeepsInvariant(states: seq<State>, events: seq<Event>, k: nat)
    requires IsRun(states, events) && TableWithin(states, events, MAX_LOCKS) && k <= |events|
    ensures Invariant(states[k])
  {
    hide Invariant, Next, Initial;
    if k > 0 {
      RunKeepsInvariant(states, events, k - 1);
      StepKeepsInvariant(states[k - 1], events[k - 1]);
    } else {
      InitialIsFine(states[0].clock);
    }
  }

  /** In every interleaving, exchanges of one token never overlap. */
  lemma ExchangesNeverOverlap(states: seq<State>, events: seq<Event>, k: nat, r1: nat, r2: nat)
    requires IsRun(states, events) && TableWithin(states, events, MAX_LOCKS) && k <= |events|
    requires r1 in states[k].requests && states[k].requests[r1].Exchanging?
    requires r2 in states[k].requests && states[k].requests[r2].Exchanging?
    requires states[k].requests[r1].key == states[k].requests[r2].key
    ensures r1 == r2
  {
    RunKeepsInvariant(states, events, k);
  }

  /** In every interleaving: once an exchange has succeeded, no other exchange of that token
      begins until the window, counted from when that one began, is over; and every request
      that enters within the window ends with the payload of the latest success. */
  lemma LosersCopyTheWinner(states: seq<State>, events: seq<Event>, k: nat, i: nat)
    requires IsRun(states, events) && TableWithin(states, events, MAX_LOCKS) && k <= |events| && i < |states[k].log|
    ensures var e, last := states[k].log[i], LastSuccess(states[k].log[..i], states[k].log[i].key);
            && (e.Began? && last.Some? ==> e.at > last.value.at + 60)
            && (e.CopiedAt? ==> last.Some? && e.payload == last.value.payload && e.at <= last.value.at + 60)
  {
    RunKeepsInvariant(states, events, k);
    assert EntryIsSound(states[k].log[..i], states[k].log[i]);
  }

  // ---------------------------------------------------------------- from the events alone

  /** The event `j` is the answer to an exchange of the token. */
  ghost predicate Answers(states: seq<State>, events: seq<Event>, j: int, key: Key)
    requires |events| < |states|
  {
    && 0 <= j < |events| && events[j].Answer? && events[j].answer.Some? && events[j].r in states[j].requests
    && states[j].requests[events[j].r].Exchanging? && states[j].requests[events[j].r].key == key
  }

  /** The latest such answer before `k` brought `payload`, and its exchange began at `since`. */
  ghost predicate IsLatest(states: seq<State>, events: seq<Event>, k: nat, key: Key, since: int, payload: Payload)
    requires |events| < |states| && k <= |events|
  {
    exists j :: && 0 <= j < k && Answers(states, events, j, key)
                && events[j].answer.value == payload && states[j].requests[events[j].r].since == since
                && forall i :: j < i < k ==> !Answers(states, events, i, key)
  }

  lemma StepLogs(st: State, e: Event, key: Key)
    requires Possible(st, e)
    ensures LastSuccess(Next(st, e).log, key) ==
            if e.Answer? && e.answer.Some? && st.requests[e.r].key == key then Some(Stored(st.requests[e.r].since, e.answer.value))
            else LastSuccess(st.log, key)
  {
    var log := Next(st, e).log;
    if log != st.log {
      LastSuccessAppend(st.log, log[|st.log|], key);
    }
  }

  lemma LatestGoesOn(states: seq<State>, events: seq<Event>, k: nat, key: Key, since: int, payload: Payload)
    requires 0 < k <= |events| && |events| < |states|
    ensures IsLatest(states, events, k, key, since, payload) <==>
              if Answers(states, events, k - 1, key) then
                events[k - 1].answer.value == payload && states[k - 1].requests[events[k - 1].r].since == since
              else IsLatest(states, events, k - 1, key, since, payload)
  {
    hide Answers;
  }

  /** What the log says is the latest success is the latest answer that was one. */
  lemma {:induction false} LogTellsTheLatest(states: seq<State>, events: seq<Event>, k: nat, key: Key, since: int, payload: Payload)
    requires IsRun(states, events) && k <= |events|
    ensures LastSuccess(states[k].log, key) == Some(Stored(since, payload)) <==> IsLatest(states, events, k, key, since, payload)
  {
    hide Next, LastSuccess, Initial, IsLatest;
    if k > 0 {
      LogTellsTheLatest(states, events, k - 1, key, since, payload);
      StepLogs(states[k - 1], events[k - 1], key);
      LatestGoesOn(states, events, k, key, since, payload);
    } else {
      NothingLogged(states[0].clock, key);
      NothingLatest(states, events, key, since, payload);
    }
  }

  lemma NothingLatest(states: seq<State>, events: seq<Event>, key: Key, since: int, payload: Payload)
    requires |events| < |states|
    ensures !IsLatest(states, events, 0, key, since, payload)
  {
  }

  lemma NothingLogged(now: int, key: Key)
    ensures LastSuccess(Initial(now).log, key) == None
  {
  }

  /** A request that enters its lock copies a payload if and only if that is the latest answer for
      its token and came of an exchange that began at most a minute before; every other request
      exchanges the token itself. */
  lemma CopiesExactlyWithinTheWindow(states: seq<State>, events: seq<Event>, k: nat, payload: Payload)
    requires IsRun(states, events) && TableWithin(states, events, 512) && k < |events| && events[k].Enter?
    ensures var st, r, now := states[k], events[k].r, events[k].now;
            var key := st.requests[r].key;
            && r in states[k + 1].requests
            && (states[k + 1].requests[r] == Copied(key, payload)
                <==> exists since :: IsLatest(states, events, k, key, since, payload) && now <= since + 60)
            && ((forall since, p :: IsLatest(states, events, k, key, since, p) ==> now > since + 60)
                ==> states[k + 1].requests[r] == Exchanging(key, st.requests[r].lock, now))
  {
    RunKeepsInvariant(states, events, k);
    PruneKeepsResults(states[k], events[k].now);
    var key := states[k].requests[events[k].r].key;
    forall since, p
      ensures LastSuccess(states[k].log, key) == Some(Stored(since, p)) <==> IsLatest(states, events, k, key, since, p)
    {
      LogTellsTheLatest(states, events, k, key, since, p);
    }
    hide IsLatest, LastSuccess;
    var last := LastSuccess(states[k].log, key);
    if last.Some? {
      assert last == Some(Stored(last.value.at, last.value.payload));
    }
  }

  /** A request that arrives waits, and one that exchanged ends with its answer; everyone else is as
      before. */
  lemma OthersStay(states: seq<State>, events: seq<Event>, k: nat)
    requires IsRun(states, events) && k < |events|
    ensures var before, after := states[k].requests, states[k + 1].requests;
            && after.Keys == before.Keys + {events[k].r} && (forall r :: r in before && r != events[k].r ==> after[r] == before[r])
            && match events[k]
               case Arrive(r, key) => after[r].Waiting? && after[r].key == key
               case Enter(r, _) => true
               case Answer(r, answer) =>
                 after[r] == if answer.Some? then Renewed(before[r].key, answer.value) else Rejected(before[r].key)
  {
  }

  // ---------------------------------------------------------------- the limit of the table

  /** With more locks than `MAX_LOCKS`, a request that enters any lock sweeps away the one another
      request is exchanging under; the next arrival with the same token gets a new lock and
      exchanges it a second time meanwhile. */
  lemma SweepBreaksSingleFlight(st: State, first: nat, other: nat, third: nat, now: int)
    requires Invariant(st) && |st.locks| > MAX_LOCKS
    requires first in st.requests && st.requests[first].Exchanging? && st.requests[first].key !in st.results
    requires Possible(st, Enter(other, now)) && st.requests[other].key != st.requests[first].key
    requires third !in st.requests
    ensures var key := st.requests[first].key;
            var swept := Entered(st, other, now);
            var arrived := Arrived(swept, third, key);
            && Possible(swept, Arrive(third, key)) && Possible(arrived, Enter(third, now))
            && (var overlapping := Entered(arrived, third, now);
                first in overlapping.requests && third in overlapping.requests && first != third
                && BothExchange(overlapping.requests[first], overlapping.requests[third]))
  {
  }

  ghost predicate BothExchange(a: Phase, b: Phase) {
    a.Exchanging? && b.Exchanging? && a.key == b.key
  }

  ghost predicate NoOverlap(st: State) {
    forall r1, r2 :: r1 in st.requests && r2 in st.requests && BothExchange(st.requests[r1], st.requests[r2]) ==> r1 == r2
  }

  ghost predicate NeverOverlap(states: seq<State>) {
    forall k :: 0 <= k < |states| ==> NoOverlap(states[k])
  }

  lemma RunExtends(states: seq<State>, events: seq<Event>, e: Event, n: nat)
    requires IsRun(states, events) && TableWithin(states, events, n)
    requires Possible(states[|events|], e) && (e.Enter? ==> |states[|events|].locks| <= n)
    ensures var longer := states + [Next(states[|events|], e)];
            IsRun(longer, events + [e]) && TableWithin(longer, events + [e], n)
  {
    hide Possible, Next, Initial;
  }

  lemma OneMore(states: seq<State>, events: seq<Event>, e: Event, n: nat) returns (longer: seq<State>, more: seq<Event>)
    requires IsRun(states, events) && TableWithin(states, events, n)
    requires Possible(states[|events|], e) && (e.Enter? ==> |states[|events|].locks| <= n)
    ensures IsRun(longer, more) && TableWithin(longer, more, n) && longer[|more|] == Next(states[|events|], e)
  {
    RunExtends(states, events, e, n);
    longer, more := states + [Next(states[|events|], e)], events + [e];
  }

  /** One request exchanges a token, and `n` more with a token each wait for locks of their own. */
  ghost predicate IsCrowd(st: State, n: nat) {
    && st.locks.Keys == NamesUpTo(n + 1) && (forall i: nat :: i <= n ==> st.locks[Name(i)] == i) && st.nextLock == n + 1
    && st.held == map[0 := 0] && st.results == map[] && st.clock == 0
    && (forall r: nat :: r in st.requests <==> r <= n) && st.requests[0] == Exchanging(Name(0), 0, 0)
    && (forall i: nat :: 0 < i <= n ==> st.requests[i] == Waiting(Name(i), i))
  }

  lemma CrowdGrows(st: State, n: nat)
    requires IsCrowd(st, n)
    ensures Possible(st, Arrive(n + 1, Name(n + 1))) && IsCrowd(Arrived(st, n + 1, Name(n + 1)), n + 1)
  {
    assert forall i: nat :: |Name(i)| == i + 1;
    assert NamesUpTo(n + 2) == NamesUpTo(n + 1) + {Name(n + 1)};
  }

  lemma CrowdOfOne()
    ensures Possible(Initial(0), Arrive(0, Name(0)))
    ensures var arrived := Arrived(Initial(0), 0, Name(0));
            && Possible(arrived, Enter(0, 0)) && |arrived.locks| <= 1 && IsCrowd(Entered(arrived, 0, 0), 0)
  {
    var arrived := Arrived(Initial(0), 0, Name(0));
    assert arrived.locks == map[Name(0) := 0];
    assert NamesUpTo(1) == {Name(0)};
    assert arrived.requests == map[0 := Waiting(Name(0), 0)];
    assert Entered(arrived, 0, 0).requests == map[0 := Exchanging(Name(0), 0, 0)];
  }

  lemma {:induction false} CrowdArrives(n: nat) returns (states: seq<State>, events: seq<Event>)
    ensures IsRun(states, events) && TableWithin(states, events, 1) && IsCrowd(states[|events|], n)
  {
    hide IsCrowd, Possible, Arrived, Entered, Name;
    if n == 0 {
      CrowdOfOne();
      states, events := [Initial(0)], [];
      states, events := OneMore(states, events, Arrive(0, Name(0)), 1);
      states, events := OneMore(states, events, Enter(0, 0), 1);
    } else {
      states, events := CrowdArrives(n - 1);
      CrowdGrows(states[|events|], n - 1);
      states, events := OneMore(states, events, Arrive(n, Name(n)), 1);
    }
  }

  /** From nothing, 514 requests with 513 tokens come to exchange one of them twice at once. */
  lemma CrowdOverlaps() returns (states: seq<State>, events: seq<Event>)
    ensures IsRun(states, events) && TableWithin(states, events, MAX_LOCKS + 1) && !NeverOverlap(states)
  {
    hide Invariant, IsRun, Possible, Entered, Arrived, Name, IsCrowd;
    var n := MAX_LOCKS + 1;
    states, events := CrowdArrives(MAX_LOCKS);
    RunKeepsInvariant(states, events, |events|);
    var crowd := states[|events|];
    CrowdIsLarge(crowd);
    SweepBreaksSingleFlight(crowd, 0, 1, n, 0);
    assert TableWithin(states, events, n);
    states, events := OneMore(states, events, Enter(1, 0), n);
    states, events := OneMore(states, events, Arrive(n, Name(0)), n);
    states, events := OneMore(states, events, Enter(n, 0), n);
    var st := states[|events|];
    assert BothExchange(st.requests[0], st.requests[n]);
    assert !NoOverlap(st);
  }

  lemma CrowdIsLarge(st: State)
    requires IsCrowd(st, MAX_LOCKS)
    ensures |st.locks| == MAX_LOCKS + 1 && Possible(st, Enter(1, 0)) && MAX_LOCKS + 1 !in st.requests
    ensures 0 in st.requests && 1 in st.requests
    ensures st.requests[0] == Exchanging(Name(0), 0, 0) && st.requests[1].key != Name(0) && Name(0) !in st.results
    ensures |Arrived(Entered(st, 1, 0), MAX_LOCKS + 1, Name(0)).locks| <= MAX_LOCKS
  {
    NamesDistinct(MAX_LOCKS + 1);
    assert |Name(0)| == 1 && |Name(1)| == 2;
    assert |st.locks| == |st.locks.Keys|;
    assert Entered(st, 1, 0).locks == map[];
  }

  /** Exchanges of one token never overlap in every run whose table holds at most `n` locks
      whenever a request enters, if and only if `n` is at most `MAX_LOCKS`. */
  lemma LockTableLimit(n: nat)
    ensures (forall states, events :: IsRun(states, events) && TableWithin(states, events, n) ==> NeverOverlap(states))
            <==> n <= 512
  {
    hide Invariant, IsRun, NoOverlap;
    if n <= MAX_LOCKS {
      forall states, events | IsRun(states, events) && TableWithin(states, events, n)
        ensures NeverOverlap(states)
      {
        RunNeverOverlaps(states, events);
      }
    } else {
      var states, events := CrowdOverlaps();
    }
  }

  lemma RunNeverOverlaps(states: seq<State>, events: seq<Event>)
    requires IsRun(states, events) && TableWithin(states, events, MAX_LOCKS)
    ensures NeverOverlap(states)
  {
    forall k | 0 <= k < |states|
      ensures NoOverlap(states[k])
    {
      forall r1, r2 | r1 in states[k].requests && r2 in states[k].requests
                      && BothExchange(states[k].requests[r1], states[k].requests[r2])
        ensures r1 == r2
      {
        ExchangesNeverOverlap(states, events, k, r1, r2);
      }
    }
  }

  // ---------------------------------------------------------------- the dictionaries

  /** The module's two dictionaries, changed in place by every request. Who holds which lock, the
      requests and what has happened are kept for the specification only. */
  class RefreshState {
    var locks: map<Key, nat>
    var nextLock: nat
    var results: map<Key, Stored>
    ghost var held: map<nat, nat>
    ghost var requests: map<nat, Phase>
    ghost var clock: int
    ghost var log: seq<Entry>

    ghost function Now(): State
      reads this
    {
      State(locks, nextLock, results, held, requests, clock, log)
    }

    constructor (ghost now: int)
      ensures Now() == Initial(now) && Invariant(Now())
    {
      locks, nextLock, results := map[], 0, map[];
      held, requests, clock, log := map[], map[], now, [];
      new;
      InitialIsFine(now);
    }

    /** Up to waiting for the lock. */
    method LockFor(key: Key, ghost r: nat) returns (lock: nat)
      requires Possible(Now(), Arrive(r, key))
      modifies this
      ensures Now() == Arrived(old(Now()), r, key) && Now().requests[r] == Waiting(key, lock)
      ensures old(Invariant(Now())) ==> Invariant(Now())
    {
      ghost var before := Now();
      if key !in locks {
        locks := locks[key := nextLock];
        nextLock := nextLock + 1;
      }
      lock := locks[key];
      assert before.locks[key := lock] == locks;
      requests := requests[r := Waiting(key, lock)];
      if Invariant(before) {
        ArriveKeepsInvariant(before, r, key);
      }
      hide Invariant;
    }

    /** `_prune_refresh_state`. */
    method Prune(now: int)
      modifies this`locks, this`results
      ensures results == FreshResults(old(results), now)
      ensures locks == SweptLocks(old(locks), results)
      ensures forall key :: key in results <==> key in old(results) && now - old(results)[key].at <= 60
      ensures |old(locks)| <= 512 ==> locks == old(locks)
      ensures |old(locks)| > 512 ==> forall key :: key in locks <==> key in old(locks) && key in results
    {
      var left := results.Keys;
      while left != {}
        invariant left <= old(results).Keys && locks == old(locks)
        invariant forall k :: k in results <==> k in old(results) && (k in left || IsFresh(old(results)[k], now))
        invariant forall k :: k in results ==> results[k] == old(results)[k]
      {
        var k :| k in left;
        left := left - {k};
        if !IsFresh(results[k], now) {
          results := results - {k};
        }
      }
      assert results == FreshResults(old(results), now);
      if |locks| > MAX_LOCKS {
        var rest := locks.Keys;
        while rest != {}
          invariant rest <= old(locks).Keys && results == FreshResults(old(results), now)
          invariant forall k :: k in locks <==> k in old(locks) && (k in rest || k in results)
          invariant forall k :: k in locks ==> locks[k] == old(locks)[k]
        {
          var k :| k in rest;
          rest := rest - {k};
          if k !in results {
            locks := locks - {k};
          }
        }
      }
    }

    /** Inside the lock: the stored outcome, or None for a request that has to exchange. */
    method Enter(key: Key, now: int, ghost r: nat) returns (session: Option<Payload>)
      requires Possible(Now(), Event.Enter(r, now)) && requests[r].key == key
      modifies this
      ensures Now() == Entered(old(Now()), r, now)
      ensures Now().requests[r] == if session.Some? then Copied(key, session.value) else Exchanging(key, old(requests[r].lock), now)
      ensures old(Invariant(Now())) && |old(locks)| <= MAX_LOCKS ==> Invariant(Now())
    {
      hide Invariant;
      ghost var before := Now();
      Prune(now);
      clock := now;
      if key in results {
        session := Some(results[key].payload);
        log := log + [CopiedAt(key, now, results[key].payload)];
        requests := requests[r := Copied(key, results[key].payload)];
      } else {
        session := None;
        log := log + [Began(key, now)];
        held := held[requests[r].lock := r];
        requests := requests[r := Exchanging(key, requests[r].lock, now)];
      }
      if Invariant(before) && |before.locks| <= MAX_LOCKS {
        StepKeepsInvariant(before, Event.Enter(r, now));
      }
    }

    /** After the exchange: a success is kept, under the time the exchange began, and from then on
        it is the latest one of its token, which a request that enters within the window copies. */
    method Keep(key: Key, since: int, answer: Option<Payload>, ghost r: nat)
      requires r in requests && requests[r].Exchanging? && requests[r].key == key && requests[r].since == since
      modifies this
      ensures Now() == Answered(old(Now()), r, answer)
      ensures old(Invariant(Now())) ==> Invariant(Now())
      ensures answer.Some? ==> LastSuccess(log, key) == Some(Stored(since, answer.value))
      ensures answer.Some? ==> forall now :: now <= since + 60 ==>
                key in FreshResults(results, now) && FreshResults(results, now)[key].payload == answer.value
    {
      hide Invariant;
      ghost var before := Now();
      held := held - {requests[r].lock};
      if answer.Some? {
        results := results[key := Stored(since, answer.value)];
        requests := requests[r := Renewed(key, answer.value)];
        LastSuccessAppend(log, Succeeded(key, since, answer.value), key);
        log := log + [Succeeded(key, since, answer.value)];
      } else {
        requests := requests[r := Rejected(key)];
      }
      if Invariant(before) {
        StepKeepsInvariant(before, Answer(r, answer));
      }
    }
  }
}
