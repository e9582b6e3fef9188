/** The single-flight job queue (`jobs.py`). */
module JobQueue {
  import opened Collections
  import Sorting
  import opened Wrappers

  // Requests enqueue jobs at any time; one worker takes them in order and runs each to its end
  // before it takes the next. What the page asks meanwhile -- which job is in flight -- and the
  // index file are kept beside the queue.

  datatype Status = Queued | Running | Succeeded | Failed

  datatype Job = Job(id: string, createdAt: int, status: Status,
                     startedAt: Option<int>, finishedAt: Option<int>, exitCode: Option<int>)

  datatype Record = Record(id: string, status: Status)

  /** `jobs` with the order they were put in, the queue, the callbacks still to be run, the lines
      of the index, the job the worker holds, and what every listener was told so far. */
  datatype State = State(jobs: map<string, Job>, order: seq<string>, queue: seq<string>, callbacks: set<string>,
                         index: seq<Record>, current: Option<string>, heard: seq<seq<string>>)

  const EMPTY: State := State(map[], [], [], {}, [], None, [])

  predicate IsFinished(status: Status) {
    status.Succeeded? || status.Failed?
  }

  // ---------------------------------------------------------------- one step

  /** `enqueue`; the id is a fresh UUID. */
  function Enqueued(st: State, id: string, now: int): State {
    st.(jobs := st.jobs[id := Job(id, now, Queued, None, None, None)],
        order := st.order + [id],
        callbacks := st.callbacks + {id},
        index := st.index + [Record(id, Queued)],
        queue := st.queue + [id])
  }

  /** The worker takes the next id. One without a job or a callback is passed over. */
  function Taken(st: State, now: int): State
    requires st.queue != []
  {
    var id := st.queue[0];
    if id !in st.jobs || id !in st.callbacks then st.(queue := st.queue[1..], callbacks := st.callbacks - {id})
    else
      st.(queue := st.queue[1..],
          callbacks := st.callbacks - {id},
          jobs := st.jobs[id := st.jobs[id].(status := Running, startedAt := Some(now))],
          index := st.index + [Record(id, Running)],
          current := Some(id))
  }

  /** The callback has returned or raised: record it and tell every listener. A listener that
      raises changes nothing. */
  function Ended(st: State, ok: bool, now: int): State
    requires st.current.Some? && st.current.value in st.jobs
  {
    var id := st.current.value;
    var status := if ok then Succeeded else Failed;
    st.(jobs := st.jobs[id := st.jobs[id].(status := status, exitCode := Some(if ok then 0 else 1), finishedAt := Some(now))],
        index := st.index + [Record(id, status)],
        current := None,
        heard := seq(|st.heard|, i requires 0 <= i < |st.heard| => st.heard[i] + [id]))
  }

  function Listening(st: State): State {
    st.(heard := st.heard + [[]])
  }

  datatype Event =
    | Enqueue(id: string, now: int)
    | Take(now: int)
    | End(ok: bool, now: int)
    | Listen

  predicate Possible(st: State, e: Event) {
    match e
    case Enqueue(id, _) => id !in st.jobs
    case Take(_) => st.queue != [] && st.current.None?
    case End(_, _) => st.current.Some? && st.current.value in st.jobs
    case Listen => true
  }

  function Next(st: State, e: Event): State
    requires Possible(st, e)
  {
    match e
    case Enqueue(id, now) => Enqueued(st, id, now)
    case Take(now) => Taken(st, now)
    case End(ok, now) => Ended(st, ok, now)
    case Listen => Listening(st)
  }

  // ---------------------------------------------------------------- which job is in flight

  predicate Older(a: Job, b: Job) {
    a.createdAt < b.createdAt
  }

  /** `sorted(jobs, key=created_at)`, which keeps the order of jobs created at the same time. */
  function ByCreation(jobs: seq<Job>): seq<Job> {
    Sorting.Sorted(jobs, Older)
  }

  function FirstUnfinished(jobs: seq<Job>): Option<Job> {
    if jobs == [] then None
    else if !IsFinished(jobs[0].status) then Some(jobs[0])
    else FirstUnfinished(jobs[1..])
  }

  ghost predicate Known(st: State) {
    forall id :: id in st.order ==> id in st.jobs
  }

  function InOrder(st: State): seq<Job>
    requires Known(st)
  {
    seq(|st.order|, i requires 0 <= i < |st.order| => assert st.order[i] in st.order; st.jobs[st.order[i]])
  }

  /** `active_job`. */
  function ActiveJob(st: State): Option<Job>
    requires Known(st)
  {
    FirstUnfinished(ByCreation(InOrder(st)))
  }

  // ---------------------------------------------------------------- what every run keeps

  /** How many jobs are finished: the ones before what the worker holds and what is queued. */
  function FinishedCount(st: State): int {
    |st.order| - |st.queue| - if st.current.Some? then 1 else 0
  }

  ghost predicate Books(st: State) {
    && Distinct(st.order) && (forall i :: 0 <= i < |st.order| ==> st.order[i] in st.jobs)
    && (forall id :: id in st.jobs ==> id in st.order && st.jobs[id].id == id)
  }

  /** What is queued is the end of the order, and exactly that still has a callback. */
  ghost predicate Waits(st: State) {
    && |st.queue| <= |st.order| && st.queue == st.order[|st.order| - |st.queue|..]
    && (forall id :: id in st.callbacks <==> id in st.queue)
  }

  /** In the order of their enqueueing: finished jobs, then the one that runs, then queued ones. */
  ghost predicate Ranks(st: State) {
    var n := FinishedCount(st);
    && 0 <= n && n <= |st.order| && (st.current.Some? ==> n < |st.order| && st.order[n] == st.current.value)
    && (forall i :: 0 <= i < |st.order| ==> st.order[i] in st.jobs && FitsRank(st, n, i))
  }

  ghost predicate FitsRank(st: State, n: int, i: nat)
    requires i < |st.order| && st.order[i] in st.jobs
  {
    var status := st.jobs[st.order[i]].status;
    if i < n then IsFinished(status)
    else if i == n && st.current.Some? then status == Running
    else status == Queued
  }

  ghost predicate Shape(st: State) {
    Books(st) && Waits(st) && Ranks(st)
  }

  /** The lines of the index about one job. */
  function Lines(index: seq<Record>, id: string): seq<Status> {
    if index == [] then []
    else Lines(index[..|index| - 1], id) + if index[|index| - 1].id == id then [index[|index| - 1].status] else []
  }

  /** The states a job in `status` has been through. */
  function Course(status: Status): seq<Status> {
    match status
    case Queued => [Queued]
    case Running => [Queued, Running]
    case _ => [Queued, Running, status]
  }

  ghost predicate IndexReplays(st: State) {
    && (forall id :: id in st.jobs ==> Lines(st.index, id) == Course(st.jobs[id].status))
    && (forall id :: id !in st.jobs ==> Lines(st.index, id) == [])
  }

  /** Every listener was told a block of the finished jobs, in order, up to the latest one. */
  ghost predicate ListenersHeard(st: State) {
    var n := FinishedCount(st);
    0 <= n && forall l :: 0 <= l < |st.heard| ==> |st.heard[l]| <= n && st.heard[l] == st.order[n - |st.heard[l]|..n]
  }

  ghost predicate Invariant(st: State) {
    Shape(st) && IndexReplays(st) && ListenersHeard(st)
  }

  lemma LinesAppend(index: seq<Record>, r: Record, id: string)
    ensures Lines(index + [r], id) == Lines(index, id) + if r.id == id then [r.status] else []
  {
    assert (index + [r])[..|index|] == index;
  }

  lemma IndexFollows(st: State, st': State, r: Record)
    requires IndexReplays(st) && st'.index == st.index + [r] && st'.jobs.Keys == st.jobs.Keys + {r.id}
    requires forall id :: id in st.jobs && id != r.id ==> st'.jobs[id].status == st.jobs[id].status
    requires st'.jobs[r.id].status == r.status
    requires Course(r.status) == (if r.id in st.jobs then Course(st.jobs[r.id].status) else []) + [r.status]
    ensures IndexReplays(st')
  {
    forall id: string
      ensures Lines(st'.index, id) == Lines(st.index, id) + if r.id == id then [r.status] else []
    {
      LinesAppend(st.index, r, id);
    }
  }

  lemma EnqueueKeepsInvariant(st: State, id: string, now: int)
    requires Invariant(st) && id !in st.jobs
    ensures Invariant(Enqueued(st, id, now))
  {
    hide Books, Waits, Ranks, IndexReplays, ListenersHeard;
    IndexFollows(st, Enqueued(st, id, now), Record(id, Queued));
    EnqueueKeepsBooks(st, id, now);
    EnqueueKeepsWaits(st, id, now);
    EnqueueKeepsRanks(st, id, now);
    EnqueueKeepsHeard(st, id, now);
  }

  lemma EnqueueKeepsBooks(st: State, id: string, now: int)
    requires Books(st) && id !in st.jobs
    ensures Books(Enqueued(st, id, now))
  {
    var st' := Enqueued(st, id, now);
    assert forall i :: 0 <= i < |st.order| ==> st'.order[i] == st.order[i];
    assert st'.order[|st.order|] == id;
    assert forall x :: x in st.order ==> x in st'.order;
  }

  lemma EnqueueKeepsWaits(st: State, id: string, now: int)
    requires Waits(st)
    ensures Waits(Enqueued(st, id, now))
  {
  }

  lemma EnqueueKeepsRanks(st: State, id: string, now: int)
    requires Ranks(st) && id !in st.jobs
    ensures Ranks(Enqueued(st, id, now))
  {
    var st', n := Enqueued(st, id, now), FinishedCount(st);
    forall i | 0 <= i < |st'.order|
      ensures st'.order[i] in st'.jobs && FitsRank(st', n, i)
    {
      if i < |st.order| {
        assert st'.order[i] == st.order[i] && FitsRank(st, n, i);
      }
    }
  }

  lemma EnqueueKeepsHeard(st: State, id: string, now: int)
    requires ListenersHeard(st) && FinishedCount(st) <= |st.order|
    ensures ListenersHeard(Enqueued(st, id, now))
  {
    var n := FinishedCount(st);
    forall l | 0 <= l < |st.heard|
      ensures st.heard[l] == (st.order + [id])[n - |st.heard[l]|..n]
    {
      assert st.order[n - |st.heard[l]|..n] == (st.order + [id])[n - |st.heard[l]|..n];
    }
  }

  lemma NextIsQueued(st: State)
    requires Shape(st) && st.queue != [] && st.current.None?
    ensures st.queue[0] in st.jobs && st.queue[0] in st.callbacks && st.jobs[st.queue[0]].status == Queued
    ensures st.order[FinishedCount(st)] == st.queue[0]
  {
    assert FitsRank(st, FinishedCount(st), FinishedCount(st));
  }

  lemma TakeKeepsWaits(st: State, now: int)
    requires Books(st) && Waits(st) && st.queue != [] && st.queue[0] in st.jobs && st.queue[0] in st.callbacks
    ensures Waits(Taken(st, now))
  {
    var id, k := st.queue[0], |st.order| - |st.queue|;
    assert st.queue == [id] + st.queue[1..];
    forall x | x in st.queue[1..]
      ensures x != id
    {
      var i :| 0 <= i < |st.queue[1..]| && st.queue[1..][i] == x;
      assert st.order[k] == id && st.order[k + 1 + i] == x;
    }
  }

  lemma TakeKeepsRanks(st: State, now: int)
    requires Shape(st) && st.queue != [] && st.current.None?
    requires st.queue[0] in st.jobs && st.queue[0] in st.callbacks && st.order[FinishedCount(st)] == st.queue[0]
    ensures Ranks(Taken(st, now))
  {
    var st', n := Taken(st, now), FinishedCount(st);
    forall i | 0 <= i < |st'.order|
      ensures st'.order[i] in st'.jobs && FitsRank(st', n, i)
    {
      assert FitsRank(st, n, i);
      assert i != n ==> st.order[i] != st.order[n];
    }
  }

  lemma TakeKeepsInvariant(st: State, now: int)
    requires Invariant(st) && Possible(st, Take(now))
    ensures Invariant(Taken(st, now))
  {
    hide Books, Waits, Ranks, IndexReplays, ListenersHeard;
    NextIsQueued(st);
    TakeKeepsBooks(st, now);
    TakeKeepsWaits(st, now);
    TakeKeepsRanks(st, now);
    TakeKeepsHeard(st, now);
    IndexFollows(st, Taken(st, now), Record(st.queue[0], Running));
  }

  lemma TakeKeepsBooks(st: State, now: int)
    requires Books(st) && st.queue != [] && st.queue[0] in st.jobs && st.queue[0] in st.callbacks
    ensures Books(Taken(st, now))
  {
  }

  lemma TakeKeepsHeard(st: State, now: int)
    requires ListenersHeard(st) && st.current.None? && st.queue != [] && st.queue[0] in st.jobs && st.queue[0] in st.callbacks
    requires FinishedCount(st) <= |st.order|
    ensures ListenersHeard(Taken(st, now))
  {
  }

  lemma RunningIsRunning(st: State)
    requires Ranks(st) && st.current.Some?
    ensures st.current.value in st.jobs && st.jobs[st.current.value].status == Running
  {
    assert FitsRank(st, FinishedCount(st), FinishedCount(st));
  }

  lemma EndKeepsRanks(st: State, ok: bool, now: int)
    requires Books(st) && Ranks(st) && Possible(st, End(ok, now))
    ensures Ranks(Ended(st, ok, now))
  {
    var st', n := Ended(st, ok, now), FinishedCount(st);
    forall i | 0 <= i < |st'.order|
      ensures st'.order[i] in st'.jobs && FitsRank(st', n + 1, i)
    {
      assert FitsRank(st, n, i);
      assert i != n ==> st.order[i] != st.order[n];
    }
  }

  lemma EndKeepsHeard(st: State, ok: bool, now: int)
    requires Ranks(st) && ListenersHeard(st) && Possible(st, End(ok, now))
    ensures ListenersHeard(Ended(st, ok, now))
  {
    var n, id := FinishedCount(st), st.current.value;
    forall l | 0 <= l < |st.heard|
      ensures st.heard[l] + [id] == st.order[n - |st.heard[l]|..n + 1]
    {
      assert st.order[n - |st.heard[l]|..n + 1] == st.order[n - |st.heard[l]|..n] + [id];
    }
  }

  lemma EndKeepsInvariant(st: State, ok: bool, now: int)
    requires Invariant(st) && Possible(st, End(ok, now))
    ensures Invariant(Ended(st, ok, now))
  {
    hide Books, Waits, Ranks, IndexReplays, ListenersHeard;
    RunningIsRunning(st);
    EndKeepsBooks(st, ok, now);
    EndKeepsWaits(st, ok, now);
    EndKeepsRanks(st, ok, now);
    EndKeepsHeard(st, ok, now);
    IndexFollows(st, Ended(st, ok, now), Record(st.current.value, if ok then Succeeded else Failed));
  }

  lemma EndKeepsBooks(st: State, ok: bool, now: int)
    requires Books(st) && Possible(st, End(ok, now))
    ensures Books(Ended(st, ok, now))
  {
  }

  lemma EndKeepsWaits(st: State, ok: bool, now: int)
    requires Waits(st) && Possible(st, End(ok, now))
    ensures Waits(Ended(st, ok, now))
  {
  }

  lemma ListenKeepsInvariant(st: State)
    requires Invariant(st)
    ensures Invariant(Listening(st))
  {
    hide Books, IndexReplays, Lines, Course;
    SameBooks(st, Listening(st));
  }

  lemma SameBooks(st: State, st': State)
    requires st'.jobs == st.jobs && st'.order == st.order && st'.index == st.index
    ensures Books(st) ==> Books(st')
    ensures IndexReplays(st) ==> IndexReplays(st')
  {
  }

  lemma StepKeepsInvariant(st: State, e: Event)
    requires Invariant(st) && Possible(st, e)
    ensures Invariant(Next(st, e))
  {
    hide Invariant, Enqueued, Taken, Ended, Listening;
    match e
    case Enqueue(id, now) => EnqueueKeepsInvariant(st, id, now);
    case Take(now) => TakeKeepsInvariant(st, now);
    case End(ok, now) => EndKeepsInvariant(st, ok, now);
    case Listen => ListenKeepsInvariant(st);
  }

  ghost predicate IsRun(states: seq<State>, events: seq<Event>) {
    && |states| == |events| + 1 && states[0] == EMPTY
    && forall k :: 0 <= k < |events| ==> Possible(states[k], events[k]) && states[k + 1] == Next(states[k], events[k])
  }

  /** In every reachable state jobs lie in the order they came: finished ones, at most one that
      runs, queued ones. The lines of the index tell each job's course up to its status, and
      every listener has heard a block of finished jobs, each once and in order. */
  lemma {:induction false} EveryRun(states: seq<State>, events: seq<Event>, k: nat)
    requires IsRun(states, events) && k <= |events|
    ensures Invariant(states[k])
  {
    hide Invariant, Possible, Next;
    if k > 0 {
      EveryRun(states, events, k - 1);
      StepKeepsInvariant(states[k - 1], events[k - 1]);
    } else {
      EmptyIsFine();
    }
  }

  lemma IdsMatch(st: State)
    requires Invariant(st)
    ensures forall id :: id in st.jobs ==> st.jobs[id].id == id
  {
  }

  lemma EmptyIsFine()
    ensures Invariant(EMPTY)
  {
  }

  /** No job is passed over or run twice: a step moves a job only along its course. */
  lemma StepMovesAlong(st: State, e: Event, id: string)
    requires Invariant(st) && Possible(st, e) && id in st.jobs
    ensures e.Enqueue? ==> e.id != id
    ensures id in Next(st, e).jobs && Course(st.jobs[id].status) <= Course(Next(st, e).jobs[id].status)
    ensures e.Take? ==> Next(st, e).current == Some(st.queue[0])
  {
    hide Books, Waits, Ranks, IndexReplays, ListenersHeard;
    match e
    case Take(now) => NextIsQueued(st);
    case End(ok, now) => RunningIsRunning(st);
    case _ =>
  }

  // ---------------------------------------------------------------- a job's course, from the events

  ghost predicate Takes(st: State, e: Event, id: string) {
    e.Take? && st.queue != [] && st.queue[0] == id
  }

  ghost predicate Closes(st: State, e: Event, id: string) {
    e.End? && st.current == Some(id)
  }

  /** What one event makes of a job that is there. */
  ghost predicate Becomes(st: State, e: Event, job: Job, job': Job) {
    if Takes(st, e, job.id) then job' == Job(job.id, job.createdAt, Running, Some(e.now), job.finishedAt, job.exitCode)
    else if Closes(st, e, job.id) then
      job' == Job(job.id, job.createdAt, if e.ok then Succeeded else Failed, job.startedAt, Some(e.now), Some(if e.ok then 0 else 1))
    else job' == job
  }

  lemma StepBecomes(st: State, e: Event, id: string)
    requires Invariant(st) && Possible(st, e) && id in Next(st, e).jobs
    ensures id in st.jobs ==> Becomes(st, e, st.jobs[id], Next(st, e).jobs[id])
    ensures id !in st.jobs ==> e.Enqueue? && e.id == id && Next(st, e).jobs[id] == Job(id, e.now, Queued, None, None, None)
    ensures Takes(st, e, id) ==> id in st.jobs && st.jobs[id].status == Queued
    ensures Closes(st, e, id) ==> id in st.jobs && st.jobs[id].status == Running
  {
    hide Books, Waits, Ranks, IndexReplays, ListenersHeard;
    IdsMatch(st);
    if e.Take? {
      NextIsQueued(st);
    } else if e.End? {
      RunningIsRunning(st);
    }
  }

  ghost predicate WasEnqueued(events: seq<Event>, k: nat, id: string, at: int)
    requires k <= |events|
  {
    exists a :: 0 <= a < k && events[a] == Enqueue(id, at)
  }

  ghost predicate WasTaken(states: seq<State>, events: seq<Event>, k: nat, id: string, at: Option<int>)
    requires k <= |events| && |events| < |states|
  {
    exists t :: 0 <= t < k && Takes(states[t], events[t], id) && at == Some(events[t].now)
  }

  ghost predicate WasClosed(states: seq<State>, events: seq<Event>, k: nat, id: string, ok: bool, at: Option<int>)
    requires k <= |events| && |events| < |states|
  {
    exists e :: 0 <= e < k && Closes(states[e], events[e], id) && events[e].ok == ok && at == Some(events[e].now)
  }

  /** The events before `k` that made a job what it is. */
  ghost predicate HasCourse(states: seq<State>, events: seq<Event>, k: nat, job: Job)
    requires k <= |events| && |events| < |states|
  {
    && WasEnqueued(events, k, job.id, job.createdAt)
    && match job.status
       case Queued => job.startedAt.None? && job.finishedAt.None? && job.exitCode.None?
       case Running =>
         WasTaken(states, events, k, job.id, job.startedAt) && job.finishedAt.None? && job.exitCode.None?
       case Succeeded =>
         && WasTaken(states, events, k, job.id, job.startedAt)
         && WasClosed(states, events, k, job.id, true, job.finishedAt) && job.exitCode == Some(0)
       case Failed =>
         && WasTaken(states, events, k, job.id, job.startedAt)
         && WasClosed(states, events, k, job.id, false, job.finishedAt) && job.exitCode == Some(1)
  }

  lemma CourseGoesOn(states: seq<State>, events: seq<Event>, k: nat, job: Job, job': Job)
    requires k < |events| && |events| < |states| && HasCourse(states, events, k, job)
    requires Becomes(states[k], events[k], job, job')
    requires Takes(states[k], events[k], job.id) ==> job.status == Queued
    requires Closes(states[k], events[k], job.id) ==> job.status == Running
    ensures HasCourse(states, events, k + 1, job')
  {
    hide Takes, Closes;
  }

  /** In every reachable state a job's status, times and exit code are those that the events gave
      it: succeeded with exit code 0 if its callback returned, failed with 1 if it raised. */
  lemma {:induction false} EveryJobHasItsCourse(states: seq<State>, events: seq<Event>, k: nat, id: string)
    requires IsRun(states, events) && k <= |events| && id in states[k].jobs
    ensures states[k].jobs[id].id == id && HasCourse(states, events, k, states[k].jobs[id])
  {
    hide Invariant, Possible, Next, Becomes, HasCourse, Takes, Closes;
    EveryRun(states, events, k);
    IdsMatch(states[k]);
    if k > 0 {
      EveryRun(states, events, k - 1);
      IdsMatch(states[k - 1]);
      StepBecomes(states[k - 1], events[k - 1], id);
      if id in states[k - 1].jobs {
        EveryJobHasItsCourse(states, events, k - 1, id);
        CourseGoesOn(states, events, k - 1, states[k - 1].jobs[id], states[k].jobs[id]);
      } else {
        CourseBegins(states, events, k, states[k].jobs[id]);
      }
    }
  }

  lemma CourseBegins(states: seq<State>, events: seq<Event>, k: nat, job: Job)
    requires 0 < k <= |events| && |events| < |states| && events[k - 1] == Enqueue(job.id, job.createdAt)
    requires job == Job(job.id, job.createdAt, Queued, None, None, None)
    ensures HasCourse(states, events, k, job)
  {
  }

  /** And what an end decided stays: a job is closed once. */
  lemma {:induction false} EndDecides(states: seq<State>, events: seq<Event>, e: nat, k: nat, id: string)
    requires IsRun(states, events) && e < k <= |events| && Closes(states[e], events[e], id)
    ensures id in states[k].jobs
    ensures var job := states[k].jobs[id];
            && job.status == (if events[e].ok then Succeeded else Failed)
            && job.exitCode == Some(if events[e].ok then 0 else 1) && job.finishedAt == Some(events[e].now)
    decreases k
  {
    hide Invariant, Next, Takes;
    EveryRun(states, events, k - 1);
    IdsMatch(states[k - 1]);
    if k - 1 > e {
      EndDecides(states, events, e, k - 1, id);
    }
    hide Possible;
    StepKeepsJobs(states[k - 1], events[k - 1], id);
    StepBecomes(states[k - 1], events[k - 1], id);
  }

  lemma StepKeepsJobs(st: State, e: Event, id: string)
    requires Possible(st, e) && id in st.jobs
    ensures id in Next(st, e).jobs
  {
  }

  // ---------------------------------------------------------------- the job that is shown

  /** The jobs lie in the order of their times. */
  ghost predicate CreatedInOrder(jobs: seq<Job>) {
    Sorting.InOrder(jobs, Older)
  }

  lemma {:induction false} FirstAfterFinished(jobs: seq<Job>, n: nat)
    requires n <= |jobs| && forall i :: 0 <= i < n ==> IsFinished(jobs[i].status)
    requires n < |jobs| ==> !IsFinished(jobs[n].status)
    ensures FirstUnfinished(jobs) == if n < |jobs| then Some(jobs[n]) else None
    decreases n
  {
    if n > 0 {
      FirstAfterFinished(jobs[1..], n - 1);
    }
  }

  /** With a clock that does not go back, the job that is shown is the one that runs if there is
      one, otherwise the next one, and none exactly when the queue is idle. */
  lemma ActiveIsTheRunningJob(st: State)
    requires Invariant(st) && Known(st) && CreatedInOrder(InOrder(st))
    ensures st.current.Some? ==> st.current.value in st.jobs && ActiveJob(st) == Some(st.jobs[st.current.value])
    ensures st.current.None? && st.queue != [] ==> st.queue[0] in st.jobs && ActiveJob(st) == Some(st.jobs[st.queue[0]])
    ensures ActiveJob(st).None? <==> st.current.None? && st.queue == []
  {
    hide IndexReplays, ListenersHeard, FirstUnfinished, Books, FitsRank, Sorting.Sorted, Sorting.InOrder, InOrder;
    var jobs, n := InOrder(st), FinishedCount(st);
    Sorting.SortedStays(jobs, Older);
    JobRanks(st);
    FirstAfterFinished(jobs, n);
  }

  lemma JobRanks(st: State)
    requires Ranks(st) && Waits(st) && Known(st)
    ensures var jobs, n := InOrder(st), FinishedCount(st);
            && |jobs| == |st.order| && n <= |jobs| && (forall i :: 0 <= i < n ==> IsFinished(jobs[i].status))
            && (n < |jobs| ==> !IsFinished(jobs[n].status) && jobs[n] == st.jobs[st.order[n]])
            && (st.queue != [] && st.current.None? ==> st.order[n] == st.queue[0])
  {
    var n := FinishedCount(st);
    assert forall i :: 0 <= i < |st.order| ==> FitsRank(st, n, i);
  }

  /** Whatever the clock does, a job is shown exactly while one is queued or running. */
  lemma ActiveExactlyWhileBusy(st: State)
    requires Invariant(st) && Known(st)
    ensures ActiveJob(st).Some? <==> st.current.Some? || st.queue != []
  {
    var jobs, n := InOrder(st), FinishedCount(st);
    assert Sorting.IsOrdering(Older);
    Sorting.SortKeepsElements(jobs, Older);
    SomeUnfinished(ByCreation(jobs));
    BusyHasUnfinished(st);
    hide Shape, IndexReplays, ListenersHeard, Sorting.Sorted, FirstUnfinished, InOrder;
  }

  lemma BusyHasUnfinished(st: State)
    requires Ranks(st) && Known(st)
    ensures (exists job :: job in InOrder(st) && !IsFinished(job.status)) <==> st.current.Some? || st.queue != []
  {
    var jobs, n := InOrder(st), FinishedCount(st);
    assert forall i :: 0 <= i < |jobs| ==> jobs[i] == st.jobs[st.order[i]] && FitsRank(st, n, i);
    if n < |jobs| {
      assert jobs[n] in jobs;
    }
  }

  lemma {:induction false} SomeUnfinished(jobs: seq<Job>)
    ensures FirstUnfinished(jobs).Some? <==> exists i :: 0 <= i < |jobs| && !IsFinished(jobs[i].status)
  {
    if jobs != [] {
      SomeUnfinished(jobs[1..]);
      if exists i :: 0 <= i < |jobs[1..]| && !IsFinished(jobs[1..][i].status) {
        var i :| 0 <= i < |jobs[1..]| && !IsFinished(jobs[1..][i].status);
        assert !IsFinished(jobs[i + 1].status);
      }
      if exists i :: 1 <= i < |jobs| && !IsFinished(jobs[i].status) {
        var i :| 1 <= i < |jobs| && !IsFinished(jobs[i].status);
        assert !IsFinished(jobs[1..][i - 1].status);
      }
    }
  }

  /** The clock does not go back between two enqueueings. */
  ghost predicate ClockGoesOn(events: seq<Event>) {
    forall i, j :: 0 <= i < j < |events| && events[i].Enqueue? && events[j].Enqueue? ==> events[i].now <= events[j].now
  }

  /** Every job has the time of one of the enqueueings. */
  ghost predicate TimesOf(st: State, events: seq<Event>) {
    forall id :: id in st.jobs ==> exists i :: 0 <= i < |events| && events[i].Enqueue? && events[i].now == st.jobs[id].createdAt
  }

  lemma NextKeepsTimes(st: State, e: Event, events: seq<Event>)
    requires Possible(st, e) && TimesOf(st, events)
    ensures TimesOf(Next(st, e), events + [e])
  {
    var st', longer := Next(st, e), events + [e];
    assert longer[|events|] == e;
    forall id | id in st'.jobs
      ensures exists i :: 0 <= i < |longer| && longer[i].Enqueue? && longer[i].now == st'.jobs[id].createdAt
    {
      if e.Enqueue? && e.id == id {
        assert longer[|events|].now == st'.jobs[id].createdAt;
      } else {
        var i :| 0 <= i < |events| && events[i].Enqueue? && events[i].now == st.jobs[id].createdAt;
        assert longer[i] == events[i];
      }
    }
  }

  lemma NextKeepsOrder(st: State, e: Event)
    requires Invariant(st) && Possible(st, e) && Known(st) && CreatedInOrder(InOrder(st))
    requires e.Enqueue? ==> forall id :: id in st.jobs ==> st.jobs[id].createdAt <= e.now
    ensures Known(Next(st, e)) && CreatedInOrder(InOrder(Next(st, e)))
  {
    hide Waits, Ranks, IndexReplays, ListenersHeard;
    var before, after := InOrder(st), InOrder(Next(st, e));
    assert forall i :: 0 <= i < |before| ==> before[i].createdAt == after[i].createdAt;
    assert forall i :: 0 <= i < |before| ==> before[i] == st.jobs[st.order[i]];
  }

  /** With such a clock the jobs of every reachable state lie in the order of their times. */
  lemma {:induction false} RunIsCreatedInOrder(states: seq<State>, events: seq<Event>, k: nat)
    requires IsRun(states, events) && k <= |events| && ClockGoesOn(events)
    ensures Known(states[k]) && CreatedInOrder(InOrder(states[k])) && TimesOf(states[k], events[..k])
  {
    hide Invariant, Possible, Next, CreatedInOrder, TimesOf;
    if k == 0 {
      NothingCreated();
      assert events[..0] == [];
    } else {
      RunIsCreatedInOrder(states, events, k - 1);
      EveryRun(states, events, k - 1);
      NextKeepsTimes(states[k - 1], events[k - 1], events[..k - 1]);
      assert events[..k] == events[..k - 1] + [events[k - 1]];
      if events[k - 1].Enqueue? {
        LatestIsNow(states[k - 1], events, k - 1);
      }
      NextKeepsOrder(states[k - 1], events[k - 1]);
    }
  }

  lemma NothingCreated()
    ensures Known(EMPTY) && CreatedInOrder(InOrder(EMPTY)) && TimesOf(EMPTY, [])
  {
  }

  lemma LatestIsNow(st: State, events: seq<Event>, k: nat)
    requires k < |events| && events[k].Enqueue? && ClockGoesOn(events) && TimesOf(st, events[..k])
    ensures forall id :: id in st.jobs ==> st.jobs[id].createdAt <= events[k].now
  {
  }

  // ---------------------------------------------------------------- what a listener hears

  /** A listener that was there at `j` has since heard exactly the jobs that finished since, in
      order: none is missed, and none is told twice. */
  lemma {:induction false} EveryListenerHears(states: seq<State>, events: seq<Event>, j: nat, k: nat, l: nat)
    requires IsRun(states, events) && j <= k <= |events| && l < |states[j].heard|
    ensures var m, n := FinishedCount(states[j]), FinishedCount(states[k]);
            && l < |states[k].heard| && 0 <= m && m <= n && n <= |states[k].order|
            && states[k].heard[l] == states[j].heard[l] + states[k].order[m..n]
    decreases k
  {
    hide Invariant, Possible, Next, FinishedCount;
    EveryRun(states, events, k);
    RanksCount(states[k]);
    if j < k {
      EveryListenerHears(states, events, j, k - 1, l);
      EveryRun(states, events, k - 1);
      StepIsHeard(states[k - 1], events[k - 1], l);
      var m, n := FinishedCount(states[j]), FinishedCount(states[k - 1]);
      var n' := FinishedCount(states[k]);
      assert states[k].order[m..n'] == states[k - 1].order[m..n] + states[k].order[n..n'];
    } else {
      var n := FinishedCount(states[k]);
      assert states[k].order[n..n] == [];
    }
  }

  lemma RanksCount(st: State)
    requires Invariant(st)
    ensures 0 <= FinishedCount(st) && FinishedCount(st) <= |st.order|
  {
    hide Books, Waits, IndexReplays, ListenersHeard, FitsRank;
  }

  lemma StepIsHeard(st: State, e: Event, l: nat)
    requires Invariant(st) && Possible(st, e) && l < |st.heard|
    ensures var st' := Next(st, e);
            var n, n' := FinishedCount(st), FinishedCount(st');
            && 0 <= n && n <= n' && n' <= |st'.order| && st.order <= st'.order
            && l < |st'.heard| && st'.heard[l] == st.heard[l] + st'.order[n..n']
  {
    hide Waits, IndexReplays, ListenersHeard, FitsRank;
    var st' := Next(st, e);
    if e.Take? {
      NextIsThere(st);
    }
    var n := FinishedCount(st);
    assert e.End? ==> st'.order[n..n + 1] == [st.current.value];
  }

  lemma NextIsThere(st: State)
    requires Invariant(st) && st.queue != [] && st.current.None?
    ensures st.queue[0] in st.jobs && st.queue[0] in st.callbacks
  {
    hide Books, Waits, Ranks, IndexReplays, ListenersHeard;
    NextIsQueued(st);
  }

  // ---------------------------------------------------------------- the queue itself

  class Queue {
    var jobs: map<string, Job>
    var order: seq<string>
    var queue: seq<string>
    var callbacks: set<string>
    var index: seq<Record>
    var current: Option<string>
    var heard: seq<seq<string>>

    ghost function Now(): State
      reads this
    {
      State(jobs, order, queue, callbacks, index, current, heard)
    }

    constructor ()
      ensures Now() == EMPTY
    {
      jobs, order, queue, callbacks := map[], [], [], {};
      index, current, heard := [], None, [];
    }

    method AppendIndex(job: Job)
      modifies this`index
      ensures index == old(index) + [Record(job.id, job.status)]
    {
      index := index + [Record(job.id, job.status)];
    }

    method AddFinishedListener()
      modifies this
      ensures Now() == Listening(old(Now()))
    {
      heard := heard + [[]];
    }

    method EnqueueJob(id: string, now: int)
      requires Invariant(Now()) && Possible(Now(), Enqueue(id, now))
      modifies this
      ensures Now() == Enqueued(old(Now()), id, now) && Invariant(Now())
      ensures jobs == old(jobs)[id := Job(id, now, Queued, None, None, None)] && queue == old(queue) + [id]
    {
      hide Shape, IndexReplays, ListenersHeard, Invariant;
      ghost var before := Now();
      var job := Job(id, now, Queued, None, None, None);
      jobs := jobs[id := job];
      order := order + [id];
      callbacks := callbacks + {id};
      AppendIndex(job);
      queue := queue + [id];
      StepKeepsInvariant(before, Enqueue(id, now));
    }

    /** The worker up to the start of the callback. */
    method TakeJob(now: int)
      requires Invariant(Now()) && Possible(Now(), Take(now))
      modifies this
      ensures Now() == Taken(old(Now()), now) && Invariant(Now())
      ensures old(queue) != [] && current == Some(old(queue)[0]) && old(queue)[0] in old(jobs)
      ensures jobs == old(jobs)[old(queue)[0] := old(jobs)[old(queue)[0]].(status := Running, startedAt := Some(now))]
    {
      hide Shape, IndexReplays, ListenersHeard, Invariant;
      ghost var before := Now();
      StepKeepsInvariant(before, Take(now));
      var id := queue[0];
      queue := queue[1..];
      NextIsThere(before);
      var known := id in jobs && id in callbacks;
      callbacks := callbacks - {id};
      if !known {
        return;
      }
      var job := jobs[id].(status := Running, startedAt := Some(now));
      jobs := jobs[id := job];
      IdsMatch(before);
      AppendIndex(job);
      current := Some(id);
    }

    /** The worker from the end of the callback on. */
    method EndJob(ok: bool, now: int)
      requires Invariant(Now()) && Possible(Now(), End(ok, now))
      modifies this
      ensures Now() == Ended(old(Now()), ok, now) && Invariant(Now())
      ensures old(current).Some? && old(current).value in old(jobs)
      ensures var was := old(jobs)[old(current).value];
              jobs == old(jobs)[was.id := Job(was.id, was.createdAt, if ok then Succeeded else Failed, was.startedAt,
                                              Some(now), Some(if ok then 0 else 1))]
    {
      hide Shape, IndexReplays, ListenersHeard, Invariant;
      ghost var before := Now();
      StepKeepsInvariant(before, End(ok, now));
      var id := current.value;
      var job := jobs[id];
      job := if ok then job.(status := Succeeded, exitCode := Some(0)) else job.(status := Failed, exitCode := Some(1));
      job := job.(finishedAt := Some(now));
      jobs := jobs[id := job];
      IdsMatch(before);
      AppendIndex(job);
      current := None;
      NotifyFinished(id);
    }

    /** `_notify_finished`: every listener in turn. */
    method NotifyFinished(id: string)
      modifies this`heard
      ensures heard == seq(|old(heard)|, i requires 0 <= i < |old(heard)| => old(heard)[i] + [id])
    {
      var told: seq<seq<string>> := [];
      var i := 0;
      while i < |heard|
        invariant i <= |heard| && heard == old(heard)
        invariant |told| == i && forall k :: 0 <= k < i ==> told[k] == heard[k] + [id]
      {
        told := told + [heard[i] + [id]];
        i := i + 1;
      }
      heard := told;
    }

    /** `active_job`: the first unfinished one of the jobs, oldest first. */
    method FindActiveJob() returns (active: Option<Job>)
      requires Known(Now())
      ensures active == ActiveJob(Now())
    {
      var oldest := ByCreation(InOrder(State(jobs, order, queue, callbacks, index, current, heard)));
      var i := 0;
      assert oldest[0..] == oldest;
      while i < |oldest|
        invariant i <= |oldest| && FirstUnfinished(oldest[i..]) == FirstUnfinished(oldest)
      {
        if oldest[i].status == Queued || oldest[i].status == Running {
          return Some(oldest[i]);
        }
        assert oldest[i..][1..] == oldest[i + 1..];
        i := i + 1;
      }
      active := None;
    }
  }
}
