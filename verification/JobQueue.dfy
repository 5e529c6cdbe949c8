/** The job queue, as atomic steps of any number of threads: both operations hold the lock, one of them waits for a
    token first. */
module JobQueue {
  import opened Wrappers
  import opened T = Threads

  type Job = int

  /** Where a thread is.  From Pushing or Popping on, it has the lock.  It may leave with a job that it got. */
  datatype Pc =
    | Out
    | Adding(job: Job)
    | Pushing(job: Job)
    | Releasing
    | Getting
    | Holding
    | Popping
    | Leaving(got: Option<Job>)

  type Threads = map<Tid, Pc>

  /** `pushed`, `delivered` and `lost` record what has happened; the program has no such fields. */
  datatype State = State(jobs: seq<Job>, tokens: nat, lock: Option<Tid>, threads: Threads, pushed: seq<Job>,
                         delivered: seq<Job>, lost: nat)

  datatype Action = AddJob(job: Job) | LockToPush | Push | Release | GetJob | Acquire | LockToPop | Pop | Unlock

  type Event = T.Event<Action>

  /** A step is taken, cannot be taken now, or takes the front of an empty list. */
  datatype Result = Next(state: State) | Blocked | EmptyPop

  const MAX_JOBS := 1000

  const Start: State := State([], 0, None, map[], [], [], 0)

  function At(threads: Threads, t: Tid): Pc {
    T.At(threads, t, Out)
  }

  function Go(s: State, t: Tid, pc: Pc): State {
    s.(threads := s.threads[t := pc])
  }

  function Step(s: State, e: Event): Result {
    var t, pc := e.thread, At(s.threads, e.thread);
    match e.action
    case AddJob(job) => if pc == Out then Next(Go(s, t, Adding(job))) else Blocked
    case LockToPush =>
      if pc.Adding? && s.lock == None then Next(Go(s.(lock := Some(t)), t, Pushing(pc.job))) else Blocked
    case Push =>
      if pc.Pushing? then Next(Go(s.(jobs := s.jobs + [pc.job], pushed := s.pushed + [pc.job]), t, Releasing))
      else Blocked
    case Release =>
      // a release that finds the semaphore full fails, and nobody looks at the result
      if pc != Releasing then Blocked
      else if s.tokens < MAX_JOBS then Next(Go(s.(tokens := s.tokens + 1), t, Leaving(None)))
      else Next(Go(s.(lost := s.lost + 1), t, Leaving(None)))
    case GetJob => if pc == Out then Next(Go(s, t, Getting)) else Blocked
    case Acquire => if pc == Getting && s.tokens > 0 then Next(Go(s.(tokens := s.tokens - 1), t, Holding)) else Blocked
    case LockToPop => if pc == Holding && s.lock == None then Next(Go(s.(lock := Some(t)), t, Popping)) else Blocked
    case Pop =>
      if pc != Popping then Blocked
      else if s.jobs == [] then EmptyPop
      else Next(Go(s.(jobs := s.jobs[1..], delivered := s.delivered + [s.jobs[0]]), t, Leaving(Some(s.jobs[0]))))
    case Unlock => if pc.Leaving? then Next(Go(s.(lock := None), t, Out)) else Blocked
  }

  function Run(s: State, events: seq<Event>): Result
    decreases |events|
  {
    if events == [] then Next(s)
    else
      var before := Run(s, events[..|events| - 1]);
      if before.Next? then Step(before.state, events[|events| - 1]) else before
  }

  // ---------- the invariant ----------

  /** With a token, and the job still in the list. */
  predicate Holds(pc: Pc) {
    pc == Holding || pc == Popping
  }

  /** Pushed, and not yet released. */
  predicate Pushed(pc: Pc) {
    pc == Releasing
  }

  function Holders(threads: Threads): set<Tid> {
    T.Those(threads, Holds)
  }

  function Releasers(threads: Threads): set<Tid> {
    T.Those(threads, Pushed)
  }

  predicate HasLock(pc: Pc) {
    pc.Pushing? || pc == Releasing || pc == Popping || pc.Leaving?
  }

  ghost predicate LockOK(s: State) {
    forall t :: HasLock(At(s.threads, t)) <==> s.lock == Some(t)
  }

  ghost predicate Inv(s: State) {
    && |s.jobs| == s.tokens + |Holders(s.threads)| + |Releasers(s.threads)| + s.lost
    && s.tokens <= MAX_JOBS
    && LockOK(s)
    && s.delivered + s.jobs == s.pushed
  }

  lemma LockStep(s: State, e: Event)
    requires LockOK(s) && Step(s, e).Next?
    ensures LockOK(Step(s, e).state)
  {
    var s', t := Step(s, e).state, e.thread;
    assert forall u :: u != t ==> At(s'.threads, u) == At(s.threads, u);
    assert HasLock(At(s.threads, t)) <==> s.lock == Some(t);
  }

  /** A thread that comes to pop has a token, so there is a job for it. */
  lemma NeverEmpty(s: State, e: Event)
    requires Inv(s)
    ensures Step(s, e) != EmptyPop
  {
    if At(s.threads, e.thread) == Popping {
      assert e.thread in Holders(s.threads);
    }
  }

  lemma InvStep(s: State, e: Event)
    requires Inv(s) && Step(s, e).Next?
    ensures Inv(Step(s, e).state)
  {
    hide T.Those, LockOK;
    var s', t := Step(s, e).state, e.thread;
    T.OneMoves(s.threads, t, At(s'.threads, t), Out, Holds);
    T.OneMoves(s.threads, t, At(s'.threads, t), Out, Pushed);
    assert s'.threads == s.threads[t := At(s'.threads, t)];
    LockStep(s, e);
    if e.action == Pop {
      assert s.jobs == [s.jobs[0]] + s'.jobs;
    }
  }

  /** No run pops an empty list, and in every run the invariant holds. */
  lemma {:induction false} InvAlways(events: seq<Event>)
    ensures var r := Run(Start, events);
            r != EmptyPop && (r.Next? ==> Inv(r.state))
    decreases |events|
  {
    if events == [] {
      assert Holders(map[]) == {} && Releasers(map[]) == {};
    } else {
      var n := |events| - 1;
      InvAlways(events[..n]);
      var before := Run(Start, events[..n]);
      if before.Next? {
        NeverEmpty(before.state, events[n]);
        if Step(before.state, events[n]).Next? {
          InvStep(before.state, events[n]);
        }
      }
    }
  }

  /** The same, said of the program. */
  lemma Safety(events: seq<Event>)
    ensures Run(Start, events) != EmptyPop
    ensures Run(Start, events).Next? ==>
              var s := Run(Start, events).state;
              && s.tokens + |Holders(s.threads)| <= |s.jobs|
              && s.delivered + s.jobs == s.pushed
  {
    InvAlways(events);
  }

  // ---------- stranded jobs ----------

  /** Whenever one of the first `n` events was a release, the semaphore could count it. */
  ghost predicate ReleasesFit(events: seq<Event>, n: nat)
    requires n <= |events|
  {
    forall i :: 0 <= i < n ==> ReleaseFits(events, i)
  }

  ghost predicate ReleaseFits(events: seq<Event>, i: nat)
    requires i < |events|
  {
    var before := Run(Start, events[..i]);
    events[i].action == Release && before.Next? ==> before.state.tokens < 1000
  }

  /** There were never more jobs queued than the semaphore can count. */
  ghost predicate NeverMoreQueued(events: seq<Event>) {
    forall i :: 0 <= i <= |events| ==> QueueFits(events, i)
  }

  ghost predicate QueueFits(events: seq<Event>, i: nat)
    requires i <= |events|
  {
    var before := Run(Start, events[..i]);
    before.Next? ==> |before.state.jobs| <= 1000
  }

  lemma LostByStep(s: State, e: Event)
    requires Step(s, e).Next?
    ensures Step(s, e).state.lost == s.lost + if e.action == Release && s.tokens >= MAX_JOBS then 1 else 0
  {
  }

  lemma {:induction false} LostIff(events: seq<Event>, n: nat)
    requires n <= |events| && Run(Start, events[..n]).Next?
    ensures Run(Start, events[..n]).state.lost == 0 <==> ReleasesFit(events, n)
  {
    hide Step;
    if n > 0 {
      assert events[..n][..n - 1] == events[..n - 1];
      LostIff(events, n - 1);
      LostByStep(Run(Start, events[..n - 1]).state, events[n - 1]);
      assert ReleasesFit(events, n) <==> ReleasesFit(events, n - 1) && ReleaseFits(events, n - 1);
    }
  }

  /** Where a release finds the semaphore full, more jobs are queued than it can count. */
  lemma FullMeansMore(s: State, t: Tid)
    requires Inv(s) && At(s.threads, t) == Releasing && s.tokens >= MAX_JOBS
    ensures |s.jobs| > MAX_JOBS
  {
    assert t in Releasers(s.threads);
  }

  /** Every queued job has its token, its holder or the thread that adds it if and only if every release could be
      counted. */
  lemma NoneStranded(events: seq<Event>)
    requires Run(Start, events).Next?
    ensures var s := Run(Start, events).state;
            |s.jobs| == s.tokens + |Holders(s.threads)| + |Releasers(s.threads)| <==> ReleasesFit(events, |events|)
  {
    assert events[..|events|] == events;
    InvAlways(events);
    LostIff(events, |events|);
  }

  lemma ReleaseWasFit(events: seq<Event>, i: nat)
    requires Run(Start, events).Next? && i < |events| && QueueFits(events, i)
    ensures ReleaseFits(events, i)
  {
    hide Step, Inv;
    RunsSoFar(events, i);
    RunsSoFar(events, i + 1);
    InvAlways(events[..i]);
    assert events[..i + 1][..i] == events[..i];
    var before := Run(Start, events[..i]).state;
    if events[i].action == Release && before.tokens >= MAX_JOBS {
      OnlyWhenReleasing(before, events[i]);
      FullMeansMore(before, events[i].thread);
    }
  }

  lemma OnlyWhenReleasing(s: State, e: Event)
    requires e.action == Release && Step(s, e).Next?
    ensures At(s.threads, e.thread) == Releasing
  {
  }

  /** What callers can see to: with never more jobs queued than the semaphore can count, none is stranded. */
  lemma BoundedQueueStrandsNone(events: seq<Event>)
    requires Run(Start, events).Next? && NeverMoreQueued(events)
    ensures var s := Run(Start, events).state;
            |s.jobs| == s.tokens + |Holders(s.threads)| + |Releasers(s.threads)|
  {
    forall i | 0 <= i < |events|
      ensures ReleaseFits(events, i)
    {
      assert QueueFits(events, i);
      ReleaseWasFit(events, i);
    }
    NoneStranded(events);
  }

  /** What comes before in a run is a run. */
  lemma {:induction false} RunsSoFar(events: seq<Event>, i: nat)
    requires Run(Start, events).Next? && i <= |events|
    ensures Run(Start, events[..i]).Next?
    decreases |events|
  {
    if i == |events| {
      assert events[..i] == events;
    } else {
      var n := |events| - 1;
      RunsSoFar(events[..n], i);
      assert events[..n][..i] == events[..i];
    }
  }

  // ---------- what each thread does ----------

  /** What a thread goes through from the call of an operation to its return. */
  predicate IsCall(c: seq<Action>) {
    || (|c| == 5 && c[0].AddJob? && c[1..] == [LockToPush, Push, Release, Unlock])
    || c == [GetJob, Acquire, LockToPop, Pop, Unlock]
  }

  /** The part of a call that a thread has behind it, by where it is. */
  predicate Within(pc: Pc, part: seq<Action>) {
    match pc
    case Out => part == []
    case Adding(job) => part == [AddJob(job)]
    case Pushing(job) => part == [AddJob(job), LockToPush]
    case Releasing => |part| == 3 && part[0].AddJob? && part[1..] == [LockToPush, Push]
    case Getting => part == [GetJob]
    case Holding => part == [GetJob, Acquire]
    case Popping => part == [GetJob, Acquire, LockToPop]
    case Leaving(None) => |part| == 4 && part[0].AddJob? && part[1..] == [LockToPush, Push, Release]
    case Leaving(Some(_)) => part == [GetJob, Acquire, LockToPop, Pop]
  }

  /** A step of a thread is the next one of its call. */
  lemma NextInCall(s: State, e: Event, part: seq<Action>)
    requires Inv(s) && Step(s, e).Next? && Within(At(s.threads, e.thread), part)
    ensures var pc' := At(Step(s, e).state.threads, e.thread);
            if pc' == Out then IsCall(part + [e.action]) else Within(pc', part + [e.action])
  {
  }

  lemma OthersStay(s: State, e: Event, u: Tid)
    requires Step(s, e).Next? && u != e.thread
    ensures At(Step(s, e).state.threads, u) == At(s.threads, u)
  {
  }

  /** In every run, each thread goes through whole calls, each from its first step to its last, and is inside at most
      one. */
  lemma {:induction false} CallsAreWhole(events: seq<Event>, t: Tid)
    requires Run(Start, events).Next?
    ensures InCalls(History(events, t), At(Run(Start, events).state.threads, t), IsCall, Within)
    decreases |events|
  {
    if events == [] {
      CallBegins(Out, IsCall, Within);
    } else {
      hide Step, InCalls, Within, IsCall, Inv;
      var n := |events| - 1;
      CallsAreWhole(events[..n], t);
      InvAlways(events[..n]);
      var s, e := Run(Start, events[..n]).state, events[n];
      if e.thread == t {
        CallStep(s, e, History(events[..n], t));
      } else {
        OthersStay(s, e, t);
      }
    }
  }

  lemma CallStep(s: State, e: Event, history: seq<Action>)
    requires Inv(s) && Step(s, e).Next? && InCalls(history, At(s.threads, e.thread), IsCall, Within)
    ensures InCalls(history + [e.action], At(Step(s, e).state.threads, e.thread), IsCall, Within)
  {
    hide Step, InCalls, IsCall, Inv;
    var pc, pc' := At(s.threads, e.thread), At(Step(s, e).state.threads, e.thread);
    forall part | Within(pc, part)
      ensures if pc' == Out then IsCall(part + [e.action]) else Within(pc', part + [e.action])
    {
      NextInCall(s, e, part);
    }
    if pc' == Out {
      CallEnds(history, pc, pc', [e.action], IsCall, Within);
    } else {
      CallGoesOn(history, pc, e.action, pc', IsCall, Within);
    }
  }

  // ---------- from call to return ----------

  /** The job a thread last called add_job with. */
  ghost function LastAdded(history: seq<Action>): Option<Job>
    decreases |history|
  {
    if history == [] then None
    else
      var a := history[|history| - 1];
      if a.AddJob? then Some(a.job) else LastAdded(history[..|history| - 1])
  }

  function Listed(job: Option<Job>): seq<Job> {
    if job.Some? then [job.value] else []
  }

  /** The jobs that calls of add_job were given and have pushed, in the order of the pushes. */
  ghost function Given(events: seq<Event>): seq<Job>
    decreases |events|
  {
    if events == [] then []
    else
      var e, before := events[|events| - 1], events[..|events| - 1];
      Given(before) + if e.action == Push then Listed(LastAdded(History(before, e.thread))) else []
  }

  /** What calls of get_job have returned with, in the order in which they gave up the lock. */
  ghost function Returned(events: seq<Event>): seq<Job>
    requires Run(Start, events).Next?
    decreases |events|
  {
    if events == [] then []
    else
      var e, before := events[|events| - 1], events[..|events| - 1];
      Returned(before) + if e.action == Unlock then Carried(Run(Start, before).state, e.thread) else []
  }

  function Carried(s: State, t: Tid): seq<Job> {
    if At(s.threads, t).Leaving? then Listed(At(s.threads, t).got) else []
  }

  /** What the thread that has the lock is about to return with. */
  function InHand(s: State): seq<Job> {
    if s.lock.Some? then Carried(s, s.lock.value) else []
  }

  lemma {:induction false} GivenIs(events: seq<Event>)
    requires Run(Start, events).Next?
    ensures Run(Start, events).state.pushed == Given(events)
    decreases |events|
  {
    if events != [] {
      hide Inv, InCalls, IsCall, Within, Step;
      var n := |events| - 1;
      var s, e := Run(Start, events[..n]).state, events[n];
      GivenIs(events[..n]);
      CallsAreWhole(events[..n], e.thread);
      PushStep(s, e, History(events[..n], e.thread));
    }
  }

  lemma PushStep(s: State, e: Event, history: seq<Action>)
    requires Step(s, e).Next? && InCalls(history, At(s.threads, e.thread), IsCall, Within)
    ensures Step(s, e).state.pushed == s.pushed + if e.action == Push then Listed(LastAdded(history)) else []
  {
    hide InCalls, IsCall, Within;
    if e.action == Push {
      JustAdded(history, At(s.threads, e.thread));
    }
  }

  lemma JustAdded(history: seq<Action>, pc: Pc)
    requires InCalls(history, pc, IsCall, Within) && pc.Pushing?
    ensures LastAdded(history) == Some(pc.job)
  {
    var calls: seq<seq<Action>>, part :|
      history == Joined(calls) + part && AllAre(calls, IsCall) && Within(pc, part);
    assert history[|history| - 2] == part[0] && history[|history| - 1] == part[1];
  }

  lemma {:induction false} ReturnedIs(events: seq<Event>)
    requires Run(Start, events).Next?
    ensures var s := Run(Start, events).state; s.delivered == Returned(events) + InHand(s)
    decreases |events|
  {
    if events != [] {
      hide Inv, Step;
      var n := |events| - 1;
      var s, e := Run(Start, events[..n]).state, events[n];
      ReturnedIs(events[..n]);
      InvAlways(events[..n]);
      HandStep(s, e);
    }
  }

  lemma HandStep(s: State, e: Event)
    requires Inv(s) && Step(s, e).Next?
    ensures var s' := Step(s, e).state;
            if e.action == Unlock then
              s'.delivered == s.delivered && InHand(s) == Carried(s, e.thread) && InHand(s') == []
            else if e.action == Pop then InHand(s) == [] && s'.delivered == s.delivered + InHand(s')
            else s'.delivered == s.delivered && InHand(s') == InHand(s)
  {
    assert HasLock(At(s.threads, e.thread)) <==> s.lock == Some(e.thread);
  }

  /** What was given is what was returned, then what is in hand, then what is queued; and whoever is about to return
      has the lock and the last job taken out. */
  lemma EndToEnd(events: seq<Event>)
    requires Run(Start, events).Next?
    ensures var s := Run(Start, events).state;
            && Given(events) == Returned(events) + InHand(s) + s.jobs
            && s.pushed == Given(events)
            && forall t :: At(s.threads, t).Leaving? && At(s.threads, t).got.Some? ==>
                 s.lock == Some(t) && s.delivered != []
                 && At(s.threads, t).got == Some(s.delivered[|s.delivered| - 1])
  {
    var s := Run(Start, events).state;
    InvAlways(events);
    GivenIs(events);
    ReturnedIs(events);
    forall t | At(s.threads, t).Leaving?
      ensures s.lock == Some(t)
    {
      assert HasLock(At(s.threads, t));
    }
  }

  // ---------- who can go on ----------

  /** The first step of a call, which a thread takes when it wants to. */
  predicate Begins(a: Action) {
    a.AddJob? || a == GetJob
  }

  ghost predicate CanGoOn(s: State, t: Tid) {
    exists a :: !Begins(a) && Step(s, Event(t, a)).Next?
  }

  /** A thread outside can begin any call; one inside a call cannot go on exactly when it waits for the lock or a
      token. */
  lemma GoesOnIff(s: State, t: Tid)
    requires Inv(s)
    ensures forall a :: Begins(a) ==> (Step(s, Event(t, a)).Next? <==> At(s.threads, t) == Out)
    ensures CanGoOn(s, t) <==>
              match At(s.threads, t)
              case Out => false
              case Getting => s.tokens > 0
              case Adding(_) => s.lock == None
              case Holding => s.lock == None
              case Pushing(_) => true
              case Releasing => true
              case Popping => true
              case Leaving(_) => true
  {
    var a := match At(s.threads, t)
      case Out => GetJob
      case Getting => Acquire
      case Adding(_) => LockToPush
      case Holding => LockToPop
      case Pushing(_) => Push
      case Releasing => Release
      case Popping => Pop
      case Leaving(_) => Unlock;
    NeverEmpty(s, Event(t, a));
    var next := Step(s, Event(t, a));
  }

  /** When no thread can go on, all are outside or wait for a token; and if any waits, nothing is queued but what failed
      releases have stranded. */
  lemma NobodyWaitsInVain(events: seq<Event>)
    requires Run(Start, events).Next?
    requires forall t :: !CanGoOn(Run(Start, events).state, t)
    ensures var s := Run(Start, events).state;
            && s.lock == None
            && (forall t :: At(s.threads, t) == Out || (At(s.threads, t) == Getting && s.tokens == 0))
            && ((exists t :: At(s.threads, t) == Getting) && ReleasesFit(events, |events|) ==> s.jobs == [])
  {
    var s := Run(Start, events).state;
    InvAlways(events);
    if s.lock.Some? {
      assert HasLock(At(s.threads, s.lock.value));
      GoesOnIff(s, s.lock.value);
    }
    forall t
      ensures At(s.threads, t) == Out || (At(s.threads, t) == Getting && s.tokens == 0)
    {
      GoesOnIff(s, t);
    }
    NobodyHolds(s);
    NoneStranded(events);
  }

  lemma NobodyHolds(s: State)
    requires forall t :: At(s.threads, t) == Out || At(s.threads, t) == Getting
    ensures Holders(s.threads) == {} && Releasers(s.threads) == {}
  {
    forall t
      ensures !Holds(T.At(s.threads, t, Out)) && !Pushed(T.At(s.threads, t, Out))
    {
      assert At(s.threads, t) == T.At(s.threads, t, Out);
    }
    NobodyThere(s.threads, Out, Holds);
    NobodyThere(s.threads, Out, Pushed);
  }

  // ---------- a job that nobody will get ----------

  /** One more event. */
  lemma Also(events: seq<Event>, e: Event) returns (events': seq<Event>)
    requires Run(Start, events).Next?
    ensures Run(Start, events') == Step(Run(Start, events).state, e)
  {
    events' := events + [e];
    assert events'[..|events|] == events;
  }

  ghost predicate Idle(s: State) {
    s.lock == None && forall t :: At(s.threads, t) == Out
  }

  lemma StartIsIdle()
    ensures Idle(Start)
  {
  }

  /** Five steps in a row. */
  function Steps(s: State, a: Event, b: Event, c: Event, d: Event, e: Event): Result {
    var r := Step(s, a);
    var r := if r.Next? then Step(r.state, b) else r;
    var r := if r.Next? then Step(r.state, c) else r;
    var r := if r.Next? then Step(r.state, d) else r;
    if r.Next? then Step(r.state, e) else r
  }

  lemma FiveMore(events: seq<Event>, a: Event, b: Event, c: Event, d: Event, e: Event) returns (events': seq<Event>)
    requires Run(Start, events).Next? && Steps(Run(Start, events).state, a, b, c, d, e).Next?
    ensures Run(Start, events') == Steps(Run(Start, events).state, a, b, c, d, e)
  {
    hide Step, Run;
    events' := Also(events, a);
    events' := Also(events', b);
    events' := Also(events', c);
    events' := Also(events', d);
    events' := Also(events', e);
  }

  function Adds(job: Job, s: State): Result {
    Steps(s, Event(0, AddJob(job)), Event(0, LockToPush), Event(0, Push), Event(0, Release), Event(0, Unlock))
  }

  function Gets(s: State): Result {
    Steps(s, Event(0, GetJob), Event(0, Acquire), Event(0, LockToPop), Event(0, Pop), Event(0, Unlock))
  }

  /** One thread adds a job, undisturbed. */
  lemma AddSteps(s: State, job: Job)
    requires Idle(s)
    ensures Adds(job, s).Next?
    ensures var s' := Adds(job, s).state;
            && Idle(s') && s'.jobs == s.jobs + [job] && s'.pushed == s.pushed + [job]
            && s'.tokens == (if s.tokens < MAX_JOBS then s.tokens + 1 else s.tokens)
            && s'.lost == (if s.tokens < MAX_JOBS then s.lost else s.lost + 1)
  {
    Back(s, Adds(job, s).state);
  }

  /** One thread gets a job, undisturbed. */
  lemma GetSteps(s: State)
    requires Idle(s) && s.tokens > 0 && s.jobs != []
    ensures Gets(s).Next?
    ensures var s' := Gets(s).state;
            && Idle(s') && s'.pushed == s.pushed && s'.jobs == s.jobs[1..]
            && s'.tokens == s.tokens - 1 && s'.lost == s.lost
  {
    Back(s, Gets(s).state);
  }

  lemma Back(s: State, s': State)
    requires Idle(s) && s'.lock == None && s'.threads == s.threads[0 := Out]
    ensures Idle(s')
  {
    assert forall t :: t != 0 ==> At(s'.threads, t) == At(s.threads, t);
  }

  lemma {:induction false} AddMany(n: nat) returns (events: seq<Event>)
    ensures Run(Start, events).Next? && Idle(Run(Start, events).state)
    ensures var s := Run(Start, events).state;
            |s.jobs| == |s.pushed| == n && s.tokens == (if n < MAX_JOBS then n else MAX_JOBS)
              && s.lost == (if n < MAX_JOBS then 0 else n - MAX_JOBS)
  {
    hide Steps, Idle;
    events := [];
    StartIsIdle();
    if n > 0 {
      events := AddMany(n - 1);
      AddSteps(Run(Start, events).state, 0);
      events := FiveMore(events, Event(0, AddJob(0)), Event(0, LockToPush), Event(0, Push), Event(0, Release),
        Event(0, Unlock));
    }
  }

  lemma {:induction false} GetMany(events: seq<Event>, n: nat) returns (events': seq<Event>)
    requires Run(Start, events).Next? && Idle(Run(Start, events).state)
    requires n <= Run(Start, events).state.tokens && n <= |Run(Start, events).state.jobs|
    ensures Run(Start, events').Next? && Idle(Run(Start, events').state)
    ensures var s, s' := Run(Start, events).state, Run(Start, events').state;
            s'.pushed == s.pushed && |s'.jobs| == |s.jobs| - n && s'.tokens == s.tokens - n && s'.lost == s.lost
    decreases n
  {
    hide Steps, Idle;
    events' := events;
    if n > 0 {
      GetSteps(Run(Start, events).state);
      events' := FiveMore(events, Event(0, GetJob), Event(0, Acquire), Event(0, LockToPop), Event(0, Pop),
        Event(0, Unlock));
      events' := GetMany(events', n - 1);
    }
  }

  /** Adding more jobs than the semaphore counts strands the excess: they are queued, and whoever asks waits. */
  lemma JobsAreStranded(excess: nat) returns (events: seq<Event>)
    ensures Run(Start, events).Next?
    ensures var s := Run(Start, events).state;
            && Idle(s) && |s.pushed| == 1000 + excess && |s.jobs| == excess == s.lost
            && (forall t :: Step(s, Event(t, GetJob)).Next?)
            && (forall t :: Step(Step(s, Event(t, GetJob)).state, Event(t, Acquire)) == Blocked)
  {
    events := AddMany(MAX_JOBS + excess);
    events := GetMany(events, MAX_JOBS);
  }
}
