/**
 * The work queue of the thread pool, as atomic steps of any number of threads.
 *
 * What a thread does between two steps is its own; the list, the semaphore and the event are shared.  Pushing happens
 * under the lock of the list and touches nothing else, so it is one step that needs the lock to be free.
 */
module ThreadPool {
  import opened Wrappers
  import opened T = Threads

  type Item = int

  /** Where a thread is. */
  datatype Pc =
    | Out
    | Pushing(item: Item)
    | Releasing
    | Waiting
    | Holding
    | Inside
    | Leaving(item: Item)

  /** `pushed`, `delivered`, `retries` and `lost` record what has happened; the program has no such fields. */
  datatype State = State(
    queue: seq<Item>, tokens: nat, die: bool, lock: Option<Tid>, threads: Threads,
    pushed: seq<Item>, delivered: seq<Item>, retries: nat, lost: nat)

  datatype Action =
    | AddWorkItem(item: Item) | Push | Release
    | GetWorkItem | WakeToDie | WakeToWork | Lock | Look | Unlock
    | ReleaseThreads

  type Event = T.Event<Action>

  const Start: State := State([], 0, false, None, map[], [], [], 0, 0)

  type Threads = map<Tid, Pc>

  function At(threads: Threads, t: Tid): Pc {
    T.At(threads, t, Out)
  }

  function Go(s: State, t: Tid, pc: Pc): State {
    s.(threads := s.threads[t := pc])
  }

  /** One step, if the thread can take it.  `max` is the largest count the semaphore can hold. */
  function Step(max: nat, s: State, e: Event): Option<State> {
    var t, pc := e.thread, At(s.threads, e.thread);
    match e.action
    case AddWorkItem(item) => if pc == Out then Some(Go(s, t, Pushing(item))) else None
    case Push =>
      if pc.Pushing? && s.lock == None
      then Some(Go(s.(queue := s.queue + [pc.item], pushed := s.pushed + [pc.item]), t, Releasing))
      else None
    case Release =>
      // a release that finds the semaphore full fails, and nobody looks at the result
      if pc != Releasing then None
      else if s.tokens < max then Some(Go(s.(tokens := s.tokens + 1), t, Out))
      else Some(Go(s.(lost := s.lost + 1), t, Out))
    case GetWorkItem => if pc == Out then Some(Go(s, t, Waiting)) else None
    case WakeToDie => if pc == Waiting && s.die then Some(Go(s, t, Out)) else None
    case WakeToWork =>
      if pc == Waiting && !s.die && s.tokens > 0 then Some(Go(s.(tokens := s.tokens - 1), t, Holding)) else None
    case Lock => if pc == Holding && s.lock == None then Some(Go(s.(lock := Some(t)), t, Inside)) else None
    case Look =>
      if pc != Inside then None
      else if s.queue == [] then Some(Go(s.(lock := None, retries := s.retries + 1), t, Waiting))
      else Some(Go(s.(queue := s.queue[1..], delivered := s.delivered + [s.queue[0]]), t, Leaving(s.queue[0])))
    case Unlock => if pc.Leaving? then Some(Go(s.(lock := None), t, Out)) else None
    case ReleaseThreads => if pc == Out then Some(s.(die := true)) else None
  }

  /** A run; it ends early, with None, at an event that cannot happen. */
  function Run(max: nat, s: State, events: seq<Event>): Option<State>
    decreases |events|
  {
    if events == [] then Some(s)
    else
      var before := Run(max, s, events[..|events| - 1]);
      if before.None? then None else Step(max, before.value, events[|events| - 1])
  }

  // ---------- the invariant ----------

  /** With a token, and the item still in the queue. */
  predicate Holds(pc: Pc) {
    pc == Holding || pc == Inside
  }

  /** Pushed, and not yet released. */
  predicate Pushed(pc: Pc) {
    pc == Releasing
  }

  function Holders(threads: Threads): set<Tid> {
    T.Those(threads, Holds)
  }

  function Releasers(threads: Threads): set<Tid> {
    T.Those(threads, Pushed)
  }

  predicate LockHeldBy(s: State, t: Tid) {
    At(s.threads, t) == Inside || At(s.threads, t).Leaving?
  }

  ghost predicate FirstInFirstOut(s: State) {
    s.delivered + s.queue == s.pushed
  }

  lemma OrderStep(max: nat, s: State, e: Event)
    requires FirstInFirstOut(s) && Step(max, s, e).Some?
    ensures FirstInFirstOut(Step(max, s, e).value)
  {
    var s' := Step(max, s, e).value;
    if e.action == Look && s.queue != [] {
      assert s.queue == [s.queue[0]] + s'.queue;
    }
  }

  ghost predicate Inv(max: nat, s: State) {
    && |s.queue| == s.tokens + |Holders(s.threads)| + |Releasers(s.threads)| + s.lost
    && s.tokens <= max
    && LockOK(s)
    && FirstInFirstOut(s)
    && s.retries == 0
  }

  lemma InvStarts(max: nat)
    ensures Inv(max, Start)
  {
    assert Holders(map[]) == {} && Releasers(map[]) == {};
  }

  /** Whoever looks into the queue finds something. */
  lemma QueueIsNotEmpty(max: nat, s: State, t: Tid)
    requires Inv(max, s) && At(s.threads, t) == Inside
    ensures s.queue != []
  {
    assert t in Holders(s.threads);
  }

  ghost predicate LockOK(s: State) {
    forall t :: LockHeldBy(s, t) <==> s.lock == Some(t)
  }

  lemma LockStep(max: nat, s: State, e: Event)
    requires LockOK(s) && Step(max, s, e).Some?
    ensures LockOK(Step(max, s, e).value)
  {
    var s', t := Step(max, s, e).value, e.thread;
    assert forall u :: u != t ==> (LockHeldBy(s', u) <==> LockHeldBy(s, u));
    assert LockHeldBy(s, t) <==> s.lock == Some(t);
  }

  lemma InvStep(max: nat, s: State, e: Event)
    requires Inv(max, s) && Step(max, s, e).Some?
    ensures Inv(max, Step(max, s, e).value)
  {
    hide T.Those, LockOK, FirstInFirstOut;
    var s', t := Step(max, s, e).value, e.thread;
    if e.action != ReleaseThreads {
      T.OneMoves(s.threads, t, At(s'.threads, t), Out, Holds);
      T.OneMoves(s.threads, t, At(s'.threads, t), Out, Pushed);
      assert s'.threads == s.threads[t := At(s'.threads, t)];
    }
    LockStep(max, s, e);
    OrderStep(max, s, e);
    if e.action == Look {
      QueueIsNotEmpty(max, s, t);
    }
  }

  /** In every run: an item for every token and holder, no retry, first in first out. */
  lemma {:induction false} InvAlways(max: nat, events: seq<Event>)
    requires Run(max, Start, events).Some?
    ensures Inv(max, Run(max, Start, events).value)
    decreases |events|
  {
    if events == [] {
      InvStarts(max);
    } else {
      var n := |events| - 1;
      InvAlways(max, events[..n]);
      InvStep(max, Run(max, Start, events[..n]).value, events[n]);
    }
  }

  /** The same, said of the program. */
  lemma Safety(max: nat, events: seq<Event>)
    requires Run(max, Start, events).Some?
    ensures var s := Run(max, Start, events).value;
            && s.tokens + |Holders(s.threads)| <= |s.queue|
            && s.retries == 0
            && s.delivered + s.queue == s.pushed
            && (forall t, u :: LockHeldBy(s, t) && LockHeldBy(s, u) ==> t == u)
  {
    InvAlways(max, events);
  }

  // ---------- stranded items ----------

  /** Whenever one of the first `n` events was a release, the semaphore could count it. */
  ghost predicate ReleasesFit(max: nat, events: seq<Event>, n: nat)
    requires n <= |events|
  {
    forall i :: 0 <= i < n ==> ReleaseFits(max, events, i)
  }

  ghost predicate ReleaseFits(max: nat, events: seq<Event>, i: nat)
    requires i < |events|
  {
    var before := Run(max, Start, events[..i]);
    events[i].action == Release && before.Some? ==> before.value.tokens < max
  }

  /** There were never more items queued than the semaphore can count. */
  ghost predicate NeverMoreQueued(max: nat, events: seq<Event>) {
    forall i :: 0 <= i <= |events| ==> QueueFits(max, events, i)
  }

  ghost predicate QueueFits(max: nat, events: seq<Event>, i: nat)
    requires i <= |events|
  {
    var before := Run(max, Start, events[..i]);
    before.Some? ==> |before.value.queue| <= max
  }

  lemma LostByStep(max: nat, s: State, e: Event)
    requires Step(max, s, e).Some?
    ensures Step(max, s, e).value.lost == s.lost + if e.action == Release && s.tokens >= max then 1 else 0
  {
  }

  lemma {:induction false} LostIff(max: nat, events: seq<Event>, n: nat)
    requires n <= |events| && Run(max, Start, events[..n]).Some?
    ensures Run(max, Start, events[..n]).value.lost == 0 <==> ReleasesFit(max, events, n)
  {
    hide Step;
    if n > 0 {
      assert events[..n][..n - 1] == events[..n - 1];
      LostIff(max, events, n - 1);
      LostByStep(max, Run(max, Start, events[..n - 1]).value, events[n - 1]);
      assert ReleasesFit(max, events, n) <==> ReleasesFit(max, events, n - 1) && ReleaseFits(max, events, n - 1);
    }
  }

  /** Where a release finds the semaphore full, more items are queued than it can count. */
  lemma FullMeansMore(max: nat, s: State, t: Tid)
    requires Inv(max, s) && At(s.threads, t) == Releasing && s.tokens >= max
    ensures |s.queue| > max
  {
    assert t in Releasers(s.threads);
  }

  /** Every queued item has its token, its holder or its pusher if and only if every release could be counted. */
  lemma NoneStranded(max: nat, events: seq<Event>)
    requires Run(max, Start, events).Some?
    ensures var s := Run(max, Start, events).value;
            |s.queue| == s.tokens + |Holders(s.threads)| + |Releasers(s.threads)| <==>
              ReleasesFit(max, events, |events|)
  {
    assert events[..|events|] == events;
    InvAlways(max, events);
    LostIff(max, events, |events|);
  }

  lemma ReleaseWasFit(max: nat, events: seq<Event>, i: nat)
    requires Run(max, Start, events).Some? && i < |events| && QueueFits(max, events, i)
    ensures ReleaseFits(max, events, i)
  {
    hide Step, Inv;
    RunsSoFar(max, events, i);
    RunsSoFar(max, events, i + 1);
    InvAlways(max, events[..i]);
    assert events[..i + 1][..i] == events[..i];
    var before := Run(max, Start, events[..i]).value;
    if events[i].action == Release && before.tokens >= max {
      OnlyWhenReleasing(max, before, events[i]);
      FullMeansMore(max, before, events[i].thread);
    }
  }

  lemma OnlyWhenReleasing(max: nat, s: State, e: Event)
    requires e.action == Release && Step(max, s, e).Some?
    ensures At(s.threads, e.thread) == Releasing
  {
  }

  /** What callers can see to: with never more items queued than the semaphore can count, none is stranded. */
  lemma BoundedQueueStrandsNone(max: nat, events: seq<Event>)
    requires Run(max, Start, events).Some? && NeverMoreQueued(max, events)
    ensures var s := Run(max, Start, events).value;
            |s.queue| == s.tokens + |Holders(s.threads)| + |Releasers(s.threads)|
  {
    forall i | 0 <= i < |events|
      ensures ReleaseFits(max, events, i)
    {
      assert QueueFits(max, events, i);
      ReleaseWasFit(max, events, i);
    }
    NoneStranded(max, events);
  }

  /** What comes before in a run is a run. */
  lemma {:induction false} RunsSoFar(max: nat, events: seq<Event>, i: nat)
    requires Run(max, Start, events).Some? && i <= |events|
    ensures Run(max, Start, events[..i]).Some?
    decreases |events|
  {
    if i == |events| {
      assert events[..i] == events;
    } else {
      var n := |events| - 1;
      RunsSoFar(max, events[..n], i);
      assert events[..n][..i] == events[..i];
    }
  }

  /** From the moment the pool is told to stop, no thread comes to hold a token. */
  lemma {:induction false} NoNewHolders(max: nat, s: State, events: seq<Event>)
    requires s.die && Run(max, s, events).Some?
    ensures var s' := Run(max, s, events).value;
            s'.die && Holders(s'.threads) <= Holders(s.threads) && s.tokens <= s'.tokens
    decreases |events|
  {
    if events != [] {
      var n := |events| - 1;
      NoNewHolders(max, s, events[..n]);
    }
  }

  // ---------- what each thread does ----------

  /** What a thread goes through from the call of an operation to its return.  The loop of get_work_item is left at its
      first turn. */
  predicate IsCall(c: seq<Action>) {
    || (|c| == 3 && c[0].AddWorkItem? && c[1..] == [Push, Release])
    || c == [GetWorkItem, WakeToWork, Lock, Look, Unlock]
    || c == [GetWorkItem, WakeToDie]
    || c == [ReleaseThreads]
  }

  /** The part of a call that a thread has behind it, by where it is. */
  predicate Within(pc: Pc, part: seq<Action>) {
    match pc
    case Out => part == []
    case Pushing(item) => part == [AddWorkItem(item)]
    case Releasing => |part| == 2 && part[0].AddWorkItem? && part[1] == Push
    case Waiting => part == [GetWorkItem]
    case Holding => part == [GetWorkItem, WakeToWork]
    case Inside => part == [GetWorkItem, WakeToWork, Lock]
    case Leaving(_) => part == [GetWorkItem, WakeToWork, Lock, Look]
  }

  /** A step of a thread is the next one of its call. */
  lemma NextInCall(max: nat, s: State, e: Event, part: seq<Action>)
    requires Inv(max, s) && Step(max, s, e).Some? && Within(At(s.threads, e.thread), part)
    ensures var pc' := At(Step(max, s, e).value.threads, e.thread);
            if pc' == Out then IsCall(part + [e.action]) else Within(pc', part + [e.action])
  {
    if e.action == Look {
      QueueIsNotEmpty(max, s, e.thread);
    }
  }

  lemma OthersStay(max: nat, s: State, e: Event, u: Tid)
    requires Step(max, s, e).Some? && u != e.thread
    ensures At(Step(max, s, e).value.threads, u) == At(s.threads, u)
  {
  }

  /** In every run, each thread goes through whole calls, each from its first step to its last, and is inside at most
      one. */
  lemma {:induction false} CallsAreWhole(max: nat, events: seq<Event>, t: Tid)
    requires Run(max, Start, events).Some?
    ensures InCalls(History(events, t), At(Run(max, Start, events).value.threads, t), IsCall, Within)
    decreases |events|
  {
    if events == [] {
      CallBegins(Out, IsCall, Within);
    } else {
      hide Step, InCalls, Within, IsCall, Inv;
      var n := |events| - 1;
      CallsAreWhole(max, events[..n], t);
      InvAlways(max, events[..n]);
      var s, e := Run(max, Start, events[..n]).value, events[n];
      if e.thread == t {
        CallStep(max, s, e, History(events[..n], t));
      } else {
        OthersStay(max, s, e, t);
      }
    }
  }

  lemma CallStep(max: nat, s: State, e: Event, history: seq<Action>)
    requires Inv(max, s) && Step(max, s, e).Some? && InCalls(history, At(s.threads, e.thread), IsCall, Within)
    ensures InCalls(history + [e.action], At(Step(max, s, e).value.threads, e.thread), IsCall, Within)
  {
    hide Step, InCalls, IsCall, Inv;
    var pc, pc' := At(s.threads, e.thread), At(Step(max, s, e).value.threads, e.thread);
    forall part | Within(pc, part)
      ensures if pc' == Out then IsCall(part + [e.action]) else Within(pc', part + [e.action])
    {
      NextInCall(max, s, e, part);
    }
    if pc' == Out {
      CallEnds(history, pc, pc', [e.action], IsCall, Within);
    } else {
      CallGoesOn(history, pc, e.action, pc', IsCall, Within);
    }
  }

  // ---------- from call to return ----------

  /** The item a thread last called add_work_item with. */
  ghost function LastAdded(history: seq<Action>): Option<Item>
    decreases |history|
  {
    if history == [] then None
    else
      var a := history[|history| - 1];
      if a.AddWorkItem? then Some(a.item) else LastAdded(history[..|history| - 1])
  }

  function Listed(item: Option<Item>): seq<Item> {
    if item.Some? then [item.value] else []
  }

  /** The items that calls of add_work_item were given and have pushed, in the order of the pushes. */
  ghost function Given(events: seq<Event>): seq<Item>
    decreases |events|
  {
    if events == [] then []
    else
      var e, before := events[|events| - 1], events[..|events| - 1];
      Given(before) + if e.action == Push then Listed(LastAdded(History(before, e.thread))) else []
  }

  /** What calls of get_work_item have returned with, in the order in which they gave up the lock. */
  ghost function Returned(max: nat, events: seq<Event>): seq<Item>
    requires Run(max, Start, events).Some?
    decreases |events|
  {
    if events == [] then []
    else
      var e, before := events[|events| - 1], events[..|events| - 1];
      Returned(max, before) + if e.action == Unlock then Carried(Run(max, Start, before).value, e.thread) else []
  }

  function Carried(s: State, t: Tid): seq<Item> {
    if At(s.threads, t).Leaving? then [At(s.threads, t).item] else []
  }

  /** What the thread that has the lock is about to return with. */
  function InHand(s: State): seq<Item> {
    if s.lock.Some? then Carried(s, s.lock.value) else []
  }

  lemma {:induction false} GivenIs(max: nat, events: seq<Event>)
    requires Run(max, Start, events).Some?
    ensures Run(max, Start, events).value.pushed == Given(events)
    decreases |events|
  {
    if events != [] {
      hide Inv, InCalls, IsCall, Within, Step;
      var n := |events| - 1;
      var s, e := Run(max, Start, events[..n]).value, events[n];
      GivenIs(max, events[..n]);
      CallsAreWhole(max, events[..n], e.thread);
      PushStep(max, s, e, History(events[..n], e.thread));
    }
  }

  lemma PushStep(max: nat, s: State, e: Event, history: seq<Action>)
    requires Step(max, s, e).Some? && InCalls(history, At(s.threads, e.thread), IsCall, Within)
    ensures Step(max, s, e).value.pushed == s.pushed + if e.action == Push then Listed(LastAdded(history)) else []
  {
    hide InCalls, IsCall, Within;
    if e.action == Push {
      JustAdded(history, At(s.threads, e.thread));
    }
  }

  lemma JustAdded(history: seq<Action>, pc: Pc)
    requires InCalls(history, pc, IsCall, Within) && pc.Pushing?
    ensures LastAdded(history) == Some(pc.item)
  {
    var calls: seq<seq<Action>>, part :|
      history == Joined(calls) + part && AllAre(calls, IsCall) && Within(pc, part);
    assert history[|history| - 1] == part[0];
  }

  lemma {:induction false} ReturnedIs(max: nat, events: seq<Event>)
    requires Run(max, Start, events).Some?
    ensures var s := Run(max, Start, events).value; s.delivered == Returned(max, events) + InHand(s)
    decreases |events|
  {
    if events != [] {
      hide Inv, Step;
      var n := |events| - 1;
      var s, e := Run(max, Start, events[..n]).value, events[n];
      ReturnedIs(max, events[..n]);
      InvAlways(max, events[..n]);
      HandStep(max, s, e);
    }
  }

  lemma HandStep(max: nat, s: State, e: Event)
    requires Inv(max, s) && Step(max, s, e).Some?
    ensures var s' := Step(max, s, e).value;
            if e.action == Unlock then
              s'.delivered == s.delivered && InHand(s) == Carried(s, e.thread) && InHand(s') == []
            else if e.action == Look then InHand(s) == [] && s'.delivered == s.delivered + InHand(s')
            else s'.delivered == s.delivered && InHand(s') == InHand(s)
  {
    assert LockHeldBy(s, e.thread) <==> s.lock == Some(e.thread);
    if e.action == Look {
      QueueIsNotEmpty(max, s, e.thread);
    }
  }

  /** What was given is what was returned, then what is in hand, then what is queued; and whoever is about to return
      has the lock and the last item taken out. */
  lemma EndToEnd(max: nat, events: seq<Event>)
    requires Run(max, Start, events).Some?
    ensures var s := Run(max, Start, events).value;
            && Given(events) == Returned(max, events) + InHand(s) + s.queue
            && s.pushed == Given(events)
            && forall t :: At(s.threads, t).Leaving? ==>
                 s.lock == Some(t) && s.delivered != [] && At(s.threads, t).item == s.delivered[|s.delivered| - 1]
  {
    var s := Run(max, Start, events).value;
    InvAlways(max, events);
    GivenIs(max, events);
    ReturnedIs(max, events);
    forall t | At(s.threads, t).Leaving?
      ensures s.lock == Some(t)
    {
      assert LockHeldBy(s, t);
    }
  }

  // ---------- being told to stop ----------

  lemma StopStep(max: nat, s: State, e: Event)
    requires Step(max, s, e).Some?
    ensures Step(max, s, e).value.die <==> s.die || e.action == ReleaseThreads
    ensures e.action == WakeToDie ==> s.die
    ensures e.action == WakeToWork ==> !s.die
  {
  }

  /** Nobody returns without an item before the pool is told to stop, and nobody takes a token after. */
  lemma {:induction false} ToldToStop(max: nat, events: seq<Event>)
    requires Run(max, Start, events).Some?
    ensures Run(max, Start, events).value.die <==>
              exists i :: 0 <= i < |events| && events[i].action == ReleaseThreads
    ensures forall i :: 0 <= i < |events| && events[i].action == WakeToDie ==>
              exists j :: 0 <= j < i && events[j].action == ReleaseThreads
    ensures forall i, j :: 0 <= j < i < |events| && events[i].action == WakeToWork ==>
              events[j].action != ReleaseThreads
    decreases |events|
  {
    if events != [] {
      hide Step;
      var n := |events| - 1;
      ToldToStop(max, events[..n]);
      StopStep(max, Run(max, Start, events[..n]).value, events[n]);
      assert forall i :: 0 <= i < n ==> events[..n][i] == events[i];
    }
  }

  // ---------- who can go on ----------

  /** The first step of a call, which a thread takes when it wants to. */
  predicate Begins(a: Action) {
    a.AddWorkItem? || a == GetWorkItem || a == ReleaseThreads
  }

  ghost predicate CanGoOn(max: nat, s: State, t: Tid) {
    exists a :: !Begins(a) && Step(max, s, Event(t, a)).Some?
  }

  /** A thread outside can begin any call; one inside a call cannot go on exactly when it waits for the lock, or for a
      token or the end. */
  lemma GoesOnIff(max: nat, s: State, t: Tid)
    ensures forall a :: Begins(a) ==> (Step(max, s, Event(t, a)).Some? <==> At(s.threads, t) == Out)
    ensures CanGoOn(max, s, t) <==>
              match At(s.threads, t)
              case Out => false
              case Waiting => s.die || s.tokens > 0
              case Pushing(_) => s.lock == None
              case Holding => s.lock == None
              case Releasing => true
              case Inside => true
              case Leaving(_) => true
  {
    var a := match At(s.threads, t)
      case Out => GetWorkItem
      case Waiting => if s.die then WakeToDie else WakeToWork
      case Pushing(_) => Push
      case Holding => Lock
      case Releasing => Release
      case Inside => Look
      case Leaving(_) => Unlock;
    var next := Step(max, s, Event(t, a));
  }

  /** When no thread can go on, all are outside or wait for a token, before the pool is told to stop; and if any waits,
      nothing is queued but what failed releases have stranded. */
  lemma NobodyWaitsInVain(max: nat, events: seq<Event>)
    requires Run(max, Start, events).Some?
    requires forall t :: !CanGoOn(max, Run(max, Start, events).value, t)
    ensures var s := Run(max, Start, events).value;
            && s.lock == None
            && (forall t :: At(s.threads, t) == Out || (At(s.threads, t) == Waiting && !s.die && s.tokens == 0))
            && ((exists t :: At(s.threads, t) == Waiting) && ReleasesFit(max, events, |events|) ==> s.queue == [])
  {
    var s := Run(max, Start, events).value;
    InvAlways(max, events);
    if s.lock.Some? {
      assert LockHeldBy(s, s.lock.value);
      GoesOnIff(max, s, s.lock.value);
    }
    forall t
      ensures At(s.threads, t) == Out || (At(s.threads, t) == Waiting && !s.die && s.tokens == 0)
    {
      GoesOnIff(max, s, t);
    }
    NobodyHolds(s);
    NoneStranded(max, events);
  }

  lemma NobodyHolds(s: State)
    requires forall t :: At(s.threads, t) == Out || At(s.threads, t) == Waiting
    ensures Holders(s.threads) == {} && Releasers(s.threads) == {}
  {
    forall t
      ensures !Holds(T.At(s.threads, t, Out)) && !Pushed(T.At(s.threads, t, Out))
    {
      assert At(s.threads, t) == T.At(s.threads, t, Out);
    }
    NobodyThere(s.threads, Out, Holds);
    NobodyThere(s.threads, Out, Pushed);
  }
}
