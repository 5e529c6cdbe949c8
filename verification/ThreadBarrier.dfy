/**
 * The thread barrier, as atomic steps of any number of threads.
 *
 * Whether giving up the lock and starting to wait is one step is a parameter: the comment in the program takes it to
 * be one.  A pulse wakes the threads that are waiting at that moment and leaves the event unset.
 */
module ThreadBarrier {
  import opened Wrappers
  import opened Arithmetic
  import opened T = Threads


  /** Where a thread is; a ticket is the number of arrivals before its own. */
  datatype Pc =
    | Out
    | Entering
    | Inside
    | Last(ticket: nat)
    | Pulsing(ticket: nat)
    | Unlocking
    | Staying(ticket: nat)
    | Between(ticket: nat)
    | Waiting(ticket: nat)

  type Threads = map<Tid, Pc>

  /**
   * `arrived`, `left` and `released` record what has happened: how many threads have been counted, the tickets of
   * those that have passed, how many each pulse let pass, and how many threads a pulse found between giving up the
   * lock and waiting.  The program has no such fields.
   */
  datatype State = State(count: nat, lock: Option<Tid>, threads: Threads, arrived: nat, left: set<nat>,
                         released: seq<nat>, missed: nat)

  datatype Action = Enter | Acquire | Count | Reset | Pulse | Unlock | SignalAndWait | StartWaiting

  type Event = T.Event<Action>

  const WORD: nat := 0x1_0000_0000

  const Start: State := State(0, None, map[], 0, {}, [], 0)

  function At(threads: Threads, t: Tid): Pc {
    T.At(threads, t, Out)
  }

  function Go(s: State, t: Tid, pc: Pc): State {
    s.(threads := s.threads[t := pc])
  }

  function WaitingThreads(threads: Threads): set<Tid> {
    set t | t in threads && threads[t].Waiting?
  }

  function BetweenThreads(threads: Threads): set<Tid> {
    set t | t in threads && threads[t].Between?
  }

  function WaitingTickets(threads: Threads): set<nat> {
    set t | t in threads && threads[t].Waiting? :: threads[t].ticket
  }

  /** Everybody who waits is let go. */
  function Woken(threads: Threads): Threads {
    map t | t in threads :: if threads[t].Waiting? then Out else threads[t]
  }

  function Step(threshold: nat, atomic: bool, s: State, e: Event): Option<State> {
    var t, pc := e.thread, At(s.threads, e.thread);
    match e.action
    case Enter => if pc == Out then Some(Go(s, t, Entering)) else None
    case Acquire => if pc == Entering && s.lock == None then Some(Go(s.(lock := Some(t)), t, Inside)) else None
    case Count =>
      if pc != Inside then None
      else
        var s' := s.(count := (s.count + 1) % WORD, arrived := s.arrived + 1);
        Some(Go(s', t, if s'.count == threshold then Last(s.arrived) else Staying(s.arrived)))
    case Reset => if pc.Last? then Some(Go(s.(count := 0), t, Pulsing(pc.ticket))) else None
    case Pulse =>
      if pc.Pulsing? then
        Some(Go(s.(threads := Woken(s.threads),
                   left := s.left + WaitingTickets(s.threads) + {pc.ticket},
                   released := s.released + [|WaitingThreads(s.threads)| + 1],
                   missed := s.missed + |BetweenThreads(s.threads)|), t, Unlocking))
      else None
    case Unlock => if pc == Unlocking then Some(Go(s.(lock := None), t, Out)) else None
    case SignalAndWait =>
      if pc.Staying? then Some(Go(s.(lock := None), t, if atomic then Waiting(pc.ticket) else Between(pc.ticket)))
      else None
    case StartWaiting => if pc.Between? then Some(Go(s, t, Waiting(pc.ticket))) else None
  }

  /** A run; it ends early, with None, at an event that cannot happen. */
  function Run(threshold: nat, atomic: bool, s: State, events: seq<Event>): Option<State>
    decreases |events|
  {
    if events == [] then Some(s)
    else
      var before := Run(threshold, atomic, s, events[..|events| - 1]);
      if before.None? then None else Step(threshold, atomic, before.value, events[|events| - 1])
  }

  // ---------- safety ----------

  predicate HasLock(pc: Pc) {
    pc == Inside || pc.Last? || pc.Pulsing? || pc == Unlocking || pc.Staying?
  }

  predicate HasTicket(pc: Pc) {
    pc.Last? || pc.Pulsing? || pc.Staying? || pc.Between? || pc.Waiting?
  }

  /** The number of rounds that are complete, and of arrivals in the round that is not. */
  predicate Counted(threshold: nat, s: State, last: bool) {
    s.arrived == |s.released| * threshold + s.count + (if last then threshold else 0)
  }

  /** The round of a ticket is full: `threshold` threads with tickets of that round have arrived. */
  predicate RoundIsFull(threshold: nat, s: State, ticket: nat)
    requires threshold > 0
  {
    (ticket / threshold + 1) * threshold <= s.arrived
  }

  ghost predicate LockOK(s: State) {
    forall t :: HasLock(At(s.threads, t)) <==> s.lock == Some(t)
  }

  ghost predicate TicketsOK(threshold: nat, s: State)
    requires threshold > 0
  {
    && (forall t :: HasTicket(At(s.threads, t)) ==> At(s.threads, t).ticket < s.arrived)
    && (forall k :: k in s.left ==> RoundIsFull(threshold, s, k))
  }

  /** The count, seen from whoever has the lock. */
  ghost predicate CountOK(threshold: nat, s: State) {
    match s.lock
    case None => Counted(threshold, s, false) && s.count < threshold
    case Some(t) =>
      var pc := At(s.threads, t);
      Counted(threshold, s, pc.Pulsing?) &&
      (if pc.Last? then s.count == threshold
       else if pc.Pulsing? || pc == Unlocking then s.count == 0
       else s.count < threshold)
  }

  ghost predicate Inv(threshold: nat, s: State)
    requires threshold > 0
  {
    LockOK(s) && TicketsOK(threshold, s) && CountOK(threshold, s)
  }

  lemma LockStep(threshold: nat, atomic: bool, s: State, e: Event)
    requires LockOK(s) && Step(threshold, atomic, s, e).Some?
    ensures LockOK(Step(threshold, atomic, s, e).value)
  {
    var s', t := Step(threshold, atomic, s, e).value, e.thread;
    assert forall u :: u != t ==> HasLock(At(s'.threads, u)) == HasLock(At(s.threads, u));
    assert HasLock(At(s.threads, t)) <==> s.lock == Some(t);
  }

  lemma FullUpTo(threshold: nat, k: nat, rounds: nat)
    requires threshold > 0 && k < rounds * threshold
    ensures (k / threshold + 1) * threshold <= rounds * threshold
  {
    if rounds <= k / threshold {
      Scales(rounds, k / threshold, threshold);
    }
    Scales(k / threshold + 1, rounds, threshold);
  }

  lemma WaitingArrived(threshold: nat, s: State, k: nat)
    requires threshold > 0 && TicketsOK(threshold, s) && k in WaitingTickets(s.threads)
    ensures k < s.arrived
  {
    var u :| u in s.threads && s.threads[u].Waiting? && s.threads[u].ticket == k;
    assert HasTicket(At(s.threads, u));
  }

  lemma TicketStep(threshold: nat, atomic: bool, s: State, e: Event)
    requires 0 < threshold < WORD && Inv(threshold, s) && Step(threshold, atomic, s, e).Some?
    ensures TicketsOK(threshold, Step(threshold, atomic, s, e).value)
  {
    var s', t := Step(threshold, atomic, s, e).value, e.thread;
    assert forall u :: u != t ==> At(s'.threads, u) == At(s.threads, u) || At(s'.threads, u) == Out;
    if e.action == Pulse {
      assert HasLock(At(s.threads, t));
      assert s.arrived == (|s.released| + 1) * threshold;
      forall k | k in s'.left
        ensures RoundIsFull(threshold, s', k)
      {
        if k in s.left {
          assert RoundIsFull(threshold, s, k);
        } else {
          if k in WaitingTickets(s.threads) {
            WaitingArrived(threshold, s, k);
          }
          FullUpTo(threshold, k, |s.released| + 1);
        }
      }
    } else {
      assert s'.left == s.left && forall k :: k in s.left ==> RoundIsFull(threshold, s, k) ==>
        RoundIsFull(threshold, s', k);
    }
  }

  lemma CountStep(threshold: nat, atomic: bool, s: State, e: Event)
    requires 0 < threshold < WORD && LockOK(s) && CountOK(threshold, s) && Step(threshold, atomic, s, e).Some?
    ensures CountOK(threshold, Step(threshold, atomic, s, e).value)
  {
    var s', t := Step(threshold, atomic, s, e).value, e.thread;
    assert HasLock(At(s.threads, t)) <==> s.lock == Some(t);
  }

  /** In every run, whether the wait is atomic or not. */
  lemma {:induction false} InvAlways(threshold: nat, atomic: bool, events: seq<Event>)
    requires 0 < threshold < WORD && Run(threshold, atomic, Start, events).Some?
    ensures Inv(threshold, Run(threshold, atomic, Start, events).value)
    decreases |events|
  {
    if events != [] {
      var n := |events| - 1;
      InvAlways(threshold, atomic, events[..n]);
      var s := Run(threshold, atomic, Start, events[..n]).value;
      LockStep(threshold, atomic, s, events[n]);
      TicketStep(threshold, atomic, s, events[n]);
      CountStep(threshold, atomic, s, events[n]);
    }
  }

  /** Nobody passes before the round is full, and the count is below the threshold whenever the lock is free. */
  lemma Safety(threshold: nat, atomic: bool, events: seq<Event>)
    requires 0 < threshold < 0x1_0000_0000 && Run(threshold, atomic, Start, events).Some?
    ensures var s := Run(threshold, atomic, Start, events).value;
            && (forall k :: k in s.left ==> RoundIsFull(threshold, s, k))
            && (s.lock == None ==> s.count < threshold && s.arrived == |s.released| * threshold + s.count)
            && (forall t, u :: HasLock(At(s.threads, t)) && HasLock(At(s.threads, u)) ==> t == u)
  {
    InvAlways(threshold, atomic, events);
  }

  // ---------- exactness ----------

  predicate AtLeast(k: nat, lo: nat) {
    lo <= k
  }

  function Range(lo: nat, hi: nat): set<nat> {
    set k: nat | k < hi && AtLeast(k, lo)
  }

  /** It has arrived and given up the lock. */
  predicate Stopped(pc: Pc) {
    pc.Between? || pc.Waiting?
  }

  /** It has arrived, and still has the lock. */
  predicate HeldBack(pc: Pc) {
    pc.Last? || pc.Pulsing? || pc.Staying?
  }

  function StoppedThreads(threads: Threads): set<Tid> {
    T.Those(threads, Stopped)
  }

  function StoppedTickets(threads: Threads): set<nat> {
    set t | t in threads && Stopped(threads[t]) :: threads[t].ticket
  }

  /** The first ticket of the open round. */
  function Base(threshold: nat, s: State): nat {
    |s.released| * threshold
  }

  predicate Even(threshold: nat, released: seq<nat>) {
    forall i :: 0 <= i < |released| ==> released[i] == threshold
  }

  /** The tickets of the open round are with the stopped threads and the one that has the lock. */
  ghost predicate Open(threshold: nat, s: State) {
    var base, tickets, number := Base(threshold, s), StoppedTickets(s.threads), |StoppedThreads(s.threads)|;
    && base <= s.arrived
    && if s.lock.Some? && HeldBack(At(s.threads, s.lock.value)) then
         At(s.threads, s.lock.value).ticket == s.arrived - 1 && base < s.arrived
           && tickets == Range(base, s.arrived - 1) && number == s.arrived - 1 - base
       else
         tickets == Range(base, s.arrived) && number == s.arrived - base
  }

  /** As long as no pulse has missed a thread, the rounds are complete; after that, one of them is not. */
  ghost predicate Exact(threshold: nat, s: State) {
    if s.missed == 0 then s.left == Range(0, Base(threshold, s)) && Even(threshold, s.released) && Open(threshold, s)
    else !Even(threshold, s.released)
  }

  lemma NumberMoves(m: Threads, t: Tid, pc: Pc)
    ensures |StoppedThreads(m[t := pc])| - |StoppedThreads(m)| == T.Counts(Stopped(pc)) - T.Counts(Stopped(At(m, t)))
  {
    T.OneMoves(m, t, pc, Out, Stopped);
  }

  lemma TicketsMove(m: Threads, t: Tid, pc: Pc)
    requires Stopped(At(m, t)) ==> Stopped(pc) && pc.ticket == At(m, t).ticket
    ensures StoppedTickets(m[t := pc]) == StoppedTickets(m) + (if Stopped(pc) then {pc.ticket} else {})
    ensures Stopped(At(m, t)) ==> StoppedTickets(m[t := pc]) == StoppedTickets(m)
  {
    var m' := m[t := pc];
    forall k: nat
      ensures k in StoppedTickets(m') <==> k in StoppedTickets(m) || (Stopped(pc) && k == pc.ticket)
    {
      if k in StoppedTickets(m) {
        var u :| u in m && Stopped(m[u]) && m[u].ticket == k;
        assert u in m' && Stopped(m'[u]) && m'[u].ticket == k;
      }
      if Stopped(pc) && k == pc.ticket {
        assert t in m' && Stopped(m'[t]);
      }
    }
    assert Stopped(At(m, t)) ==> t in m && pc.ticket in StoppedTickets(m);
  }

  lemma WaitingOrBetween(m: Threads)
    ensures |StoppedThreads(m)| == |WaitingThreads(m)| + |BetweenThreads(m)|
  {
    forall t
      ensures t in StoppedThreads(m) <==> t in WaitingThreads(m) + BetweenThreads(m)
      ensures !(t in WaitingThreads(m) && t in BetweenThreads(m))
    {
    }
    assert StoppedThreads(m) == WaitingThreads(m) + BetweenThreads(m) && WaitingThreads(m) !! BetweenThreads(m);
  }

  /** When nobody is between, everybody who has stopped is woken. */
  lemma AllWoken(m: Threads, t: Tid)
    requires BetweenThreads(m) == {} && !Stopped(At(m, t))
    ensures WaitingTickets(m) == StoppedTickets(m)
    ensures StoppedTickets(Woken(m)) == {} && StoppedThreads(Woken(m)) == {} && !Stopped(At(Woken(m), t))
  {
    forall u | u in m && Stopped(m[u])
      ensures m[u].Waiting?
    {
      assert u !in BetweenThreads(m);
    }
    forall u | u in Woken(m)
      ensures !Stopped(Woken(m)[u])
    {
      assert u in m;
    }
    assert StoppedThreads(Woken(m)) == {};
  }

  lemma RangeGrows(lo: nat, hi: nat)
    requires lo <= hi
    ensures Range(lo, hi + 1) == Range(lo, hi) + {hi} && Range(lo, lo) == {}
    ensures Range(0, lo) + Range(lo, hi) == Range(0, hi)
  {
  }

  /** When the last thread pulses, the stopped threads and itself are the open round. */
  lemma PulsingMeans(threshold: nat, s: State, t: Tid)
    requires LockOK(s) && CountOK(threshold, s) && Open(threshold, s) && At(s.threads, t).Pulsing?
    ensures s.lock == Some(t) && s.count == 0 && s.arrived == Base(threshold, s) + threshold > Base(threshold, s)
    ensures At(s.threads, t).ticket == s.arrived - 1
    ensures StoppedTickets(s.threads) == Range(Base(threshold, s), s.arrived - 1)
      && |StoppedThreads(s.threads)| == threshold - 1
  {
    assert HasLock(At(s.threads, t));
  }

  /** What a pulse does. */
  ghost predicate PulsedTo(threshold: nat, s: State, s': State, t: Tid)
    requires At(s.threads, t).Pulsing?
  {
    && s'.threads == Woken(s.threads)[t := Unlocking] && s'.lock == s.lock && s'.arrived == s.arrived
       && At(s'.threads, t) == Unlocking
    && s'.left == s.left + WaitingTickets(s.threads) + {At(s.threads, t).ticket}
    && s'.released == s.released + [|WaitingThreads(s.threads)| + 1]
    && s'.missed == s.missed + |BetweenThreads(s.threads)|
    && Base(threshold, s') == Base(threshold, s) + threshold
  }

  lemma PulseDoes(threshold: nat, atomic: bool, s: State, t: Tid)
    requires At(s.threads, t).Pulsing?
    ensures Step(threshold, atomic, s, Event(t, Pulse)).Some?
    ensures PulsedTo(threshold, s, Step(threshold, atomic, s, Event(t, Pulse)).value, t)
  {
  }

  /** A pulse that finds everybody waiting completes the round. */
  lemma PulseCompletes(threshold: nat, s: State, s': State, t: Tid)
    requires LockOK(s) && CountOK(threshold, s) && Open(threshold, s) && At(s.threads, t).Pulsing?
      && BetweenThreads(s.threads) == {}
    requires s.left == Range(0, Base(threshold, s)) && PulsedTo(threshold, s, s', t)
    ensures |WaitingThreads(s.threads)| + 1 == threshold
    ensures Open(threshold, s') && s'.left == Range(0, Base(threshold, s'))
  {
    hide LockOK, CountOK, Base, WaitingTickets, WaitingThreads, BetweenThreads, StoppedTickets, StoppedThreads, Range;
    hide Woken;
    WaitingOrBetween(s.threads);
    PulsingMeans(threshold, s, t);
    AllWoken(s.threads, t);
    NumberMoves(Woken(s.threads), t, Unlocking);
    TicketsMove(Woken(s.threads), t, Unlocking);
    RangeGrows(Base(threshold, s), s.arrived - 1);
    RangeGrows(0, s.arrived - 1);
    RangeGrows(s.arrived, s.arrived);
  }

  lemma PulseExact(threshold: nat, atomic: bool, s: State, t: Tid)
    requires LockOK(s) && CountOK(threshold, s) && Exact(threshold, s) && At(s.threads, t).Pulsing?
    ensures Step(threshold, atomic, s, Event(t, Pulse)).Some?
      && Exact(threshold, Step(threshold, atomic, s, Event(t, Pulse)).value)
  {
    hide LockOK, CountOK, Step, Base, WaitingTickets, WaitingThreads, BetweenThreads, StoppedTickets, StoppedThreads;
    hide Range, Woken, Open;
    PulseDoes(threshold, atomic, s, t);
    var s' := Step(threshold, atomic, s, Event(t, Pulse)).value;
    WaitingOrBetween(s.threads);
    var n := |s.released|;
    assert s'.released[n] == |WaitingThreads(s.threads)| + 1;
    assert forall i :: 0 <= i < n ==> s'.released[i] == s.released[i];
    if s.missed == 0 {
      PulsingMeans(threshold, s, t);
      if s'.missed == 0 {
        PulseCompletes(threshold, s, s', t);
      }
    }
  }

  /** Giving up the lock hands the ticket over to the stopped threads. */
  lemma SignalOpen(threshold: nat, atomic: bool, s: State, e: Event)
    requires LockOK(s) && Open(threshold, s) && e.action == SignalAndWait && Step(threshold, atomic, s, e).Some?
    ensures Open(threshold, Step(threshold, atomic, s, e).value)
  {
    hide StoppedTickets, StoppedThreads, Range, Base;
    var s', t := Step(threshold, atomic, s, e).value, e.thread;
    assert HasLock(At(s.threads, t));
    NumberMoves(s.threads, t, At(s'.threads, t));
    TicketsMove(s.threads, t, At(s'.threads, t));
    SameBase(threshold, s, s');
    RangeGrows(Base(threshold, s), s.arrived - 1);
  }

  lemma OtherOpen(threshold: nat, atomic: bool, s: State, e: Event)
    requires LockOK(s) && Open(threshold, s) && e.action != Pulse && e.action != SignalAndWait
      && Step(threshold, atomic, s, e).Some?
    ensures Open(threshold, Step(threshold, atomic, s, e).value)
  {
    hide StoppedTickets, StoppedThreads, Range, Base;
    var s', t := Step(threshold, atomic, s, e).value, e.thread;
    assert HasLock(At(s.threads, t)) <==> s.lock == Some(t);
    NumberMoves(s.threads, t, At(s'.threads, t));
    TicketsMove(s.threads, t, At(s'.threads, t));
    SameBase(threshold, s, s');
    assert StoppedTickets(s'.threads) == StoppedTickets(s.threads)
      && |StoppedThreads(s'.threads)| == |StoppedThreads(s.threads)|;
  }

  lemma OtherKeeps(threshold: nat, atomic: bool, s: State, e: Event)
    requires e.action != Pulse && Step(threshold, atomic, s, e).Some?
    ensures var s' := Step(threshold, atomic, s, e).value;
            s'.left == s.left && s'.released == s.released && s'.missed == s.missed
              && Base(threshold, s') == Base(threshold, s)
  {
  }

  lemma SameBase(threshold: nat, s: State, s': State)
    requires s'.released == s.released
    ensures Base(threshold, s') == Base(threshold, s)
  {
  }

  lemma {:induction false} ExactAlways(threshold: nat, atomic: bool, events: seq<Event>)
    requires 0 < threshold < WORD && Run(threshold, atomic, Start, events).Some?
    ensures Exact(threshold, Run(threshold, atomic, Start, events).value)
    decreases |events|
  {
    if events == [] {
      RangeGrows(0, 0);
      assert StoppedTickets(map[]) == {} && StoppedThreads(map[]) == {};
    } else {
      hide Open, Inv, LockOK, CountOK, TicketsOK, Step, Even, Range, Base;
      var n := |events| - 1;
      ExactAlways(threshold, atomic, events[..n]);
      var s, e := Run(threshold, atomic, Start, events[..n]).value, events[n];
      InvGives(threshold, atomic, events[..n]);
      if e.action == Pulse {
        OnlyWhenPulsing(threshold, atomic, s, e);
        PulseExact(threshold, atomic, s, e.thread);
      } else {
        OtherKeeps(threshold, atomic, s, e);
        if s.missed == 0 {
          if e.action == SignalAndWait {
            SignalOpen(threshold, atomic, s, e);
          } else {
            OtherOpen(threshold, atomic, s, e);
          }
        }
      }
    }
  }

  lemma InvGives(threshold: nat, atomic: bool, events: seq<Event>)
    requires 0 < threshold < WORD && Run(threshold, atomic, Start, events).Some?
    ensures var s := Run(threshold, atomic, Start, events).value;
            LockOK(s) && CountOK(threshold, s)
  {
    InvAlways(threshold, atomic, events);
  }

  lemma OnlyWhenPulsing(threshold: nat, atomic: bool, s: State, e: Event)
    requires e.action == Pulse && Step(threshold, atomic, s, e).Some?
    ensures At(s.threads, e.thread).Pulsing? && e == Event(e.thread, Pulse)
  {
  }

  ghost predicate NoneBetween(threads: Threads) {
    forall t :: !At(threads, t).Between?
  }

  lemma NobodyBetween(m: Threads)
    ensures NoneBetween(m) <==> |BetweenThreads(m)| == 0
  {
    if NoneBetween(m) {
      forall t | t in m
        ensures !m[t].Between?
      {
        assert !At(m, t).Between?;
      }
      assert BetweenThreads(m) == {};
    } else {
      var t :| At(m, t).Between?;
      assert t in BetweenThreads(m);
    }
  }

  /** Whenever one of the first `n` events was a pulse, it found nobody between giving up the lock and waiting. */
  ghost predicate PulsesFindNone(threshold: nat, atomic: bool, events: seq<Event>, n: nat)
    requires n <= |events|
  {
    forall i :: 0 <= i < n ==> PulseFindsNone(threshold, atomic, events, i)
  }

  ghost predicate PulseFindsNone(threshold: nat, atomic: bool, events: seq<Event>, i: nat)
    requires i < |events|
  {
    var before := Run(threshold, atomic, Start, events[..i]);
    events[i].action == Pulse && before.Some? ==> NoneBetween(before.value.threads)
  }

  lemma MissedByStep(threshold: nat, atomic: bool, s: State, e: Event)
    requires Step(threshold, atomic, s, e).Some?
    ensures Step(threshold, atomic, s, e).value.missed ==
            s.missed + if e.action == Pulse then |BetweenThreads(s.threads)| else 0
  {
  }

  lemma {:induction false} MissedIff(threshold: nat, atomic: bool, events: seq<Event>, n: nat)
    requires n <= |events| && Run(threshold, atomic, Start, events[..n]).Some?
    ensures Run(threshold, atomic, Start, events[..n]).value.missed == 0 <==>
      PulsesFindNone(threshold, atomic, events, n)
  {
    hide Step, NoneBetween, BetweenThreads;
    if n > 0 {
      assert events[..n][..n - 1] == events[..n - 1];
      MissedIff(threshold, atomic, events, n - 1);
      var before := Run(threshold, atomic, Start, events[..n - 1]).value;
      MissedByStep(threshold, atomic, before, events[n - 1]);
      NobodyBetween(before.threads);
      assert PulsesFindNone(threshold, atomic, events, n) <==>
          PulsesFindNone(threshold, atomic, events, n - 1) && PulseFindsNone(threshold, atomic, events, n - 1);
    }
  }

  /** Every pulse of a run lets exactly `threshold` threads pass if and only if none finds a thread between unlocking
      and waiting. */
  lemma Exactness(threshold: nat, atomic: bool, events: seq<Event>)
    requires 0 < threshold < WORD && Run(threshold, atomic, Start, events).Some?
    ensures var s := Run(threshold, atomic, Start, events).value;
            var exact := PulsesFindNone(threshold, atomic, events, |events|);
            && (Even(threshold, s.released) <==> exact)
            && (exact ==> forall k: nat :: k in s.left <==> k < |s.released| * threshold)
  {
    assert events[..|events|] == events;
    ExactAlways(threshold, atomic, events);
    MissedIff(threshold, atomic, events, |events|);
  }

  ghost predicate NoneStaying(threads: Threads) {
    forall t :: !At(threads, t).Staying?
  }

  /** No thread is ever between when that is no place to be, or when every thread is the last of its round. */
  lemma {:induction false} NeverMisses(threshold: nat, atomic: bool, events: seq<Event>)
    requires 0 < threshold < WORD && (atomic || threshold == 1) && Run(threshold, atomic, Start, events).Some?
    ensures var s := Run(threshold, atomic, Start, events).value;
            s.missed == 0 && NoneBetween(s.threads) && (threshold == 1 ==> NoneStaying(s.threads))
    decreases |events|
  {
    if events != [] {
      var n := |events| - 1;
      NeverMisses(threshold, atomic, events[..n]);
      InvGives(threshold, atomic, events[..n]);
      NotMissedByStep(threshold, atomic, Run(threshold, atomic, Start, events[..n]).value, events[n]);
    }
  }

  lemma NotMissedByStep(threshold: nat, atomic: bool, s: State, e: Event)
    requires 0 < threshold < WORD && (atomic || threshold == 1) && LockOK(s) && CountOK(threshold, s)
    requires s.missed == 0 && NoneBetween(s.threads) && (threshold == 1 ==> NoneStaying(s.threads))
    requires Step(threshold, atomic, s, e).Some?
    ensures var s' := Step(threshold, atomic, s, e).value;
            s'.missed == 0 && NoneBetween(s'.threads) && (threshold == 1 ==> NoneStaying(s'.threads))
  {
    var s', t := Step(threshold, atomic, s, e).value, e.thread;
    NobodyBetween(s.threads);
    assert HasLock(At(s.threads, t)) <==> s.lock == Some(t);
    assert !At(s.threads, t).Between? && (threshold == 1 ==> !At(s.threads, t).Staying?);
    assert forall u :: u != t ==> At(s'.threads, u) == At(s.threads, u) || At(s'.threads, u) == Out;
  }

  /** So each round is exact when giving up the lock and waiting are one step. */
  lemma AtomicRoundsAreExact(threshold: nat, events: seq<Event>)
    requires 0 < threshold < WORD && Run(threshold, true, Start, events).Some?
    ensures var s := Run(threshold, true, Start, events).value;
            && (forall i :: 0 <= i < |s.released| ==> s.released[i] == threshold)
            && (forall k: nat :: k in s.left <==> k < |s.released| * threshold)
  {
    NeverMisses(threshold, true, events);
    ExactAlways(threshold, true, events);
  }

  // ---------- what each thread does ----------

  /** A step moves the thread that takes it; a pulse also lets every waiting thread return; nobody else moves. */
  lemma WhoMoves(threshold: nat, atomic: bool, s: State, e: Event, u: Tid)
    requires Step(threshold, atomic, s, e).Some? && u != e.thread
    ensures At(Step(threshold, atomic, s, e).value.threads, u) ==
            if e.action == Pulse && At(s.threads, u).Waiting? then Out else At(s.threads, u)
  {
  }

  /** How a thread waits: by one step or by two. */
  function Waits(atomic: bool): seq<Action> {
    if atomic then [SignalAndWait] else [SignalAndWait, StartWaiting]
  }

  /** What a thread goes through from the call of wait() to its return: it completes the round, or waits for the pulse
      of the thread that does. */
  function Call(atomic: bool): seq<Action> -> bool {
    c => c == [Enter, Acquire, Count, Reset, Pulse, Unlock] || c == [Enter, Acquire, Count] + Waits(atomic)
  }

  /** The part of a call that a thread has behind it, by where it is. */
  function Within(atomic: bool): (Pc, seq<Action>) -> bool {
    (pc: Pc, part) =>
      match pc
      case Out => part == []
      case Entering => part == [Enter]
      case Inside => part == [Enter, Acquire]
      case Last(_) => part == [Enter, Acquire, Count]
      case Pulsing(_) => part == [Enter, Acquire, Count, Reset]
      case Unlocking => part == [Enter, Acquire, Count, Reset, Pulse]
      case Staying(_) => part == [Enter, Acquire, Count]
      case Between(_) => !atomic && part == [Enter, Acquire, Count, SignalAndWait]
      case Waiting(_) => part == [Enter, Acquire, Count] + Waits(atomic)
  }

  lemma NextInCall(threshold: nat, atomic: bool, s: State, e: Event, part: seq<Action>)
    requires Step(threshold, atomic, s, e).Some? && Within(atomic)(At(s.threads, e.thread), part)
    ensures var pc' := At(Step(threshold, atomic, s, e).value.threads, e.thread);
            if pc' == Out then Call(atomic)(part + [e.action]) else Within(atomic)(pc', part + [e.action])
  {
  }

  lemma CallStep(threshold: nat, atomic: bool, s: State, e: Event, history: seq<Action>)
    requires Step(threshold, atomic, s, e).Some?
    requires InCalls(history, At(s.threads, e.thread), Call(atomic), Within(atomic))
    ensures InCalls(history + [e.action], At(Step(threshold, atomic, s, e).value.threads, e.thread), Call(atomic),
              Within(atomic))
  {
    hide Step, InCalls;
    var pc, pc' := At(s.threads, e.thread), At(Step(threshold, atomic, s, e).value.threads, e.thread);
    forall part | Within(atomic)(pc, part)
      ensures if pc' == Out then Call(atomic)(part + [e.action]) else Within(atomic)(pc', part + [e.action])
    {
      NextInCall(threshold, atomic, s, e, part);
    }
    if pc' == Out {
      CallEnds(history, pc, pc', [e.action], Call(atomic), Within(atomic));
    } else {
      CallGoesOn(history, pc, e.action, pc', Call(atomic), Within(atomic));
    }
  }

  lemma PulseEndsCall(atomic: bool, history: seq<Action>, pc: Pc)
    requires pc.Waiting? && InCalls(history, pc, Call(atomic), Within(atomic))
    ensures InCalls(history, Out, Call(atomic), Within(atomic))
  {
    forall part | Within(atomic)(pc, part)
      ensures Call(atomic)(part + [])
    {
      assert part + [] == part;
    }
    CallEnds(history, pc, Out, [], Call(atomic), Within(atomic));
    assert history + [] == history;
  }

  /** In every run, each thread goes through whole calls of wait(), and is inside at most one: a thread that waits is
      let go by the pulse of another, and has then returned. */
  lemma {:induction false} CallsAreWhole(threshold: nat, atomic: bool, events: seq<Event>, t: Tid)
    requires Run(threshold, atomic, Start, events).Some?
    ensures InCalls(History(events, t), At(Run(threshold, atomic, Start, events).value.threads, t), Call(atomic),
              Within(atomic))
    decreases |events|
  {
    if events == [] {
      CallBegins(Out, Call(atomic), Within(atomic));
    } else {
      hide Step, InCalls;
      var n := |events| - 1;
      CallsAreWhole(threshold, atomic, events[..n], t);
      var s, e := Run(threshold, atomic, Start, events[..n]).value, events[n];
      if e.thread == t {
        CallStep(threshold, atomic, s, e, History(events[..n], t));
      } else {
        WhoMoves(threshold, atomic, s, e, t);
        if e.action == Pulse && At(s.threads, t).Waiting? {
          PulseEndsCall(atomic, History(events[..n], t), At(s.threads, t));
        }
      }
    }
  }

  // ---------- who has come and who has gone ----------

  /** It has called wait() and has not been counted. */
  predicate Coming(pc: Pc) {
    pc == Entering || pc == Inside
  }

  /** It has been counted and has not been let pass. */
  predicate Held(pc: Pc) {
    Stopped(pc) || HeldBack(pc)
  }

  /** How many calls of wait() there have been. */
  function Entered(events: seq<Event>): nat
    decreases |events|
  {
    if events == [] then 0
    else Entered(events[..|events| - 1]) + if events[|events| - 1].action == Enter then 1 else 0
  }

  function Sum(q: seq<nat>): nat
    decreases |q|
  {
    if q == [] then 0 else Sum(q[..|q| - 1]) + q[|q| - 1]
  }

  lemma PulseMoves(m: Threads, t: Tid, u: Tid)
    requires At(m, t).Pulsing?
    ensures var m' := Woken(m)[t := Unlocking];
            && (u in Those(m', Coming) <==> u in Those(m, Coming))
            && (u in Those(m', Held) <==> u in Those(m, Held) && u !in WaitingThreads(m) && u != t)
            && (u in WaitingThreads(m) ==> u in Those(m, Held))
            && t in Those(m, Held) && t !in WaitingThreads(m)
  {
  }

  /** A pulse lets the waiting threads pass and the one that pulses. */
  lemma PulsePasses(m: Threads, t: Tid)
    requires At(m, t).Pulsing?
    ensures |Those(Woken(m)[t := Unlocking], Coming)| == |Those(m, Coming)|
    ensures |Those(Woken(m)[t := Unlocking], Held)| == |Those(m, Held)| - |WaitingThreads(m)| - 1
  {
    hide T.Those, Woken, WaitingThreads, Coming, Held;
    var m', w := Woken(m)[t := Unlocking], WaitingThreads(m);
    PulseMoves(m, t, t);
    forall u
      ensures u in Those(m', Coming) <==> u in Those(m, Coming)
      ensures u in Those(m', Held) <==> u in Those(m, Held) - w - {t}
      ensures u in w ==> u in Those(m, Held)
    {
      PulseMoves(m, t, u);
    }
    assert Those(m', Coming) == Those(m, Coming) && Those(m', Held) == Those(m, Held) - w - {t};
    assert w <= Those(m, Held) && t in Those(m, Held) - w;
  }

  ghost predicate AllAccounted(s: State, entered: nat) {
    && entered == s.arrived + |Those(s.threads, Coming)|
    && s.arrived == Sum(s.released) + |Those(s.threads, Held)|
  }

  lemma AccountStep(threshold: nat, atomic: bool, s: State, e: Event, entered: nat)
    requires AllAccounted(s, entered) && Step(threshold, atomic, s, e).Some?
    ensures AllAccounted(Step(threshold, atomic, s, e).value, entered + if e.action == Enter then 1 else 0)
  {
    hide T.Those, Woken, WaitingThreads, BetweenThreads, WaitingTickets;
    var s', t := Step(threshold, atomic, s, e).value, e.thread;
    if e.action == Pulse {
      PulsePasses(s.threads, t);
      assert s'.released[..|s.released|] == s.released;
    } else {
      OneMoves(s.threads, t, At(s'.threads, t), Out, Coming);
      OneMoves(s.threads, t, At(s'.threads, t), Out, Held);
      assert s'.threads == s.threads[t := At(s'.threads, t)];
    }
  }

  /** A pulse comes when exactly the calls of one more round have been counted. */
  lemma PulsesAreOnTime(threshold: nat, atomic: bool, events: seq<Event>, t: Tid)
    requires 0 < threshold < 0x1_0000_0000 && Run(threshold, atomic, Start, events).Some?
    ensures var s := Run(threshold, atomic, Start, events).value;
            At(s.threads, t).Pulsing? ==> s.lock == Some(t) && s.arrived == (|s.released| + 1) * threshold
  {
    InvAlways(threshold, atomic, events);
    assert HasLock(At(Run(threshold, atomic, Start, events).value.threads, t)) <==>
        Run(threshold, atomic, Start, events).value.lock == Some(t);
  }

  /** In every run, each call of wait() is on its way to be counted, is counted and held, or has been let pass by one of
      the pulses. */
  lemma {:induction false} EveryCallCounts(threshold: nat, atomic: bool, events: seq<Event>)
    requires Run(threshold, atomic, Start, events).Some?
    ensures var s := Run(threshold, atomic, Start, events).value;
            && Entered(events) == s.arrived + |Those(s.threads, Coming)|
            && s.arrived == Sum(s.released) + |Those(s.threads, Held)|
    decreases |events|
  {
    if events == [] {
      assert Those(Start.threads, Coming) == {} && Those(Start.threads, Held) == {};
    } else {
      hide Step;
      var n := |events| - 1;
      EveryCallCounts(threshold, atomic, events[..n]);
      AccountStep(threshold, atomic, Run(threshold, atomic, Start, events[..n]).value, events[n], Entered(events[..n]));
    }
  }

  // ---------- who can go on ----------

  ghost predicate CanGoOn(threshold: nat, atomic: bool, s: State, t: Tid) {
    exists a: Action :: a != Enter && Step(threshold, atomic, s, Event(t, a)).Some?
  }

  /** A thread outside can call wait(); one inside cannot go on by itself exactly when it waits for the lock or for the
      pulse. */
  lemma GoesOnIff(threshold: nat, atomic: bool, s: State, t: Tid)
    ensures Step(threshold, atomic, s, Event(t, Enter)).Some? <==> At(s.threads, t) == Out
    ensures CanGoOn(threshold, atomic, s, t) <==>
              var pc := At(s.threads, t);
              pc != Out && !pc.Waiting? && (pc == Entering ==> s.lock == None)
  {
    var a := match At(s.threads, t)
      case Out => Enter
      case Entering => Acquire
      case Inside => Count
      case Last(_) => Reset
      case Pulsing(_) => Pulse
      case Unlocking => Unlock
      case Staying(_) => SignalAndWait
      case Between(_) => StartWaiting
      case Waiting(_) => Enter;
    var next := Step(threshold, atomic, s, Event(t, a));
  }

  lemma EvenSum(threshold: nat, released: seq<nat>)
    requires Even(threshold, released)
    ensures Sum(released) == |released| * threshold
  {
    if released != [] {
      var n := |released| - 1;
      assert forall i :: 0 <= i < n ==> released[..n][i] == released[i];
      EvenSum(threshold, released[..n]);
    }
  }

  lemma OnlyWaiting(m: Threads)
    requires forall t :: At(m, t) == Out || At(m, t).Waiting?
    ensures Those(m, Coming) == {} && Those(m, Held) == WaitingThreads(m)
  {
    forall t | t in m
      ensures m[t] == Out || m[t].Waiting?
    {
      assert At(m, t) == m[t];
    }
    forall t
      ensures t !in Those(m, Coming) && (t in Those(m, Held) <==> t in WaitingThreads(m))
    {
    }
  }

  /** When no thread can go on, those inside all wait for the pulse, and, where rounds are exact, they are too few for a
      round: as many as the calls that are left over when full rounds are taken away. */
  lemma NobodyWaitsInVain(threshold: nat, atomic: bool, events: seq<Event>)
    requires 0 < threshold < 0x1_0000_0000 && Run(threshold, atomic, Start, events).Some?
    requires forall t :: !CanGoOn(threshold, atomic, Run(threshold, atomic, Start, events).value, t)
    ensures var s := Run(threshold, atomic, Start, events).value;
            && s.lock == None && (forall t :: At(s.threads, t) == Out || At(s.threads, t).Waiting?)
            && (atomic || threshold == 1 ==>
               Entered(events) == |s.released| * threshold + |WaitingThreads(s.threads)|
               && |WaitingThreads(s.threads)| < threshold)
  {
    hide Step, Inv, TicketsOK;
    var s := Run(threshold, atomic, Start, events).value;
    InvGives(threshold, atomic, events);
    if s.lock.Some? {
      assert HasLock(At(s.threads, s.lock.value));
      GoesOnIff(threshold, atomic, s, s.lock.value);
    }
    forall t
      ensures At(s.threads, t) == Out || At(s.threads, t).Waiting?
    {
      GoesOnIff(threshold, atomic, s, t);
    }
    OnlyWaiting(s.threads);
    EveryCallCounts(threshold, atomic, events);
    if atomic || threshold == 1 {
      NeverMisses(threshold, atomic, events);
      ExactAlways(threshold, atomic, events);
      EvenSum(threshold, s.released);
    }
  }

  // ---------- a pulse that is missed ----------

  lemma Also(threshold: nat, events: seq<Event>, e: Event) returns (events': seq<Event>)
    requires Run(threshold, false, Start, events).Some?
    ensures Run(threshold, false, Start, events') ==
            Step(threshold, false, Run(threshold, false, Start, events).value, e)
  {
    events' := events + [e];
    assert events'[..|events|] == events;
  }

  lemma RunNothing(threshold: nat)
    ensures Run(threshold, false, Start, []) == Some(Start)
  {
  }

  /** The threads 0 to `k` - 1 have arrived in this order, have given up the lock and do not wait yet. */
  function Stuck(k: nat): Threads {
    map t | 0 <= t < k :: Between(t)
  }

  lemma StuckOneMore(k: nat, pc: Pc)
    ensures Stuck(k + 1) == Stuck(k)[k := Between(k)] && At(Stuck(k), k) == Out
    ensures WaitingThreads(Stuck(k)[k := pc]) == if pc.Waiting? then {k} else {}
    ensures !pc.Waiting? ==> WaitingTickets(Stuck(k)[k := pc]) == {} && Woken(Stuck(k)[k := pc]) == Stuck(k)[k := pc]
  {
    var m := Stuck(k)[k := pc];
    assert forall t :: t in m && t != k ==> m[t].Between?;
  }

  /** One more thread arrives, and is not the last of its round. */
  lemma ArriveSteps(threshold: nat, k: nat)
    requires k + 1 < threshold < WORD
    ensures var s := State(k, None, Stuck(k), k, {}, [], 0);
            var s1 := Go(s, k, Entering);
            var s2 := Go(s1.(lock := Some(k)), k, Inside);
            var s3 := Go(s2.(count := k + 1, arrived := k + 1), k, Staying(k));
            && Step(threshold, false, s, Event(k, Enter)) == Some(s1)
            && Step(threshold, false, s1, Event(k, Acquire)) == Some(s2)
            && Step(threshold, false, s2, Event(k, Count)) == Some(s3)
            && Step(threshold, false, s3, Event(k, SignalAndWait))
               == Some(State(k + 1, None, Stuck(k + 1), k + 1, {}, [], 0))
  {
    StuckOneMore(k, Out);
    var s1 := Stuck(k)[k := Entering][k := Inside][k := Staying(k)];
    assert s1[k := Between(k)] == Stuck(k)[k := Between(k)];
  }

  lemma {:induction false} ManyArrive(threshold: nat, k: nat) returns (events: seq<Event>)
    requires k < threshold < WORD
    ensures Run(threshold, false, Start, events) == Some(State(k, None, Stuck(k), k, {}, [], 0))
    decreases k
  {
    hide Run, Step;
    if k == 0 {
      events := [];
      RunNothing(threshold);
      assert Stuck(0) == map[];
    } else {
      events := ManyArrive(threshold, k - 1);
      ArriveSteps(threshold, k - 1);
      events := Also(threshold, events, Event(k - 1, Enter));
      events := Also(threshold, events, Event(k - 1, Acquire));
      events := Also(threshold, events, Event(k - 1, Count));
      events := Also(threshold, events, Event(k - 1, SignalAndWait));
    }
  }

  /** The last thread arrives, and its pulse finds nobody waiting. */
  lemma LastSteps(threshold: nat)
    requires 2 <= threshold < WORD
    ensures var k := threshold - 1;
            var s := State(k, None, Stuck(k), k, {}, [], 0);
            var s1 := Go(s, k, Entering);
            var s2 := Go(s1.(lock := Some(k)), k, Inside);
            var s3 := Go(s2.(count := threshold, arrived := threshold), k, Last(k));
            var s4 := Go(s3.(count := 0), k, Pulsing(k));
            && Step(threshold, false, s, Event(k, Enter)) == Some(s1)
            && Step(threshold, false, s1, Event(k, Acquire)) == Some(s2)
            && Step(threshold, false, s2, Event(k, Count)) == Some(s3)
            && Step(threshold, false, s3, Event(k, Reset)) == Some(s4)
            && s4.threads == Stuck(k)[k := Pulsing(k)]
  {
    StuckOneMore(threshold - 1, Out);
  }

  lemma PulseSteps(threshold: nat, s: State)
    requires threshold >= 2 && s.threads == Stuck(threshold - 1)[threshold - 1 := Pulsing(threshold - 1)]
    requires s.left == {} && s.released == [] && s.lock == Some(threshold - 1)
    ensures var k := threshold - 1;
            var r := Step(threshold, false, s, Event(k, Pulse));
            && r.Some? && r.value.released == [1] && r.value.left == {k} && r.value.count == s.count
               && r.value.arrived == s.arrived
            && r.value.threads == Stuck(k)[k := Unlocking]
            && var r' := Step(threshold, false, r.value, Event(k, Unlock));
               && r'.Some? && r'.value == Go(r.value.(lock := None), k, Out) && r'.value.threads == Stuck(k)[k := Out]
  {
    StuckOneMore(threshold - 1, Pulsing(threshold - 1));
  }

  /** When they are two steps, a pulse can come between them, for every threshold above 1: all threads of the round have
      arrived, one passes, and the others are still going to wait. */
  lemma PulseIsMissed(threshold: nat) returns (events: seq<Event>)
    requires 2 <= threshold < WORD
    ensures Run(threshold, false, Start, events).Some?
    ensures var s := Run(threshold, false, Start, events).value;
            && s.released == [1] && s.left == {threshold - 1} && s.lock == None && s.count == 0
               && s.arrived == threshold
            && forall t :: At(s.threads, t) == if 0 <= t < threshold - 1 then Between(t) else Out
  {
    hide Run, Step;
    var k := threshold - 1;
    events := ManyArrive(threshold, k);
    LastSteps(threshold);
    events := Also(threshold, events, Event(k, Enter));
    events := Also(threshold, events, Event(k, Acquire));
    events := Also(threshold, events, Event(k, Count));
    events := Also(threshold, events, Event(k, Reset));
    PulseSteps(threshold, Run(threshold, false, Start, events).value);
    events := Also(threshold, events, Event(k, Pulse));
    events := Also(threshold, events, Event(k, Unlock));
    forall t
      ensures At(Stuck(k)[k := Out], t) == if 0 <= t < k then Between(t) else Out
    {
      assert t in Stuck(k) <==> 0 <= t < k;
    }
  }

  /** The rounds of every run are exact if and only if giving up the lock and waiting are one step, or nobody waits. */
  lemma ExactIff(threshold: nat, atomic: bool)
    requires 0 < threshold < 0x1_0000_0000
    ensures (forall events :: Run(threshold, atomic, Start, events).Some? ==>
               Even(threshold, Run(threshold, atomic, Start, events).value.released))
            <==> atomic || threshold == 1
  {
    if atomic || threshold == 1 {
      forall events | Run(threshold, atomic, Start, events).Some?
        ensures Even(threshold, Run(threshold, atomic, Start, events).value.released)
      {
        NeverMisses(threshold, atomic, events);
        ExactAlways(threshold, atomic, events);
      }
    } else {
      var events := PulseIsMissed(threshold);
      assert Run(threshold, atomic, Start, events).value.released[0] != threshold;
    }
  }
}
