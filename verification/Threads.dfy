/** Any number of threads, each somewhere in its program. */
module Threads {
  type Tid = int

  datatype Event<A> = Event(thread: Tid, action: A)

  /** What one thread has done, in order. */
  ghost function History<A>(events: seq<Event<A>>, t: Tid): (h: seq<A>)
    decreases |events|
  {
    if |events| == 0 then []
    else
      var e, before := events[|events| - 1], History(events[..|events| - 1], t);
      if e.thread == t then before + [e.action] else before
  }

  /** One call after another. */
  ghost function Joined<A>(calls: seq<seq<A>>): seq<A>
    decreases |calls|
  {
    if |calls| == 0 then [] else Joined(calls[..|calls| - 1]) + calls[|calls| - 1]
  }

  predicate AllAre<A>(calls: seq<seq<A>>, isCall: seq<A> -> bool) {
    forall i :: 0 <= i < |calls| ==> isCall(calls[i])
  }

  /** Whole calls one after another, and the part of one that a thread has behind it where it is. */
  ghost predicate InCalls<Pc, A(!new)>(history: seq<A>, pc: Pc, isCall: seq<A> -> bool,
                                       within: (Pc, seq<A>) -> bool) {
    exists calls: seq<seq<A>>, part :: history == Joined(calls) + part && AllAre(calls, isCall) && within(pc, part)
  }

  lemma CallBegins<Pc, A(!new)>(pc: Pc, isCall: seq<A> -> bool, within: (Pc, seq<A>) -> bool)
    requires within(pc, [])
    ensures InCalls([], pc, isCall, within)
  {
    var calls: seq<seq<A>> := [];
    assert [] == Joined(calls) + [] && AllAre(calls, isCall);
  }

  /** A step takes the thread on in its call. */
  lemma CallGoesOn<Pc, A(!new)>(history: seq<A>, pc: Pc, a: A, pc': Pc, isCall: seq<A> -> bool,
                          within: (Pc, seq<A>) -> bool)
    requires InCalls(history, pc, isCall, within)
    requires forall part :: within(pc, part) ==> within(pc', part + [a])
    ensures InCalls(history + [a], pc', isCall, within)
  {
    var calls: seq<seq<A>>, part :| history == Joined(calls) + part && AllAre(calls, isCall) && within(pc, part);
    assert history + [a] == Joined(calls) + (part + [a]);
  }

  /** A thread whose call is whole is where calls begin. */
  lemma CallEnds<Pc, A(!new)>(history: seq<A>, pc: Pc, pc': Pc, last: seq<A>, isCall: seq<A> -> bool,
                        within: (Pc, seq<A>) -> bool)
    requires InCalls(history, pc, isCall, within) && within(pc', [])
    requires forall part :: within(pc, part) ==> isCall(part + last)
    ensures InCalls(history + last, pc', isCall, within)
  {
    var calls: seq<seq<A>>, part :| history == Joined(calls) + part && AllAre(calls, isCall) && within(pc, part);
    assert (calls + [part + last])[..|calls|] == calls;
    assert history + last == Joined(calls + [part + last]) + [];
    assert AllAre(calls + [part + last], isCall);
  }

  /** Threads that are not listed are at `out`, outside. */
  function At<Pc>(threads: map<Tid, Pc>, t: Tid, out: Pc): Pc {
    if t in threads then threads[t] else out
  }

  /** The threads at places of a kind. */
  function Those<Pc>(threads: map<Tid, Pc>, kind: Pc -> bool): set<Tid> {
    set t | t in threads && kind(threads[t])
  }

  function Counts(b: bool): int {
    if b then 1 else 0
  }

  /** When one thread moves, their number changes by that thread. */
  lemma OneMoves<Pc>(threads: map<Tid, Pc>, t: Tid, pc: Pc, out: Pc, kind: Pc -> bool)
    requires !kind(out)
    ensures |Those(threads[t := pc], kind)| - |Those(threads, kind)|
            == Counts(kind(pc)) - Counts(kind(At(threads, t, out)))
  {
    var before, after := Those(threads, kind), Those(threads[t := pc], kind);
    assert after == if kind(pc) then before + {t} else before - {t};
  }

  lemma NobodyThere<Pc>(threads: map<Tid, Pc>, out: Pc, kind: Pc -> bool)
    requires forall t :: !kind(At(threads, t, out))
    ensures Those(threads, kind) == {}
  {
    forall t | t in threads
      ensures !kind(threads[t])
    {
      assert !kind(At(threads, t, out));
    }
  }
}
