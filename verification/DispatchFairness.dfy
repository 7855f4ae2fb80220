/** When a dispatcher serves its busy-poll events, over any sequence of calls and posts. */
module DispatchFairness {
  import opened Basics
  import opened Dispatching

  /** What is asked of a dispatcher from outside. */
  datatype Call<E> =
    | Dispatch(numevents: nat)
    | Post(events: seq<E>, polls: seq<E>, onempty: Option<E>)
    | StopDispatching

  /** A call of dispatchEvents consists of turns of its loop; then it clears the stop flag. */
  datatype Input<E> = Turn(numevents: nat) | Posted(events: seq<E>, polls: seq<E>, onempty: Option<E>) | Stop(on: bool)

  /** The loop goes on with another turn. */
  predicate Runs<E>(s: State<E>, i: Input<E>) {
    i.Turn? && MakesTurn(s, i.numevents)
  }

  function Next<E>(s: State<E>, i: Input<E>): State<E> {
    match i
    case Turn(n) => if Runs(s, i) then s.Round(n).0 else s
    case Posted(es, ps, o) => s.AddEvents(es).AddBusyPollEvents(ps).OnQueueEmpty(o)
    case Stop(on) => s.(stop := on)
  }

  function After<E>(s: State<E>, ins: seq<Input<E>>): State<E>
    decreases |ins|
  {
    if ins == [] then s else Next(After(s, ins[..|ins| - 1]), ins[|ins| - 1])
  }

  function Called<E>(s: State<E>, c: Call<E>): State<E> {
    match c
    case Dispatch(n) => if n == 0 then s else s.Dispatch(n).0.(stop := false)
    case Post(es, ps, o) => s.AddEvents(es).AddBusyPollEvents(ps).OnQueueEmpty(o)
    case StopDispatching => s.(stop := true)
  }

  function AfterCalls<E>(s: State<E>, calls: seq<Call<E>>): State<E>
    decreases |calls|
  {
    if calls == [] then s else Called(AfterCalls(s, calls[..|calls| - 1]), calls[|calls| - 1])
  }

  lemma OneInput<E>(s: State<E>, ins: seq<Input<E>>, i: Input<E>)
    ensures After(s, ins + [i]) == Next(After(s, ins), i)
  {
    assert (ins + [i])[..|ins|] == ins;
  }

  lemma {:induction false} MoreInputs<E>(s: State<E>, ins: seq<Input<E>>, more: seq<Input<E>>)
    ensures After(s, ins + more) == After(After(s, ins), more)
    decreases |more|
  {
    if more == [] {
      assert ins + more == ins;
    } else {
      var front, last := more[..|more| - 1], more[|more| - 1];
      MoreInputs(s, ins, front);
      OneInput(s, ins + front, last);
      assert (ins + front) + [last] == ins + more;
    }
  }

  /** Every sequence of calls is a sequence of turns and posts. */
  lemma {:induction false} CallsAreTurns<E>(s: State<E>, calls: seq<Call<E>>) returns (ins: seq<Input<E>>)
    ensures After(s, ins) == AfterCalls(s, calls)
    decreases |calls|
  {
    if calls == [] {
      ins := [];
    } else {
      var front, last := calls[..|calls| - 1], calls[|calls| - 1];
      var before := CallsAreTurns(s, front);
      var more := CallIsTurns(After(s, before), last);
      MoreInputs(s, before, more);
      ins := before + more;
    }
  }

  lemma CallIsTurns<E>(s: State<E>, c: Call<E>) returns (ins: seq<Input<E>>)
    ensures After(s, ins) == Called(s, c)
  {
    match c
    case Dispatch(n) =>
      ins := DispatchIsTurns(s, n);
      if n > 0 {
        OneInput(s, ins, Stop(false));
        ins := ins + [Stop(false)];
      }
    case Post(es, ps, o) =>
      OneInput(s, [], Posted(es, ps, o));
      ins := [] + [Posted(es, ps, o)];
    case StopDispatching =>
      OneInput(s, [], Stop(true));
      ins := [] + [Stop(true)];
  }

  lemma {:induction false} DispatchIsTurns<E>(s: State<E>, n: nat) returns (ins: seq<Input<E>>)
    ensures After(s, ins) == s.Dispatch(n).0
    decreases n, if s.internalevnum == 0 then 1 else 0
  {
    if n == 0 || s.stop || !s.Bounded() || s.Check().1 == 0 {
      ins := [];
    } else {
      RoundMakesProgress(s, n);
      var (t, left) := s.Round(n);
      var more := DispatchIsTurns(t, left);
      OneInput(s, [], Turn(n));
      MoreInputs(s, [] + [Turn(n)], more);
      ins := ([] + [Turn(n)]) + more;
    }
  }

  // When a busy-poll event is let in.

  /** The turn begins with the count at zero, and finds both queues filled. */
  predicate Serves<E>(s: State<E>, i: Input<E>) {
    Runs(s, i) && s.internalevnum == 0 && s.mainq != [] && s.busypoll != []
  }

  /** A turn lets a busy-poll event in exactly if it begins with the count at zero and finds both queues filled. */
  lemma RoundMovesExactly<E>(s: State<E>, numevents: nat)
    requires s.Bounded() && s.Check().1 > 0
    ensures s.Round(numevents).0.moved != s.moved <==> s.internalevnum == 0 && s.mainq != [] && s.busypoll != []
    ensures s.Round(numevents).0.moved ==
            if s.internalevnum == 0 && s.mainq != [] && s.busypoll != [] then s.moved + [s.busypoll[0]] else s.moved
  {
    FireNMovesNone(s.Check().0, Min(s.Check().1, numevents), s.ChecksBusy());
  }

  lemma {:induction false} FireNMovesNone<E>(s: State<E>, n: nat, check: bool)
    requires |s.mainq| >= n
    ensures s.FireN(n, check).0.moved == s.moved
    decreases n
  {
    if n != 0 && !s.stop {
      var t := s.Fire();
      if !(check && t.busypoll != []) {
        FireNMovesNone(t, n - 1, check);
      }
    }
  }

  lemma NextMovesExactly<E>(s: State<E>, i: Input<E>)
    ensures Next(s, i).moved == if Serves(s, i) then s.moved + [s.busypoll[0]] else s.moved
  {
    if Runs(s, i) {
      RoundMovesExactly(s, i.numevents);
    }
  }

  ghost predicate ServesAt<E>(s: State<E>, ins: seq<Input<E>>, k: nat)
    requires k < |ins|
  {
    Serves(After(s, ins[..k]), ins[k])
  }

  /** However dispatching is cut into calls, and whatever is posted between them: busy-poll events stay where they
      are if and only if no turn begins with the count at zero and finds both queues filled. */
  lemma {:induction false} StarvedExactly<E>(s: State<E>, ins: seq<Input<E>>)
    ensures s.moved <= After(s, ins).moved
    ensures After(s, ins).moved == s.moved <==> forall k | 0 <= k < |ins| :: !ServesAt(s, ins, k)
    decreases |ins|
  {
    if ins != [] {
      var n := |ins| - 1;
      StarvedExactly(s, ins[..n]);
      NextMovesExactly(After(s, ins[..n]), ins[n]);
      ServedBefore(s, ins);
      assert ServesAt(s, ins, n) <==> Serves(After(s, ins[..n]), ins[n]);
    }
  }

  lemma ServedBefore<E>(s: State<E>, ins: seq<Input<E>>)
    requires ins != []
    ensures var n := |ins| - 1;
            (forall k | 0 <= k < |ins| :: !ServesAt(s, ins, k)) <==>
            (forall k | 0 <= k < n :: !ServesAt(s, ins[..n], k)) && !ServesAt(s, ins, n)
  {
    var front := ins[..|ins| - 1];
    assert forall k | 0 <= k < |front| :: front[..k] == ins[..k] && front[k] == ins[k];
    assert forall k | 0 <= k < |front| :: ServesAt(s, front, k) <==> ServesAt(s, ins, k);
  }

  /** Busy-poll events that are alone are never served: the call returns at once. */
  lemma PollsAloneWait<E>(s: State<E>, numevents: nat)
    requires s.Bounded() && s.mainq == [] && s.onempty == None
    ensures s.Dispatch(numevents) == (s, true)
  {
  }

  // How long it then takes.

  /** Later in the same run, also across calls. */
  ghost predicate Later<E>(s: State<E>, t: State<E>) {
    t.InOrder() && s.fired <= t.fired && s.entered <= t.entered && s.polls <= t.polls
  }

  lemma NextIsLater<E>(s: State<E>, i: Input<E>)
    requires s.InOrder()
    ensures Later(s, Next(s, i))
  {
    match i
    case Turn(n) =>
      if Runs(s, i) {
        RoundKeepsOrder(s, n);
      }
    case Posted(es, ps, o) =>
      assert (s.fired + s.mainq) + es == s.fired + (s.mainq + es);
      assert (s.moved + s.busypoll) + ps == s.moved + (s.busypoll + ps);
    case Stop(on) =>
  }

  lemma {:induction false} AfterIsLater<E>(s: State<E>, ins: seq<Input<E>>)
    requires s.InOrder()
    ensures Later(s, After(s, ins))
    decreases |ins|
  {
    if ins != [] {
      AfterIsLater(s, ins[..|ins| - 1]);
      NextIsLater(After(s, ins[..|ins| - 1]), ins[|ins| - 1]);
    }
  }

  lemma FirstStays<E>(s: State<E>, t: State<E>)
    requires s.InOrder() && Later(s, t) && s.busypoll != [] && t.moved == s.moved
    ensures t.busypoll != [] && t.busypoll[0] == s.busypoll[0]
  {
    assert s.busypoll[0] == s.polls[|s.moved|] == t.polls[|s.moved|];
  }

  /** From the first turn that begins so, the first busy-poll event is the very next one to fire after the events
      that are waiting then, however the rest is cut into calls and whatever is posted. */
  lemma ServedAfterOneQueue<E>(s: State<E>, ins: seq<Input<E>>, k: nat)
    requires s.InOrder() && s.busypoll != [] && k < |ins|
    requires After(s, ins[..k]).moved == s.moved && ServesAt(s, ins, k)
    ensures var u, t := After(s, ins[..k]), After(s, ins);
            if |t.fired| > |u.fired| + |u.mainq| then t.fired[|u.fired| + |u.mainq|] == s.busypoll[0]
            else var i := |u.fired| + |u.mainq| - |t.fired|; i < |t.mainq| && t.mainq[i] == s.busypoll[0]
  {
    var u := After(s, ins[..k]);
    AfterIsLater(s, ins[..k]);
    FirstStays(s, u);
    assert ins == (ins[..k] + [ins[k]]) + ins[k + 1..];
    OneInput(s, ins[..k], ins[k]);
    MoreInputs(s, ins[..k] + [ins[k]], ins[k + 1..]);
    StaysInLine(u, ins[k], ins[k + 1..]);
  }

  lemma StaysInLine<E>(u: State<E>, i: Input<E>, rest: seq<Input<E>>)
    requires u.InOrder() && Serves(u, i)
    ensures var t := After(Next(u, i), rest);
            if |t.fired| > |u.fired| + |u.mainq| then t.fired[|u.fired| + |u.mainq|] == u.busypoll[0]
            else var i := |u.fired| + |u.mainq| - |t.fired|; i < |t.mainq| && t.mainq[i] == u.busypoll[0]
  {
    CheckKeepsOrder(u);
    RoundKeepsOrder(u, i.numevents);
    AfterIsLater(Next(u, i), rest);
    PlaceIsKept(u.Polled(), After(Next(u, i), rest), |u.mainq|);
  }

  /** The count-down goes on over the calls: until that many events have fired no busy-poll event is moved. */
  ghost predicate Counting<E>(s: State<E>, t: State<E>) {
    && t.Bounded() && t.moved == s.moved && |s.fired| <= |t.fired|
    && t.internalevnum == s.internalevnum - (|t.fired| - |s.fired|)
  }

  lemma CountsOn<E>(s: State<E>, t: State<E>, i: Input<E>)
    requires t.InOrder() && Counting(s, t) && t.internalevnum > 0
    ensures Counting(s, Next(t, i))
  {
    NextMovesExactly(t, i);
    NextIsLater(t, i);
    if Runs(t, i) {
      RoundKeepsPlace(t, i.numevents);
    }
  }

  /** No turn begins with the count at zero and an empty main queue. */
  ghost predicate NeverEmpty<E>(s: State<E>, ins: seq<Input<E>>) {
    forall k | 0 <= k < |ins| :: FindsEvent(After(s, ins[..k]), ins[k])
  }

  predicate FindsEvent<E>(s: State<E>, i: Input<E>) {
    Runs(s, i) && s.internalevnum == 0 ==> s.mainq != []
  }

  lemma NeverEmptyBefore<E>(s: State<E>, ins: seq<Input<E>>)
    requires NeverEmpty(s, ins) && ins != []
    ensures NeverEmpty(s, ins[..|ins| - 1]) && FindsEvent(After(s, ins[..|ins| - 1]), ins[|ins| - 1])
  {
    var front := ins[..|ins| - 1];
    forall k | 0 <= k < |front|
      ensures FindsEvent(After(s, front[..k]), front[k])
    {
      assert front[..k] == ins[..k];
    }
  }

  /** Fairness over any sequence of turns and posts: as long as the main queue does not run empty, the first
      busy-poll event waits for no more events than the count says before it is let in. */
  lemma {:induction false} LetInAfterCountDown<E>(s: State<E>, ins: seq<Input<E>>)
    requires s.InOrder() && s.Bounded() && s.busypoll != [] && NeverEmpty(s, ins)
    ensures var t := After(s, ins);
            t.moved == s.moved ==> Counting(s, t) && |t.fired| <= |s.fired| + s.internalevnum
    decreases |ins|
  {
    if ins != [] && After(s, ins).moved == s.moved {
      var t, i := After(s, ins[..|ins| - 1]), ins[|ins| - 1];
      StarvedExactly(s, ins[..|ins| - 1]);
      NextMovesExactly(t, i);
      NeverEmptyBefore(s, ins);
      LetInAfterCountDown(s, ins[..|ins| - 1]);
      AfterIsLater(s, ins[..|ins| - 1]);
      CountsOrWaits(s, t, i);
    }
  }

  lemma CountsOrWaits<E>(s: State<E>, t: State<E>, i: Input<E>)
    requires s.InOrder() && s.busypoll != [] && Later(s, t) && Counting(s, t) && FindsEvent(t, i) && !Serves(t, i)
    ensures Counting(s, Next(t, i))
  {
    if Runs(t, i) {
      FirstStays(s, t);
      CountsOn(s, t, i);
    }
  }

  // The event for an empty queue.

  /** The turn begins with nothing to fire but the event for an empty queue. */
  predicate FindsEmpty<E>(s: State<E>, i: Input<E>) {
    Runs(s, i) && s.internalevnum == 0 && s.mainq == []
  }

  /** Until a turn finds the queue empty, the event for that waits, and no other takes its place. */
  lemma {:induction false} OnEmptyWaits<E>(s: State<E>, ins: seq<Input<E>>)
    requires s.onempty.Some? && forall k | 0 <= k < |ins| :: !FindsEmpty(After(s, ins[..k]), ins[k])
    ensures After(s, ins).onempty == s.onempty
    decreases |ins|
  {
    if ins != [] {
      var front, t := ins[..|ins| - 1], After(s, ins[..|ins| - 1]);
      assert forall k | 0 <= k < |front| :: front[..k] == ins[..k] && front[k] == ins[k];
      OnEmptyWaits(s, front);
      if Runs(t, ins[|ins| - 1]) {
        FireNKeepsOnEmpty(t.Check().0, Min(t.Check().1, ins[|ins| - 1].numevents), t.ChecksBusy());
      }
    }
  }

  lemma {:induction false} FireNKeepsOnEmpty<E>(s: State<E>, n: nat, check: bool)
    requires |s.mainq| >= n && s.onempty.Some?
    ensures s.FireN(n, check).0.onempty == s.onempty
    decreases n
  {
    if n != 0 && !s.stop {
      var t := s.Fire();
      if !(check && t.busypoll != []) {
        FireNKeepsOnEmpty(t, n - 1, check);
      }
    }
  }

  /** Then it is fired, alone, and its place is free for the event that it asks for itself. */
  lemma OnEmptyFires<E>(s: State<E>, i: Input<E>)
    requires FindsEmpty(s, i)
    ensures s.onempty.Some?
    ensures Next(s, i).fired == s.fired + [s.onempty.value] && Next(s, i).onempty == s.NextReaction().onempty
  {
    var c := s.Check().0;
    assert c.FireN(1, false) == (c.Fire(), 0);
    assert c.mainq == [s.onempty.value];
  }
}
