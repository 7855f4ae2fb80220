/** The simple dispatcher: a queue of events, and a second one whose events are let in one at a time. */
module Dispatching {
  import opened Basics

  /** What an event does to the dispatcher when it is triggered. */
  datatype Reaction<E> = Reaction(events: seq<E>, polls: seq<E>, onempty: Option<E>, stop: bool)

  /** The dispatcher as a value, with its history. `script` holds the reactions of the events to come, in the
      order in which events are triggered; when it runs out, events do nothing. */
  datatype State<E> = State(
    mainq: seq<E>, busypoll: seq<E>, internalevnum: nat, onempty: Option<E>, stop: bool,
    script: seq<Reaction<E>>,
    fired: seq<E>, entered: seq<E>, polls: seq<E>, moved: seq<E>) {

    /** Events fire in the order in which they entered the main queue, each once, and busy-poll events are
        moved to it in the order in which they were added, each once. */
    ghost predicate InOrder() {
      entered == fired + mainq && polls == moved + busypoll
    }

    /** What checkEmptyBusy asserts. */
    predicate Bounded() {
      internalevnum <= |mainq|
    }

    function NextReaction(): Reaction<E> {
      if script == [] then Reaction([], [], None, false) else script[0]
    }

    function AddEvents(es: seq<E>): State<E> {
      this.(mainq := mainq + es, entered := entered + es)
    }

    function AddBusyPollEvents(es: seq<E>): State<E> {
      this.(busypoll := busypoll + es, polls := polls + es)
    }

    function OnQueueEmpty(e: Option<E>): State<E> {
      if onempty.Some? then this else this.(onempty := e)
    }

    function React(r: Reaction<E>): State<E> {
      var s := AddEvents(r.events).AddBusyPollEvents(r.polls).OnQueueEmpty(r.onempty);
      s.(stop := stop || r.stop, script := if script == [] then [] else script[1..])
    }

    /** Takes the first event off the queue and triggers it. */
    function Fire(): State<E>
      requires mainq != []
    {
      this.(mainq := mainq[1..], fired := fired + [mainq[0]]).React(NextReaction())
    }

    /** i_dispatchNEvents: the new state, and how many of the `n` events are counted as still to be fired. */
    function FireN(n: nat, checkbusypoll: bool): (r: (State<E>, nat))
      requires |mainq| >= n
      ensures r.1 <= n
      decreases n
    {
      if n == 0 || stop then (this, n)
      else
        var s := Fire();
        if checkbusypoll && s.busypoll != [] then (s, n) else s.FireN(n - 1, checkbusypoll)
    }

    /** checkEmptyBusy: the new state, and how many events may be fired before it is asked again. */
    function Check(): (r: (State<E>, nat))
      requires Bounded()
      ensures r.0.Bounded() && r.1 <= |r.0.mainq|
    {
      if internalevnum != 0 then (this, internalevnum)
      else if mainq == [] then
        if onempty.Some? then (AddEvents([onempty.value]).(internalevnum := 1, onempty := None), 1) else (this, 0)
      else if busypoll != [] then
        (Polled(), |mainq| + 1)
      else (this.(internalevnum := 1), |mainq|)
    }

    predicate ChecksBusy() {
      internalevnum == 0 && mainq != [] && busypoll == []
    }

    /** Moves the first busy-poll event to the end of the main queue and remembers where it is. */
    function Polled(): State<E>
      requires busypoll != []
    {
      AddEvents([busypoll[0]]).(busypoll := busypoll[1..], moved := moved + [busypoll[0]], internalevnum := |mainq| + 1)
    }

    function Discount(dispatched: nat): State<E> {
      this.(internalevnum := if dispatched > internalevnum then 0 else internalevnum - dispatched)
    }

    /** One turn of the loop of dispatchNEvents: the new state, and what is left of `numevents`. */
    function Round(numevents: nat): (r: (State<E>, nat))
      requires Bounded() && Check().1 > 0
      ensures r.1 <= numevents
    {
      var (s, evchunk) := Check();
      var n := Min(evchunk, numevents);
      var (t, i) := s.FireN(n, ChecksBusy());
      (t.Discount(n - i), numevents - (n - i))
    }

    /** dispatchNEvents: the new state, and whether the assertion on internalevnum has held throughout. */
    function Dispatch(numevents: nat): (State<E>, bool)
      decreases numevents, if internalevnum == 0 then 1 else 0
    {
      if numevents == 0 || stop then (this, true)
      else if !Bounded() then (this, false)
      else if Check().1 == 0 then (this, true)
      else
        RoundMakesProgress(this, numevents);
        var (s, left) := Round(numevents);
        s.Dispatch(left)
    }

    function Work(): nat {
      |mainq| + |busypoll| + (if onempty.Some? then 1 else 0) + Promised(script)
    }
  }

  /** How many events all reactions to come bring with them, at most. */
  function Promised<E>(script: seq<Reaction<E>>): nat {
    if script == [] then 0 else |script[0].events| + |script[0].polls| + 1 + Promised(script[1..])
  }

  /** Among the next `n` reactions there is one that adds busy-poll events, and none before it asks for a stop. */
  predicate PollsTurnUp<E>(script: seq<Reaction<E>>, n: nat)
    decreases n
  {
    n > 0 && script != [] && (script[0].polls != [] || (!script[0].stop && PollsTurnUp(script[1..], n - 1)))
  }

  lemma RoundMakesProgress<E>(s: State<E>, numevents: nat)
    requires s.Bounded() && s.Check().1 > 0 && numevents > 0 && !s.stop
    ensures var (t, left) := s.Round(numevents);
            left < numevents || (left == numevents && s.internalevnum == 0 && t.internalevnum == 1)
  {
    var (c, evchunk) := s.Check();
    FireNCounts(c, Min(evchunk, numevents), s.ChecksBusy());
  }

  /** The loop is left early exactly if busy-poll events turn up in time. */
  lemma {:induction false} FireNBreaksExactly<E>(s: State<E>, n: nat)
    requires |s.mainq| >= n && s.busypoll == []
    ensures s.FireN(n, true).0.busypoll != [] <==> !s.stop && PollsTurnUp(s.script, n)
    decreases n
  {
    if n != 0 && !s.stop {
      var t := s.Fire();
      assert t.busypoll == s.NextReaction().polls;
      if t.busypoll == [] {
        FireNBreaksExactly(t, n - 1);
        assert s.FireN(n, true) == t.FireN(n - 1, true);
        NothingTurnsUp(t.script, n - 1);
      }
    }
  }

  lemma NothingTurnsUp<E>(script: seq<Reaction<E>>, n: nat)
    ensures script == [] ==> !PollsTurnUp(script, n)
  {
  }

  /** What the count returned by i_dispatchNEvents means: it is one too few if the loop was left because a
      busy-poll event had appeared, and exact otherwise. */
  lemma {:induction false} FireNCounts<E>(s: State<E>, n: nat, check: bool)
    requires |s.mainq| >= n
    requires check ==> s.busypoll == []
    ensures var (t, i) := s.FireN(n, check);
            && |t.fired| == |s.fired| + (n - i) + (if check && t.busypoll != [] then 1 else 0)
            && |t.mainq| >= i - (if check && t.busypoll != [] then 1 else 0)
            && t.internalevnum == s.internalevnum
            && (n > 0 && !s.stop ==> |t.fired| > |s.fired|)
            && (!check && !t.stop ==> i == 0)
    decreases n
  {
    if n == 0 || s.stop {
    } else {
      var t := s.Fire();
      if check && t.busypoll != [] {
      } else {
        FireNCounts(t, n - 1, check);
      }
    }
  }

  /** So it is told by the reactions to come. */
  lemma FireNCountsExactly<E>(s: State<E>, n: nat, check: bool)
    requires |s.mainq| >= n
    requires check ==> s.busypoll == []
    ensures var (t, i) := s.FireN(n, check);
            |t.fired| == |s.fired| + (n - i) + (if check && !s.stop && PollsTurnUp(s.script, n) then 1 else 0)
  {
    FireNCounts(s, n, check);
    if check {
      FireNBreaksExactly(s, n);
    }
  }

  // Order and conservation.

  /** `t` comes later in the same run. */
  ghost predicate Follows<E>(s: State<E>, t: State<E>) {
    && s.fired <= t.fired && s.entered <= t.entered && s.polls <= t.polls && s.moved <= t.moved
    && t.Work() + |t.fired| <= s.Work() + |s.fired|
    && |t.mainq| + |t.fired| >= |s.mainq| + |s.fired|
  }

  lemma FireKeepsOrder<E>(s: State<E>)
    requires s.InOrder() && s.mainq != []
    ensures s.Fire().InOrder() && Follows(s, s.Fire())
  {
    var r := s.NextReaction();
    assert s.fired + s.mainq == (s.fired + [s.mainq[0]]) + s.mainq[1..];
    assert (s.fired + s.mainq) + r.events == (s.fired + [s.mainq[0]]) + (s.mainq[1..] + r.events);
    assert (s.moved + s.busypoll) + r.polls == s.moved + (s.busypoll + r.polls);
  }

  lemma {:induction false} FireNKeepsOrder<E>(s: State<E>, n: nat, check: bool)
    requires s.InOrder() && |s.mainq| >= n
    ensures s.FireN(n, check).0.InOrder() && Follows(s, s.FireN(n, check).0)
    decreases n
  {
    if n != 0 && !s.stop {
      FireKeepsOrder(s);
      var t := s.Fire();
      if !(check && t.busypoll != []) {
        FireNKeepsOrder(t, n - 1, check);
      }
    }
  }

  lemma CheckKeepsOrder<E>(s: State<E>)
    requires s.InOrder() && s.Bounded()
    ensures s.Check().0.InOrder() && Follows(s, s.Check().0)
  {
    if s.internalevnum == 0 && s.mainq != [] && s.busypoll != [] {
      var b := s.busypoll[0];
      assert s.fired + s.mainq + [b] == s.fired + (s.mainq + [b]);
      assert s.moved + s.busypoll == s.moved + [b] + s.busypoll[1..];
    }
  }

  lemma RoundKeepsOrder<E>(s: State<E>, numevents: nat)
    requires s.InOrder() && s.Bounded() && s.Check().1 > 0
    ensures s.Round(numevents).0.InOrder() && Follows(s, s.Round(numevents).0)
    ensures Follows(s.Check().0, s.Round(numevents).0)
  {
    CheckKeepsOrder(s);
    var (c, evchunk) := s.Check();
    FireNKeepsOrder(c, Min(evchunk, numevents), s.ChecksBusy());
  }

  /** Whatever the events do, dispatching keeps the order of both queues, and loses and repeats no event. */
  lemma {:induction false} DispatchKeepsOrder<E>(s: State<E>, numevents: nat)
    requires s.InOrder()
    ensures s.Dispatch(numevents).0.InOrder() && Follows(s, s.Dispatch(numevents).0)
    decreases numevents, if s.internalevnum == 0 then 1 else 0
  {
    if numevents != 0 && !s.stop && s.Bounded() && s.Check().1 != 0 {
      RoundMakesProgress(s, numevents);
      RoundKeepsOrder(s, numevents);
      var (t, left) := s.Round(numevents);
      DispatchKeepsOrder(t, left);
    }
  }

  /** A call that finds something to do fires at least one event. */
  lemma DispatchFires<E>(s: State<E>, numevents: nat)
    requires s.InOrder() && s.Bounded() && numevents > 0 && !s.stop && (s.mainq != [] || s.onempty.Some?)
    ensures |s.Dispatch(numevents).0.fired| > |s.fired|
  {
    RoundMakesProgress(s, numevents);
    RoundKeepsOrder(s, numevents);
    var (c, evchunk) := s.Check();
    FireNCounts(c, Min(evchunk, numevents), s.ChecksBusy());
    var (t, left) := s.Round(numevents);
    DispatchKeepsOrder(t, left);
  }

  // The bound that checkEmptyBusy asserts.

  /** The only event there is turns to the busy-poll queue alone. */
  predicate LeavesOnlyPolls<E>(s: State<E>) {
    s.ChecksBusy() && |s.mainq| == 1 && s.NextReaction().events == [] && s.NextReaction().polls != []
  }

  /** A turn of the loop keeps the bound in every state but one: the queue held one event, there was no
      busy-poll event, and the event added some, but no event. */
  lemma RoundIsBoundedExactly<E>(s: State<E>, numevents: nat)
    requires s.InOrder() && s.Bounded() && s.Check().1 > 0 && numevents > 0 && !s.stop
    ensures s.Round(numevents).0.Bounded() <==> !LeavesOnlyPolls(s)
  {
    if s.ChecksBusy() {
      CheckingRoundIsBoundedExactly(s, numevents);
    } else {
      var (c, evchunk) := s.Check();
      CheckKeepsOrder(s);
      FireNKeepsOrder(c, Min(evchunk, numevents), false);
      FireNCounts(c, Min(evchunk, numevents), false);
    }
  }

  lemma CheckingRoundIsBoundedExactly<E>(s: State<E>, numevents: nat)
    requires s.InOrder() && s.ChecksBusy() && numevents > 0 && !s.stop
    ensures s.Round(numevents).0.Bounded() <==> !LeavesOnlyPolls(s)
  {
    var c, n := s.Check().0, Min(|s.mainq|, numevents);
    var t := c.Fire();
    assert t.mainq == s.mainq[1..] + s.NextReaction().events && t.busypoll == s.NextReaction().polls;
    if t.busypoll != [] {
      assert c.FireN(n, true) == (t, n);
    } else {
      FireNCounts(t, n - 1, true);
      assert c.FireN(n, true) == t.FireN(n - 1, true);
    }
  }

  /** Then the next turn runs into the assertion. */
  lemma LoneEventBreaksTheBound<E>(s: State<E>, numevents: nat)
    requires s.InOrder() && LeavesOnlyPolls(s) && numevents > 0 && !s.stop && !s.NextReaction().stop
    ensures !s.Dispatch(numevents).1
  {
    RoundIsBoundedExactly(s, numevents);
    RoundMakesProgress(s, numevents);
    var c := s.Check().0;
    var t := c.Fire();
    assert c.FireN(1, true) == (t, 1);
    assert t.busypoll == s.NextReaction().polls && !t.stop;
    assert s.Round(numevents) == (t.Discount(0), numevents);
    assert s.Dispatch(numevents) == t.Discount(0).Dispatch(numevents);
  }

  /** The smallest case: an event alone in the queue that adds a busy-poll event. */
  lemma BoundFails()
    ensures var s := State(["e"], [], 0, None, false, [Reaction([], ["p"], None, false)], [], ["e"], [], []);
            s.InOrder() && s.Bounded() && !s.Dispatch(1).1
  {
    var s := State(["e"], [], 0, None, false, [Reaction([], ["p"], None, false)], [], ["e"], [], []);
    LoneEventBreaksTheBound(s, 1);
  }

  /** The loop of a call that may still count `numevents` events makes another turn. */
  predicate MakesTurn<E>(s: State<E>, numevents: nat) {
    numevents > 0 && !s.stop && s.Bounded() && s.Check().1 > 0
  }

  /** The state after `k` turns of the loop, or after the last one, and what is left of `numevents`. */
  function AfterTurns<E>(s: State<E>, numevents: nat, k: nat): (State<E>, nat)
    decreases k
  {
    if k == 0 || !MakesTurn(s, numevents) then (s, numevents)
    else
      var (t, left) := s.Round(numevents);
      AfterTurns(t, left, k - 1)
  }

  /** Turn number `k` begins with the only event, which turns to the busy-poll queue alone and asks for no stop. */
  ghost predicate BreaksAt<E>(s: State<E>, numevents: nat, k: nat) {
    var (u, left) := AfterTurns(s, numevents, k);
    MakesTurn(u, left) && LeavesOnlyPolls(u) && !u.NextReaction().stop
  }

  /** A call runs into the assertion if and only if one of its turns begins so. */
  lemma {:induction false} DispatchFailsExactly<E>(s: State<E>, numevents: nat)
    requires s.InOrder() && s.Bounded()
    ensures !s.Dispatch(numevents).1 <==> exists k: nat :: BreaksAt(s, numevents, k)
    decreases numevents, if s.internalevnum == 0 then 1 else 0
  {
    if MakesTurn(s, numevents) {
      RoundMakesProgress(s, numevents);
      RoundKeepsOrder(s, numevents);
      RoundIsBoundedExactly(s, numevents);
      LaterTurns(s, numevents);
      var (t, left) := s.Round(numevents);
      if !LeavesOnlyPolls(s) {
        DispatchFailsExactly(t, left);
      } else if s.NextReaction().stop {
        assert s.Check().0.FireN(1, true) == (s.Check().0.Fire(), 1);
        assert t.stop;
      } else {
        LoneEventBreaksTheBound(s, numevents);
        assert BreaksAt(s, numevents, 0);
      }
    }
  }

  lemma LaterTurns<E>(s: State<E>, numevents: nat)
    requires MakesTurn(s, numevents)
    ensures var (t, left) := s.Round(numevents);
            (exists k: nat :: BreaksAt(s, numevents, k))
            <==> BreaksAt(s, numevents, 0) || exists k: nat :: BreaksAt(t, left, k)
  {
    var (t, left) := s.Round(numevents);
    assert forall k: nat :: k > 0 ==> (BreaksAt(s, numevents, k) <==> BreaksAt(t, left, k - 1));
    assert forall k: nat :: BreaksAt(t, left, k) <==> BreaksAt(s, numevents, k + 1);
  }

  /** No event adds busy-poll events without adding an event. */
  ghost predicate PollsInCompany<E>(script: seq<Reaction<E>>) {
    forall i | 0 <= i < |script| :: script[i].events == [] ==> script[i].polls == []
  }

  lemma {:induction false} FireNKeepsCompany<E>(s: State<E>, n: nat, check: bool)
    requires |s.mainq| >= n && PollsInCompany(s.script)
    ensures PollsInCompany(s.FireN(n, check).0.script)
    decreases n
  {
    if n != 0 && !s.stop {
      var t := s.Fire();
      assert PollsInCompany(t.script);
      if !(check && t.busypoll != []) {
        FireNKeepsCompany(t, n - 1, check);
      }
    }
  }

  /** In their absence the assertion holds through every call. */
  lemma {:induction false} DispatchIsBounded<E>(s: State<E>, numevents: nat)
    requires s.InOrder() && s.Bounded() && PollsInCompany(s.script)
    ensures s.Dispatch(numevents).1 && s.Dispatch(numevents).0.Bounded()
    ensures PollsInCompany(s.Dispatch(numevents).0.script)
    decreases numevents, if s.internalevnum == 0 then 1 else 0
  {
    if numevents != 0 && !s.stop && s.Check().1 != 0 {
      RoundMakesProgress(s, numevents);
      RoundKeepsOrder(s, numevents);
      RoundIsBoundedExactly(s, numevents);
      var (c, evchunk) := s.Check();
      FireNKeepsCompany(c, Min(evchunk, numevents), s.ChecksBusy());
      var (t, left) := s.Round(numevents);
      DispatchIsBounded(t, left);
    }
  }

  // Stopping.

  /** `m` events fire one after another, each with the next reaction and only while the stop flag is not set; then
      `rest` is left of `script`, and the flag has gone from `before` to `after`. */
  ghost predicate Used<E>(script: seq<Reaction<E>>, rest: seq<Reaction<E>>, m: nat, before: bool, after: bool)
    decreases m
  {
    if m == 0 then rest == script && after == before
    else if script == [] then !before && Used([], rest, m - 1, false, after)
    else !before && Used(script[1..], rest, m - 1, script[0].stop, after)
  }

  lemma {:induction false} UsedTwice<E>(a: seq<Reaction<E>>, b: seq<Reaction<E>>, c: seq<Reaction<E>>, m: nat, n: nat,
                                        x: bool, y: bool, z: bool)
    requires Used(a, b, m, x, y) && Used(b, c, n, y, z)
    ensures Used(a, c, m + n, x, z)
    decreases m
  {
    if m > 0 {
      UsedTwice(if a == [] then [] else a[1..], b, c, m - 1, n, if a == [] then false else a[0].stop, y, z);
    }
  }

  /** Read off the script: no reaction but the last one asked for a stop. */
  lemma {:induction false} UsedMeans<E>(
    script: seq<Reaction<E>>, rest: seq<Reaction<E>>, m: nat, before: bool, after: bool)
    requires Used(script, rest, m, before, after)
    ensures rest == script[Min(m, |script|)..] && (before ==> m == 0)
    ensures forall i | 0 <= i < m - 1 && i < |script| :: !script[i].stop
    ensures after <==> before || (0 < m <= |script| && script[m - 1].stop)
    decreases m
  {
    if m > 0 && script != [] {
      UsedMeans(script[1..], rest, m - 1, script[0].stop, after);
      assert forall i | 0 < i < |script| :: script[i] == script[1..][i - 1];
    } else if m > 0 {
      UsedMeans([], rest, m - 1, false, after);
    }
  }

  ghost predicate UsedUp<E>(s: State<E>, t: State<E>) {
    |s.fired| <= |t.fired| && Used(s.script, t.script, |t.fired| - |s.fired|, s.stop, t.stop)
  }

  lemma UsedUpTwice<E>(s: State<E>, t: State<E>, u: State<E>)
    requires UsedUp(s, t) && UsedUp(t, u)
    ensures UsedUp(s, u)
  {
    UsedTwice(s.script, t.script, u.script, |t.fired| - |s.fired|, |u.fired| - |t.fired|, s.stop, t.stop, u.stop);
  }

  lemma {:induction false} FireNStops<E>(s: State<E>, n: nat, check: bool)
    requires |s.mainq| >= n
    ensures UsedUp(s, s.FireN(n, check).0)
    decreases n
  {
    if n != 0 && !s.stop {
      var t := s.Fire();
      assert Used(t.script, t.script, 0, t.stop, t.stop);
      if !(check && t.busypoll != []) {
        FireNStops(t, n - 1, check);
        UsedUpTwice(s, t, t.FireN(n - 1, check).0);
      }
    }
  }

  lemma RoundStops<E>(s: State<E>, numevents: nat)
    requires s.Bounded() && s.Check().1 > 0
    ensures UsedUp(s, s.Round(numevents).0)
  {
    FireNStops(s.Check().0, Min(s.Check().1, numevents), s.ChecksBusy());
  }

  lemma {:induction false} DispatchStops<E>(s: State<E>, numevents: nat)
    ensures UsedUp(s, s.Dispatch(numevents).0)
    decreases numevents, if s.internalevnum == 0 then 1 else 0
  {
    if MakesTurn(s, numevents) {
      RoundMakesProgress(s, numevents);
      RoundStops(s, numevents);
      var (t, left) := s.Round(numevents);
      DispatchStops(t, left);
      UsedUpTwice(s, t, s.Dispatch(numevents).0);
    }
  }

  /** A stop stops the call at once: of the reactions that a call uses up, one for each event it fires, only the last
      may ask for it, also while the call counts down to an internal event; and then the call ends stopped. */
  lemma StopEndsTheCall<E>(s: State<E>, numevents: nat)
    ensures var t := s.Dispatch(numevents).0;
            var m := |t.fired| - |s.fired|;
            && m >= 0 && t.script == s.script[Min(m, |s.script|)..] && (s.stop ==> m == 0)
            && (forall i | 0 <= i < m - 1 && i < |s.script| :: !s.script[i].stop)
            && (t.stop <==> s.stop || (0 < m <= |s.script| && s.script[m - 1].stop))
  {
    var t := s.Dispatch(numevents).0;
    DispatchStops(s, numevents);
    UsedMeans(s.script, t.script, |t.fired| - |s.fired|, s.stop, t.stop);
  }

  /** And nothing else ends a call early: it has counted all the events it was asked for, or it was stopped, or it
      ran into the assertion, or there is nothing left to fire. */
  lemma {:induction false} DispatchGoesOn<E>(s: State<E>, numevents: nat)
    ensures var (t, ok) := s.Dispatch(numevents);
            Uncounted(s, numevents).1 == 0 || t.stop || !ok || (t.mainq == [] && t.onempty == None)
    decreases numevents, if s.internalevnum == 0 then 1 else 0
  {
    if MakesTurn(s, numevents) {
      RoundMakesProgress(s, numevents);
      var (t, left) := s.Round(numevents);
      DispatchGoesOn(t, left);
    }
  }

  // Nothing that is added is dropped.

  /** What the first `m` of these reactions add to the main queue, and to the busy-poll queue. */
  function EventsBy<E>(script: seq<Reaction<E>>, m: nat): seq<E>
    decreases m
  {
    if m == 0 || script == [] then [] else script[0].events + EventsBy(script[1..], m - 1)
  }

  function PollsBy<E>(script: seq<Reaction<E>>, m: nat): seq<E>
    decreases m
  {
    if m == 0 || script == [] then [] else script[0].polls + PollsBy(script[1..], m - 1)
  }

  function Rest<E>(script: seq<Reaction<E>>, m: nat): seq<Reaction<E>> {
    script[Min(m, |script|)..]
  }

  lemma RestTwice<E>(script: seq<Reaction<E>>, m: nat, n: nat)
    ensures Rest(script, m + n) == Rest(Rest(script, m), n)
  {
  }

  lemma {:induction false} EventsByTwice<E>(script: seq<Reaction<E>>, m: nat, n: nat)
    ensures EventsBy(script, m + n) == EventsBy(script, m) + EventsBy(Rest(script, m), n)
    decreases m
  {
    if m != 0 && script != [] {
      EventsByTwice(script[1..], m - 1, n);
      RestOfRest(script, m);
      Joined(script[0].events, EventsBy(script[1..], m - 1), EventsBy(Rest(script, m), n));
    } else {
      assert Rest(script, m) == script;
    }
  }

  lemma {:induction false} PollsByTwice<E>(script: seq<Reaction<E>>, m: nat, n: nat)
    ensures PollsBy(script, m + n) == PollsBy(script, m) + PollsBy(Rest(script, m), n)
    decreases m
  {
    if m != 0 && script != [] {
      PollsByTwice(script[1..], m - 1, n);
      RestOfRest(script, m);
      Joined(script[0].polls, PollsBy(script[1..], m - 1), PollsBy(Rest(script, m), n));
    } else {
      assert Rest(script, m) == script;
    }
  }

  lemma RestOfRest<E>(script: seq<Reaction<E>>, m: nat)
    requires m != 0 && script != []
    ensures Rest(script, m) == Rest(script[1..], m - 1)
  {
  }

  lemma Joined<T>(a: seq<T>, b: seq<T>, c: seq<T>)
    ensures (a + b) + c == a + (b + c)
  {
  }

  /** From `s` to `t`, `m` events have fired and added what their reactions say: the busy-poll events in order, and
      the events together with those moved from the busy-poll queue. */
  ghost predicate TookIn<E>(s: State<E>, t: State<E>, m: nat) {
    && |t.fired| == |s.fired| + m && t.script == Rest(s.script, m)
    && t.polls == s.polls + PollsBy(s.script, m)
    && multiset(s.entered) + multiset(EventsBy(s.script, m)) + multiset(t.moved)
       <= multiset(t.entered) + multiset(s.moved)
  }

  lemma TookInTwice<E>(s: State<E>, t: State<E>, u: State<E>, m: nat, n: nat)
    requires TookIn(s, t, m) && TookIn(t, u, n)
    ensures TookIn(s, u, m + n)
  {
    RestTwice(s.script, m, n);
    EventsByTwice(s.script, m, n);
    PollsByTwice(s.script, m, n);
    Joined(s.polls, PollsBy(s.script, m), PollsBy(t.script, n));
    SumUp(multiset(s.entered), multiset(t.entered), multiset(u.entered), multiset(EventsBy(s.script, m)),
      multiset(EventsBy(t.script, n)), multiset(s.moved), multiset(t.moved), multiset(u.moved));
  }

  lemma SumUp<E>(e: multiset<E>, f: multiset<E>, g: multiset<E>, a: multiset<E>, b: multiset<E>, x: multiset<E>,
                 y: multiset<E>, z: multiset<E>)
    requires e + a + y <= f + x && f + b + z <= g + y
    ensures e + (a + b) + z <= g + x
  {
    forall v: E
      ensures (e + (a + b) + z)[v] <= (g + x)[v]
    {
      assert (e + a + y)[v] <= (f + x)[v] && (f + b + z)[v] <= (g + y)[v];
    }
  }

  lemma SubtractBoth<E>(e: multiset<E>, g: multiset<E>, a: multiset<E>, x: multiset<E>, z: multiset<E>)
    requires e + a + (x + z) <= g + x
    ensures e + a + z <= g
  {
    forall v: E
      ensures (e + a + z)[v] <= g[v]
    {
      assert (e + a + (x + z))[v] <= (g + x)[v];
    }
  }

  lemma FireTakesIn<E>(s: State<E>)
    requires s.mainq != []
    ensures TookIn(s, s.Fire(), 1)
  {
    if s.script != [] {
      assert EventsBy(s.script, 1) == s.script[0].events + EventsBy(s.script[1..], 0) == s.script[0].events;
      assert PollsBy(s.script, 1) == s.script[0].polls + PollsBy(s.script[1..], 0) == s.script[0].polls;
    }
  }

  lemma {:induction false} FireNTakesIn<E>(s: State<E>, n: nat, check: bool, u: State<E>)
    requires |s.mainq| >= n && u == s.FireN(n, check).0
    ensures exists m: nat :: TookIn(s, u, m)
    decreases n
  {
    if n == 0 || s.stop {
      NothingTakenIn(s);
    } else {
      var t := s.Fire();
      FireTakesIn(s);
      if !(check && t.busypoll != []) {
        FireNTakesIn(t, n - 1, check, u);
        TakesInMore(s, t, u, 1);
      }
    }
  }

  lemma TakesInMore<E>(s: State<E>, t: State<E>, u: State<E>, m: nat)
    requires TookIn(s, t, m) && exists k: nat :: TookIn(t, u, k)
    ensures exists k: nat :: TookIn(s, u, k)
  {
    var k: nat :| TookIn(t, u, k);
    TookInTwice(s, t, u, m, k);
  }

  lemma NothingTakenIn<E>(s: State<E>)
    ensures TookIn(s, s, 0)
  {
    assert s.polls + [] == s.polls;
  }

  lemma CheckTakesIn<E>(s: State<E>, t: State<E>)
    requires s.Bounded() && t == s.Check().0
    ensures TookIn(s, t, 0)
  {
    assert s.polls + [] == s.polls;
    if s.internalevnum == 0 && s.mainq != [] && s.busypoll != [] {
      assert t.moved == s.moved + [s.busypoll[0]] && t.entered == s.entered + [s.busypoll[0]];
    } else {
      assert t.moved == s.moved && s.entered <= t.entered;
    }
  }

  lemma RoundTakesIn<E>(s: State<E>, numevents: nat)
    requires s.Bounded() && s.Check().1 > 0
    ensures exists m: nat :: TookIn(s, s.Round(numevents).0, m)
  {
    var (c, evchunk) := s.Check();
    var f := c.FireN(Min(evchunk, numevents), s.ChecksBusy()).0;
    CheckTakesIn(s, c);
    FireNTakesIn(c, Min(evchunk, numevents), s.ChecksBusy(), f);
    TakesInMore(s, c, f, 0);
    SameTakenIn(s, f, s.Round(numevents).0);
  }

  lemma SameTakenIn<E>(s: State<E>, f: State<E>, t: State<E>)
    requires (exists m: nat :: TookIn(s, f, m)) && t == f.(internalevnum := t.internalevnum)
    ensures exists m: nat :: TookIn(s, t, m)
  {
    var m: nat :| TookIn(s, f, m);
    assert TookIn(s, t, m);
  }

  lemma {:induction false} DispatchTakes<E>(s: State<E>, numevents: nat, u: State<E>)
    requires u == s.Dispatch(numevents).0
    ensures exists m: nat :: TookIn(s, u, m)
    decreases numevents, if s.internalevnum == 0 then 1 else 0
  {
    if MakesTurn(s, numevents) {
      RoundMakesProgress(s, numevents);
      var (t, left) := s.Round(numevents);
      RoundTakesIn(s, numevents);
      var m: nat :| TookIn(s, t, m);
      DispatchTakes(t, left, u);
      TakesInMore(s, t, u, m);
    } else {
      NothingTakenIn(s);
    }
  }

  /** Whatever the events that fire add has been added when the call ends: all their busy-poll events, in order, and
      all their events, beside the ones let in from the busy-poll queue. */
  lemma DispatchTakesIn<E>(s: State<E>, numevents: nat, t: State<E>)
    requires s.InOrder() && t == s.Dispatch(numevents).0
    ensures var m := |t.fired| - |s.fired|;
            && m >= 0 && s.moved <= t.moved && t.moved + t.busypoll == s.moved + s.busypoll + PollsBy(s.script, m)
            && multiset(s.fired + s.mainq) + multiset(EventsBy(s.script, m)) + multiset(t.moved[|s.moved|..])
               <= multiset(t.fired + t.mainq)
  {
    DispatchTakes(s, numevents, t);
    DispatchKeepsOrder(s, numevents);
    AllTakenIn(s, t);
  }

  lemma AllTakenIn<E>(s: State<E>, t: State<E>)
    requires (exists m: nat :: TookIn(s, t, m)) && s.InOrder() && t.InOrder() && s.moved <= t.moved
    ensures var m := |t.fired| - |s.fired|;
            && m >= 0 && s.moved <= t.moved && t.moved + t.busypoll == s.moved + s.busypoll + PollsBy(s.script, m)
            && multiset(s.fired + s.mainq) + multiset(EventsBy(s.script, m)) + multiset(t.moved[|s.moved|..])
               <= multiset(t.fired + t.mainq)
  {
    var m: nat :| TookIn(s, t, m);
    assert m == |t.fired| - |s.fired|;
    assert t.moved == s.moved + t.moved[|s.moved|..];
    SubtractBoth(multiset(s.entered), multiset(t.entered), multiset(EventsBy(s.script, m)), multiset(s.moved),
      multiset(t.moved[|s.moved|..]));
  }

  // Fairness.

  /** While an internal event is ahead, a turn counts down to it: it stays at index internalevnum - 1, and when
      the count reaches zero it has just fired. */
  lemma RoundKeepsPlace<E>(s: State<E>, numevents: nat)
    requires s.InOrder() && s.Bounded() && s.internalevnum > 0
    ensures var (t, left) := s.Round(numevents);
            var d := |t.fired| - |s.fired|;
            && numevents - left == d && t.internalevnum == s.internalevnum - d && t.Bounded()
            && (t.internalevnum > 0 ==> t.mainq[t.internalevnum - 1] == s.mainq[s.internalevnum - 1])
            && (t.internalevnum == 0 ==> t.fired[|t.fired| - 1] == s.mainq[s.internalevnum - 1])
            && (numevents >= s.internalevnum && !t.stop ==> t.internalevnum == 0)
  {
    RoundCountsDown(s, numevents);
    RoundKeepsOrder(s, numevents);
    PlaceIsKept(s, s.Round(numevents).0, s.internalevnum - 1);
  }

  lemma RoundCountsDown<E>(s: State<E>, numevents: nat)
    requires s.Bounded() && s.internalevnum > 0
    ensures var (t, left) := s.Round(numevents);
            && |t.fired| == |s.fired| + (numevents - left) && t.internalevnum == s.internalevnum - (numevents - left)
            && (numevents >= s.internalevnum && !t.stop ==> t.internalevnum == 0)
  {
    FireNCounts(s, Min(s.internalevnum, numevents), false);
  }

  /** An event that waits at some place of the queue has later fired, or it has moved up. */
  lemma PlaceIsKept<E>(s: State<E>, t: State<E>, i: nat)
    requires s.InOrder() && t.InOrder() && i < |s.mainq| && |s.fired| <= |t.fired| && s.entered <= t.entered
    ensures var d := |t.fired| - |s.fired|;
            if i < d then t.fired[|s.fired| + i] == s.mainq[i] else i - d < |t.mainq| && t.mainq[i - d] == s.mainq[i]
  {
    assert t.entered[|s.fired| + i] == s.entered[|s.fired| + i] == s.mainq[i];
  }

  /** When the count is at zero and the main queue is not empty, the first busy-poll event is the very next one
      after the events that are waiting, whatever these add or post again. */
  lemma BusyPollIsServed<E>(s: State<E>, numevents: nat)
    requires s.InOrder() && s.internalevnum == 0 && s.mainq != [] && s.busypoll != []
    requires |s.Dispatch(numevents).0.fired| > |s.fired| + |s.mainq|
    ensures s.Dispatch(numevents).0.fired[|s.fired| + |s.mainq|] == s.busypoll[0]
  {
    DispatchIsRounds(s, numevents);
    RoundKeepsOrder(s, numevents);
    CheckKeepsOrder(s);
    var (t, left) := s.Round(numevents);
    DispatchKeepsOrder(t, left);
    PlaceIsKept(s.Polled(), s.Dispatch(numevents).0, |s.mainq|);
  }

  lemma DispatchIsRounds<E>(s: State<E>, numevents: nat)
    requires s.Bounded() && s.Check().1 > 0 && numevents > 0 && !s.stop
    ensures var (t, left) := s.Round(numevents); s.Dispatch(numevents) == t.Dispatch(left)
  {
    RoundMakesProgress(s, numevents);
  }

  function Rearming<E>(e: E, n: nat): seq<Reaction<E>> {
    seq(n, _ => Reaction([], [], Some(e), false))
  }

  /** But while the main queue is empty busy-poll events wait: an event that asks to be posted again on empty
      fires as often as one likes, and the busy-poll queue never moves. */
  lemma {:induction false} StarvedByOnEmpty<E>(s: State<E>, e: E, numevents: nat)
    requires s.mainq == [] && s.internalevnum == 0 && !s.stop && s.onempty == Some(e)
    requires s.script == Rearming(e, numevents)
    ensures var (t, ok) := s.Dispatch(numevents);
            ok && |t.fired| == |s.fired| + numevents && t.busypoll == s.busypoll && t.moved == s.moved
    decreases numevents
  {
    if numevents > 0 {
      var c := s.Check().0;
      var f := c.Fire();
      assert c.FireN(1, false) == (f, 0);
      assert f.busypoll == s.busypoll && f.mainq == [];
      RoundMakesProgress(s, numevents);
      assert s.Round(numevents) == (f.Discount(1), numevents - 1);
      assert s.script[1..] == Rearming(e, numevents - 1);
      StarvedByOnEmpty(f.Discount(1), e, numevents - 1);
    }
  }

  // How many events a call fires.

  /** A turn fires as many events as it counts, and one more exactly if it looks for busy-poll events and some turn
      up among the reactions to the events it may fire. */
  lemma RoundCounts<E>(s: State<E>, numevents: nat)
    requires s.Bounded() && s.Check().1 > 0
    ensures var (t, left) := s.Round(numevents);
            |t.fired| == |s.fired| + (numevents - left)
              + (if s.ChecksBusy() && !s.stop && PollsTurnUp(s.script, Min(|s.mainq|, numevents)) then 1 else 0)
  {
    FireNCountsExactly(s.Check().0, Min(s.Check().1, numevents), s.ChecksBusy());
  }

  /** How many turns of a call fire an event that they do not count, and what is left of `numevents` at the end. */
  function Uncounted<E>(s: State<E>, numevents: nat): (nat, nat)
    decreases numevents, if s.internalevnum == 0 then 1 else 0
  {
    if !MakesTurn(s, numevents) then (0, numevents)
    else
      RoundMakesProgress(s, numevents);
      var (t, left) := s.Round(numevents);
      var (later, end) := Uncounted(t, left);
      ((if s.ChecksBusy() && PollsTurnUp(s.script, Min(|s.mainq|, numevents)) then 1 else 0) + later, end)
  }

  /** A call fires as many events as it counts, and one more for each of these turns. So it fires more than it was
      asked for exactly if there are more of them than is left. */
  lemma {:induction false} DispatchCounts<E>(s: State<E>, numevents: nat)
    ensures var (extra, left) := Uncounted(s, numevents);
            && left <= numevents && |s.Dispatch(numevents).0.fired| == |s.fired| + (numevents - left) + extra
    decreases numevents, if s.internalevnum == 0 then 1 else 0
  {
    if MakesTurn(s, numevents) {
      RoundMakesProgress(s, numevents);
      RoundCounts(s, numevents);
      var (t, left) := s.Round(numevents);
      DispatchCounts(t, left);
    }
  }

  /** Asking for one event fires two exactly if the queue was being checked for busy-poll events, the event adds some
      without asking for a stop, and then another event is there to be fired. */
  lemma OneFiresTwoExactly<E>(s: State<E>)
    requires s.InOrder() && s.Bounded() && !s.stop
    ensures var r := s.NextReaction();
            |s.Dispatch(1).0.fired| > |s.fired| + 1
            <==> s.ChecksBusy() && r.polls != [] && !r.stop && (|s.mainq| > 1 || r.events != [])
    ensures |s.Dispatch(1).0.fired| <= |s.fired| + 2
  {
    if s.Check().1 > 0 {
      RoundMakesProgress(s, 1);
      if s.ChecksBusy() && s.NextReaction().polls != [] {
        CheckingOneFires(s);
      } else {
        assert !(s.ChecksBusy() && PollsTurnUp(s.script, 1));
        RoundCounts(s, 1);
        var (t, left) := s.Round(1);
        assert left == 0 by {
          FireNCounts(s.Check().0, 1, s.ChecksBusy());
        }
        assert s.Dispatch(1) == t.Dispatch(0) == (t, true);
      }
    }
  }

  lemma CheckingOneFires<E>(s: State<E>)
    requires s.InOrder() && s.ChecksBusy() && !s.stop && s.NextReaction().polls != []
    ensures |s.Dispatch(1).0.fired|
         == |s.fired| + if !s.NextReaction().stop && (|s.mainq| > 1 || s.NextReaction().events != []) then 2 else 1
  {
    var c := s.Check().0;
    var u := c.Fire().Discount(0);
    assert c.Fire().busypoll == s.NextReaction().polls;
    assert c.FireN(1, true) == (c.Fire(), 1);
    RoundMakesProgress(s, 1);
    assert s.Dispatch(1) == u.Dispatch(1);
    assert u.mainq == s.mainq[1..] + s.NextReaction().events && u.internalevnum == 1;
    if !u.stop && u.mainq != [] {
      OneMoreFires(u);
    }
  }

  lemma OneMoreFires<E>(u: State<E>)
    requires !u.stop && u.mainq != [] && u.internalevnum == 1
    ensures |u.Dispatch(1).0.fired| == |u.fired| + 1
  {
    var f := u.Fire();
    assert u.FireN(1, false) == (f, 0);
    RoundMakesProgress(u, 1);
    assert u.Dispatch(1) == f.Discount(1).Dispatch(0);
  }

  /** Therefore asking for one event can fire two. */
  lemma OneFiresTwo()
    ensures var s := State(["a", "b"], [], 0, None, false, [Reaction([], ["p"], None, false)], [], ["a", "b"], [], []);
            s.Dispatch(1).1 && s.Dispatch(1).0.fired == ["a", "b"]
  {
    var s := State(["a", "b"], [], 0, None, false, [Reaction([], ["p"], None, false)], [], ["a", "b"], [], []);
    var c := s.Check().0;
    var t := c.Fire();
    assert c.FireN(1, true) == (t, 1);
    RoundMakesProgress(s, 1);
    var u := t.Discount(0);
    assert s.Dispatch(1) == u.Dispatch(1);
    var f := u.Fire();
    assert f.fired == ["a", "b"];
    assert u.FireN(1, false) == (f, 0);
    RoundMakesProgress(u, 1);
    assert u.Dispatch(1) == f.Discount(1).Dispatch(0);
  }

  class SimpleDispatcher<E> {
    var mainq: seq<E>
    var busypoll: seq<E>
    var internalevnum: nat
    var onempty: Option<E>
    var stopFlag: bool

    /** How the events to come will react. */
    var script: seq<Reaction<E>>

    ghost var fired: seq<E>
    ghost var entered: seq<E>
    ghost var polls: seq<E>
    ghost var moved: seq<E>

    ghost function Abs(): State<E>
      reads this
    {
      State(mainq, busypoll, internalevnum, onempty, stopFlag, script, fired, entered, polls, moved)
    }

    constructor (script: seq<Reaction<E>>)
      ensures Abs() == State([], [], 0, None, false, script, [], [], [], [])
    {
      mainq, busypoll, internalevnum, onempty, stopFlag := [], [], 0, None, false;
      this.script := script;
      fired, entered, polls, moved := [], [], [], [];
    }

    method AddEvent(ev: E)
      modifies this`mainq, this`entered
      ensures Abs() == old(Abs()).AddEvents([ev])
    {
      mainq, entered := mainq + [ev], entered + [ev];
    }

    method AddBusyPollEvent(ev: E)
      modifies this`busypoll, this`polls
      ensures Abs() == old(Abs()).AddBusyPollEvents([ev])
    {
      busypoll, polls := busypoll + [ev], polls + [ev];
    }

    method OnQueueEmpty(ev: E) returns (taken: bool)
      modifies this`onempty
      ensures Abs() == old(Abs()).OnQueueEmpty(Some(ev)) && taken == old(onempty).None?
    {
      if onempty.Some? {
        return false;
      }
      onempty := Some(ev);
      taken := true;
    }

    method Post(events: seq<E>, busy: seq<E>)
      modifies this`mainq, this`entered, this`busypoll, this`polls
      ensures Abs() == old(Abs()).AddEvents(events).AddBusyPollEvents(busy)
    {
      AddedNone(Abs());
      for i := 0 to |events|
        invariant Abs() == old(Abs()).AddEvents(events[..i])
      {
        AddedOneMore(old(Abs()), events[..i], events[i]);
        AddEvent(events[i]);
        assert events[..i + 1] == events[..i] + [events[i]];
      }
      assert events[..|events|] == events;
      ghost var s := Abs();
      AddedNone(s);
      for i := 0 to |busy|
        invariant Abs() == s.AddBusyPollEvents(busy[..i])
      {
        AddedOneMore(s, busy[..i], busy[i]);
        AddBusyPollEvent(busy[i]);
        assert busy[..i + 1] == busy[..i] + [busy[i]];
      }
      assert busy[..|busy|] == busy;
    }

    static lemma AddedNone(s: State<E>)
      ensures s.AddEvents([]) == s == s.AddBusyPollEvents([])
    {
      assert s.mainq + [] == s.mainq && s.entered + [] == s.entered;
      assert s.busypoll + [] == s.busypoll && s.polls + [] == s.polls;
    }

    static lemma AddedOneMore(s: State<E>, es: seq<E>, e: E)
      ensures s.AddEvents(es).AddEvents([e]) == s.AddEvents(es + [e])
      ensures s.AddBusyPollEvents(es).AddBusyPollEvents([e]) == s.AddBusyPollEvents(es + [e])
    {
      assert s.mainq + es + [e] == s.mainq + (es + [e]) && s.entered + es + [e] == s.entered + (es + [e]);
      assert s.busypoll + es + [e] == s.busypoll + (es + [e]) && s.polls + es + [e] == s.polls + (es + [e]);
    }

    /** What the event that is triggered does. */
    method TriggerEvent()
      modifies this
      ensures Abs() == old(Abs()).React(old(Abs()).NextReaction())
    {
      var r := if script == [] then Reaction([], [], None, false) else script[0];
      script := if script == [] then [] else script[1..];
      Post(r.events, r.polls);
      if r.onempty.Some? {
        var _ := OnQueueEmpty(r.onempty.value);
      }
      stopFlag := stopFlag || r.stop;
    }

    /** i_DispatchEvent */
    method DispatchEvent()
      requires mainq != []
      modifies this
      ensures Abs() == old(Abs()).Fire()
    {
      fired := fired + [mainq[0]];
      mainq := mainq[1..];
      TriggerEvent();
    }

    /** i_dispatchNEvents */
    method FireEvents(n: nat, checkbusypoll: bool) returns (dispatched: nat)
      requires |mainq| >= n
      modifies this
      ensures (Abs(), n - dispatched) == old(Abs()).FireN(n, checkbusypoll) && dispatched <= n
    {
      var i := n;
      while i > 0 && !stopFlag
        invariant 0 <= i <= n && |mainq| >= i
        invariant Abs().FireN(i, checkbusypoll) == old(Abs()).FireN(n, checkbusypoll)
        decreases i
      {
        DispatchEvent();
        if checkbusypoll && busypoll != [] {
          break;
        }
        i := i - 1;
      }
      dispatched := n - i;
    }

    method CheckEmptyBusy() returns (retval: nat, checkbusy: bool)
      requires Abs().Bounded()
      modifies this
      ensures (Abs(), retval) == old(Abs()).Check() && checkbusy == old(Abs()).ChecksBusy()
    {
      retval, checkbusy := internalevnum, false;
      if internalevnum == 0 {
        if mainq == [] {
          if onempty.Some? {
            AddEvent(onempty.value);
            internalevnum := 1;
            onempty := None;
            retval := 1;
          }
        } else {
          if busypoll != [] {
            MoveFront();
            internalevnum := |mainq|;
          } else {
            internalevnum := 1;
            checkbusy := true;
          }
        }
        retval := |mainq|;
      }
    }

    method MoveFront()
      requires busypoll != []
      modifies this`mainq, this`entered, this`busypoll, this`moved
      ensures Abs() == old(Abs()).AddEvents([old(busypoll)[0]]).(
        busypoll := old(busypoll)[1..], moved := old(moved) + [old(busypoll)[0]])
    {
      var ev := busypoll[0];
      busypoll := busypoll[1..];
      moved := moved + [ev];
      mainq, entered := mainq + [ev], entered + [ev];
    }

    /** Fires events until `numevents` have been counted, or nothing is left to do, or a stop is asked for.
        `ok` says that the assertion in checkEmptyBusy has held. */
    method DispatchNEvents(numevents: nat) returns (ok: bool)
      modifies this
      ensures (Abs(), ok) == old(Abs()).Dispatch(numevents)
    {
      var left: nat := numevents;
      while left > 0 && !stopFlag
        invariant Abs().Dispatch(left) == old(Abs()).Dispatch(numevents)
        decreases left, if internalevnum == 0 then 1 else 0
      {
        if internalevnum > |mainq| {
          return false;
        }
        ghost var s := Abs();
        var dispatched := DispatchChunk(left);
        if dispatched.None? {
          return true;
        }
        RoundMakesProgress(s, left);
        left := left - dispatched.value;
      }
      ok := true;
    }

    /** One turn of the loop; none if there is nothing to do. */
    method DispatchChunk(left: nat) returns (dispatched: Option<nat>)
      requires Abs().Bounded() && left > 0 && !stopFlag
      modifies this
      ensures dispatched.None? <==> old(Abs()).Check().1 == 0
      ensures dispatched.None? ==> Abs() == old(Abs())
      ensures dispatched.Some? ==>
        dispatched.value <= left && (Abs(), left - dispatched.value) == old(Abs()).Round(left)
    {
      var evchunk, checkbusy := CheckEmptyBusy();
      if evchunk <= 0 {
        return None;
      }
      var n := FireEvents(Min(evchunk, left), checkbusy);
      internalevnum := if n > internalevnum then 0 else internalevnum - n;
      dispatched := Some(n);
    }

    method DispatchEvents(numevents: nat) returns (ok: bool)
      modifies this
      ensures numevents == 0 ==> ok && Abs() == old(Abs())
      ensures numevents > 0 ==>
        var (s, fine) := old(Abs()).Dispatch(numevents); Abs() == s.(stop := false) && ok == fine
    {
      if numevents <= 0 {
        return true;
      }
      ok := DispatchNEvents(numevents);
      if stopFlag {
        stopFlag := false;
      }
    }

    /** What dispatchUntilEmpty keeps: the run goes on in order, and within the bound if `company` holds. */
    static ghost predicate GoesOn(start: State<E>, s: State<E>, company: bool) {
      && s.InOrder() && start.fired <= s.fired && start.entered <= s.entered && start.moved <= s.moved
      && (company ==> s.Bounded() && PollsInCompany(s.script))
    }

    static lemma CallGoesOn(start: State<E>, s: State<E>, company: bool, numevents: nat)
      requires GoesOn(start, s, company) && !s.stop && (s.mainq != [] || s.onempty.Some?) && numevents > 0
      ensures var (t, ok) := s.Dispatch(numevents);
              GoesOn(start, t, company) && (ok ==> t.Work() < s.Work()) && (company ==> ok)
    {
      DispatchKeepsOrder(s, numevents);
      if s.Bounded() {
        DispatchFires(s, numevents);
      }
      if company {
        DispatchIsBounded(s, numevents);
      }
    }

    method DispatchAll(ghost start: State<E>, ghost company: bool) returns (ok: bool)
      requires GoesOn(start, Abs(), company) && !stopFlag && (mainq != [] || onempty.Some?)
      modifies this
      ensures GoesOn(start, Abs(), company) && (ok ==> Abs().Work() < old(Abs().Work())) && (company ==> ok)
    {
      CallGoesOn(start, Abs(), company, |mainq| * 2 + 1);
      ok := DispatchNEvents(|mainq| * 2 + 1);
    }

    /** Fires events until there are none, or a stop is asked for. As long as the events to come are finitely
        many it ends, and then everything that ever entered the main queue has fired, once and in order: all
        events that were added to it, and of the busy-poll events those that were let in. The others wait. */
    method DispatchUntilEmpty() returns (ok: bool, ghost stopped: bool)
      requires Abs().InOrder() && Abs().Bounded()
      modifies this
      ensures Abs().InOrder() && old(fired) <= fired && old(entered) <= entered && !stopFlag
      ensures ok && !stopped ==> mainq == [] && onempty == None && fired == entered
      ensures polls == moved + busypoll && old(moved) <= moved
      ensures PollsInCompany(old(script)) ==> ok
    {
      ok := true;
      ghost var company := PollsInCompany(script);
      while !stopFlag && (|mainq| > 0 || onempty.Some?)
        invariant GoesOn(old(Abs()), Abs(), company) && ok
        decreases Abs().Work()
      {
        ok := DispatchAll(old(Abs()), company);
        if !ok {
          break;
        }
      }
      assert fired + [] == fired;
      stopped := stopFlag;
      if stopFlag {
        stopFlag := false;
      }
    }
  }
}
