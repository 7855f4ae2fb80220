/** Events that are due at the same instant: the one posted first leaves first. */
module TimerOrder {
  import opened Basics
  import opened Timers
  import opened TimerTracking
  import opened TimerRuns
  import opened TimerLimits

  /** The events of a sequence that are due at one instant and were posted under one base. */
  function Of(es: seq<Posted>, due: int, base: int): seq<Posted> {
    if es == [] then []
    else (if es[0].due == due && es[0].base == base then [es[0]] else []) + Of(es[1..], due, base)
  }

  lemma {:induction false} OfAppend(a: seq<Posted>, b: seq<Posted>, due: int, base: int)
    ensures Of(a + b, due, base) == Of(a, due, base) + Of(b, due, base)
  {
    if a == [] {
      assert a + b == b;
    } else {
      assert (a + b)[1..] == a[1..] + b;
      OfAppend(a[1..], b, due, base);
    }
  }

  lemma OfOne(x: Posted, due: int, base: int)
    ensures Of([x], due, base) == if Matches(x, due, base) then [x] else []
  {
    assert [x][1..] == [] && Of([x][1..], due, base) == [];
  }

  /** Everything posted so far, in the order of posting. */
  function PostedInOrder(start: int, ops: seq<Operation>): seq<Posted>
    decreases |ops|
  {
    if ops == [] then []
    else
      var front, op := ops[..|ops| - 1], ops[|ops| - 1];
      PostedInOrder(start, front) + if op.Post? then [Posted(op.id, op.at.Instant(), BaseOf(start, front))] else []
  }

  /** Once the base has moved away from this one it does not come back. */
  ghost predicate InForceOnce(start: int, ops: seq<Operation>, base: int) {
    forall i, j, k | 0 <= i < j < k <= |ops| ::
      BaseOf(start, ops[..i]) == base == BaseOf(start, ops[..k]) ==> BaseOf(start, ops[..j]) == base
  }

  // One heap.

  predicate Matches(x: Posted, due: int, base: int) {
    x.due == due && x.base == base
  }

  function InHeap(h: seq<Entry<Posted>>, due: int, base: int): seq<Posted> {
    Of(EventsIn(h), due, base)
  }

  lemma InHeapJoin(a: seq<Entry<Posted>>, b: seq<Entry<Posted>>, due: int, base: int)
    ensures InHeap(a + b, due, base) == InHeap(a, due, base) + InHeap(b, due, base)
  {
    assert EventsIn(a + b) == EventsIn(a) + EventsIn(b);
    OfAppend(EventsIn(a), EventsIn(b), due, base);
  }

  lemma InHeapSplit(h: seq<Entry<Posted>>, n: nat, due: int, base: int)
    requires n <= |h|
    ensures InHeap(h, due, base) == InHeap(h[..n], due, base) + InHeap(h[n..], due, base)
  {
    assert h == h[..n] + h[n..];
    InHeapJoin(h[..n], h[n..], due, base);
  }

  lemma InHeapOne(e: Entry<Posted>, due: int, base: int)
    ensures InHeap([e], due, base) == if Matches(e.event, due, base) then [e.event] else []
  {
    OfOne(e.event, due, base);
    assert EventsIn([e]) == [e.event];
  }

  lemma {:induction false} NoneInHeap(h: seq<Entry<Posted>>, due: int, base: int)
    ensures InHeap(h, due, base) == [] <==> forall i | 0 <= i < |h| :: !Matches(h[i].event, due, base)
    decreases |h|
  {
    if h != [] {
      assert h[..1] == [h[0]];
      InHeapSplit(h, 1, due, base);
      InHeapOne(h[0], due, base);
      NoneInHeap(h[1..], due, base);
      assert forall i | 0 < i < |h| :: h[i] == h[1..][i - 1];
    }
  }

  /** All matching entries have this key. */
  ghost predicate Keyed(h: seq<Entry<Posted>>, due: int, base: int, total: int) {
    forall i | 0 <= i < |h| && Matches(h[i].event, due, base) :: h[i].key.Total() == total
  }

  lemma KeyedRest(h: seq<Entry<Posted>>, n: nat, due: int, base: int, total: int)
    requires n <= |h| && Keyed(h, due, base, total)
    ensures Keyed(h[..n], due, base, total) && Keyed(h[n..], due, base, total)
  {
  }

  lemma KeyedJoin(a: seq<Entry<Posted>>, b: seq<Entry<Posted>>, due: int, base: int, total: int)
    requires Keyed(a, due, base, total) && Keyed(b, due, base, total)
    ensures Keyed(a + b, due, base, total)
  {
  }

  lemma NoneBehind(h: seq<Entry<Posted>>, key: Interval, due: int, base: int)
    requires Heap(h) && key.Normal() && Keyed(h, due, base, key.Total())
    ensures InHeap(h[UpperBound(h, key)..], due, base) == []
  {
    UpperBoundSplits(h, key);
    NoneInHeap(h[UpperBound(h, key)..], due, base);
  }

  /** A new entry with their key comes after all of them. */
  lemma InsertedLast(h: seq<Entry<Posted>>, e: Entry<Posted>, due: int, base: int, total: int)
    requires Heap(h) && e.key.Normal() && Keyed(h, due, base, total)
    requires Matches(e.event, due, base) ==> e.key.Total() == total
    ensures Heap(Insert(h, e)) && Keyed(Insert(h, e), due, base, total)
    ensures InHeap(Insert(h, e), due, base) == InHeap(h, due, base) + InHeap([e], due, base)
  {
    var n := UpperBound(h, e.key);
    InsertKeepsHeap(h, e);
    InsertedKeyed(h, n, e, due, base, total);
    InHeapSplit(h, n, due, base);
    InHeapJoin(h[..n] + [e], h[n..], due, base);
    InHeapJoin(h[..n], [e], due, base);
    if Matches(e.event, due, base) {
      NoneBehind(h, e.key, due, base);
    } else {
      InHeapOne(e, due, base);
    }
    LastInLine(InHeap(h[..n], due, base), InHeap([e], due, base), InHeap(h[n..], due, base));
  }

  lemma InsertedKeyed(h: seq<Entry<Posted>>, n: nat, e: Entry<Posted>, due: int, base: int, total: int)
    requires n <= |h| && Keyed(h, due, base, total) && (Matches(e.event, due, base) ==> e.key.Total() == total)
    ensures Keyed(h[..n] + [e] + h[n..], due, base, total)
  {
    KeyedRest(h, n, due, base, total);
    KeyedJoin(h[..n], [e], due, base, total);
    KeyedJoin(h[..n] + [e], h[n..], due, base, total);
  }

  lemma LastInLine(a: seq<Posted>, x: seq<Posted>, b: seq<Posted>)
    requires x == [] || b == []
    ensures (a + x) + b == (a + b) + x
  {
    assert x == [] ==> a + x == a && (a + b) + x == a + b;
  }

  lemma {:induction false} InsertedInOrder(h: seq<Entry<Posted>>, from: seq<Entry<Posted>>, diff: Interval, due: int,
                                           base: int, total: int)
    requires Heap(h) && Keyed(h, due, base, total) && Keyed(from, due, base, total - diff.Total())
    ensures Keyed(InsertAll(h, from, diff), due, base, total)
    ensures InHeap(InsertAll(h, from, diff), due, base) == InHeap(h, due, base) + InHeap(from, due, base)
    decreases |from|
  {
    if from == [] {
      assert InHeap(h, due, base) + [] == InHeap(h, due, base);
    } else {
      var e, rest := Entry(from[0].key.Plus(diff), from[0].event), from[1..];
      PlusAdds(from[0].key, diff);
      KeyedRest(from, 1, due, base, total - diff.Total());
      InsertedLast(h, e, due, base, total);
      InsertedInOrder(Insert(h, e), rest, diff, due, base, total);
      FirstInHeap(from, due, base);
      FirstInHeap([e], due, base);
      assert [e][1..] == [];
      EventsChain(InHeap(h, due, base), InHeap([e], due, base), InHeap(rest, due, base));
    }
  }

  lemma EventsChain(a: seq<Posted>, b: seq<Posted>, c: seq<Posted>)
    ensures (a + b) + c == a + (b + c)
  {
  }

  /** If only one of the heaps holds matching events, they leave it in their order. */
  lemma {:induction false} MergedInOrder(cur: seq<Entry<Posted>>, prev: seq<Entry<Posted>>, diff: Interval, due: int,
                                         base: int)
    requires InHeap(cur, due, base) == [] || InHeap(prev, due, base) == []
    ensures Of(Merge(cur, prev, diff), due, base) == InHeap(cur, due, base) + InHeap(prev, due, base)
    decreases |cur| + |prev|
  {
    if cur == [] && prev == [] {
    } else if OldFirst(cur, prev, diff) {
      FirstInHeap(prev, due, base);
      MergedInOrder(cur, prev[1..], diff, due, base);
      OfAppend([prev[0].event], Merge(cur, prev[1..], diff), due, base);
    } else {
      FirstInHeap(cur, due, base);
      MergedInOrder(cur[1..], prev, diff, due, base);
      OfAppend([cur[0].event], Merge(cur[1..], prev, diff), due, base);
    }
  }

  lemma FirstInHeap(h: seq<Entry<Posted>>, due: int, base: int)
    requires h != []
    ensures InHeap(h, due, base) == Of([h[0].event], due, base) + InHeap(h[1..], due, base)
  {
    assert EventsIn(h) == [h[0].event] + EventsIn(h[1..]);
    OfAppend([h[0].event], EventsIn(h[1..]), due, base);
  }

  // The tracker.

  /** Delivered, in the current heap and in the old one: together these are the matching events in the order of
      posting, and only one of the heaps holds any. */
  ghost predicate InLine(t: Tracker<Posted>, delivered: seq<Posted>, posted: seq<Posted>, due: int, base: int) {
    && t.Valid()
    && delivered + (InHeap(t.current, due, base) + InHeap(t.prev, due, base)) == posted
    && (if t.currentBase == base then InHeap(t.prev, due, base) == [] else InHeap(t.current, due, base) == [])
    && Keyed(t.current, due, base, Wait(due, base)) && exists total: int :: Keyed(t.prev, due, base, total)
  }

  function Wait(due: int, base: int): int {
    if due > base * NANOS then due - base * NANOS else 0
  }

  lemma PostKeepsLine(t: Tracker<Posted>, at: Absolute, x: Posted, d: seq<Posted>, q: seq<Posted>, due: int, base: int)
    requires InLine(t, d, q, due, base) && x.due == at.Instant() && x.base == t.currentBase
    ensures InLine(t.PostAt(at, x), d, q + Of([x], due, base), due, base)
  {
    var e := Entry(t.Key(at), x);
    KeyIsWait(t, at);
    PostAtKeepsValid(t, at, x);
    InsertedLast(t.current, e, due, base, Wait(due, base));
    InHeapOne(e, due, base);
    OfOne(x, due, base);
    AddedInLine(d, InHeap(t.current, due, base), InHeap([e], due, base), InHeap(t.prev, due, base));
  }

  lemma AddedInLine(d: seq<Posted>, a: seq<Posted>, x: seq<Posted>, b: seq<Posted>)
    requires x == [] || b == []
    ensures d + ((a + x) + b) == (d + (a + b)) + x
  {
  }

  lemma Regroup(d: seq<Posted>, a: seq<Posted>, b: seq<Posted>, c: seq<Posted>, e: seq<Posted>)
    requires a + b == [] || c + e == []
    ensures d + ((a + b) + (c + e)) == (d + (a + c)) + (b + e)
  {
    if a + b == [] {
      assert a == [] && b == [];
    } else {
      assert c == [] && e == [];
    }
  }

  lemma ErasedInLine(t: Tracker<Posted>, i: nat, j: nat, d: seq<Posted>, out: seq<Posted>, due: int, base: int)
    requires i <= |t.current| && j <= |t.prev|
    requires InHeap(t.current, due, base) == [] || InHeap(t.prev, due, base) == []
    requires out == Of(Merge(t.current[..i], t.prev[..j], t.baseDiff), due, base)
    ensures d + (InHeap(t.current, due, base) + InHeap(t.prev, due, base)) ==
            (d + out) + (InHeap(t.current[i..], due, base) + InHeap(t.prev[j..], due, base))
    ensures InHeap(t.current, due, base) == [] ==> InHeap(t.current[i..], due, base) == []
    ensures InHeap(t.prev, due, base) == [] ==> InHeap(t.prev[j..], due, base) == []
  {
    InHeapSplit(t.current, i, due, base);
    InHeapSplit(t.prev, j, due, base);
    MergedInOrder(t.current[..i], t.prev[..j], t.baseDiff, due, base);
    Regroup(d, InHeap(t.current[..i], due, base), InHeap(t.current[i..], due, base), InHeap(t.prev[..j], due, base),
      InHeap(t.prev[j..], due, base));
  }

  lemma ErasedKeepsLine(t: Tracker<Posted>, now: Absolute, d: seq<Posted>, q: seq<Posted>, due: int, base: int)
    requires InLine(t, d, q, due, base)
    ensures InLine(t.Erased(now), d + Of(t.Delivered(now), due, base), q, due, base)
  {
    var i, j := t.CurrentEnd(now), t.OldEnd(now);
    ErasedInLine(t, i, j, d, Of(t.Delivered(now), due, base), due, base);
    var total :| Keyed(t.prev, due, base, total);
    KeyedRest(t.prev, j, due, base, total);
    KeyedRest(t.current, i, due, base, Wait(due, base));
    ExpiredKeepsValid(t, now);
  }

  /** The key of all of them once the heaps are joined. */
  lemma MovedTo(t: Tracker<Posted>, d: seq<Posted>, q: seq<Posted>, due: int, base: int) returns (moved: int)
    requires InLine(t, d, q, due, base)
    ensures Keyed(t.current, due, base, moved) && Keyed(t.prev, due, base, moved - t.baseDiff.Total())
  {
    if t.currentBase == base {
      NoneInHeap(t.prev, due, base);
      moved := Wait(due, base);
    } else {
      NoneInHeap(t.current, due, base);
      var total :| Keyed(t.prev, due, base, total);
      moved := total + t.baseDiff.Total();
    }
  }

  lemma RebasedKeepsLine(t: Tracker<Posted>, time: int, d: seq<Posted>, q: seq<Posted>, due: int, base: int)
    requires InLine(t, d, q, due, base) && time != t.currentBase && (time == base ==> q == [])
    requires t.Rebased(time).Valid()
    ensures InLine(t.Rebased(time), d, q, due, base)
  {
    var moved := MovedTo(t, d, q, due, base);
    InsertedInOrder(t.current, t.prev, t.baseDiff, due, base, moved);
    assert Keyed(t.Rebased(time).prev, due, base, moved);
  }

  lemma ExpireKeepsLine(t: Tracker<Posted>, now: Absolute, d: seq<Posted>, q: seq<Posted>, due: int, base: int)
    requires InLine(t, d, q, due, base) && (t.RebaseDue(now) && now.time == base ==> q == [])
    ensures InLine(t.Expired(now), d + Of(t.Delivered(now), due, base), q, due, base)
  {
    ErasedKeepsLine(t, now, d, q, due, base);
    if t.RebaseDue(now) {
      ExpiredKeepsValid(t, now);
      RebasedKeepsLine(t.Erased(now), now.time, d + Of(t.Delivered(now), due, base), q, due, base);
    }
  }

  // Runs.

  lemma InForceOnceBefore(start: int, ops: seq<Operation>, base: int)
    requires InForceOnce(start, ops, base) && ops != []
    ensures InForceOnce(start, ops[..|ops| - 1], base)
  {
    var front := ops[..|ops| - 1];
    forall i, j, k | 0 <= i < j < k <= |front| && BaseOf(start, front[..i]) == base == BaseOf(start, front[..k])
      ensures BaseOf(start, front[..j]) == base
    {
      assert front[..i] == ops[..i] && front[..j] == ops[..j] && front[..k] == ops[..k];
    }
  }

  /** Under a base under which something has been posted the tracker has been. */
  lemma {:induction false} PostedUnderBase(start: int, ops: seq<Operation>, due: int, base: int)
    requires Of(PostedInOrder(start, ops), due, base) != []
    ensures exists i :: 0 <= i < |ops| && BaseOf(start, ops[..i]) == base
    decreases |ops|
  {
    var front, op := ops[..|ops| - 1], ops[|ops| - 1];
    var new_ := if op.Post? then [Posted(op.id, op.at.Instant(), BaseOf(start, front))] else [];
    OfAppend(PostedInOrder(start, front), new_, due, base);
    if Of(PostedInOrder(start, front), due, base) != [] {
      PostedUnderBase(start, front, due, base);
      var i :| 0 <= i < |front| && BaseOf(start, front[..i]) == base;
      assert front[..i] == ops[..i];
    } else {
      OfOne(new_[0], due, base);
      assert BaseOf(start, ops[..|ops| - 1]) == base;
    }
  }

  lemma NotAgain(start: int, ops: seq<Operation>, base: int, i: nat)
    requires i < |ops| - 1 && InForceOnce(start, ops, base)
    requires BaseOf(start, ops[..|ops| - 1][..i]) == base == BaseOf(start, ops)
    ensures BaseOf(start, ops[..|ops| - 1]) == base
  {
    assert ops[..|ops| - 1][..i] == ops[..i] && ops[..|ops|] == ops;
    assert BaseOf(start, ops[..i]) == base == BaseOf(start, ops[..|ops|]);
  }

  /** A base that is in force once has not been in force when a call moves to it. */
  lemma NothingPostedYet(start: int, ops: seq<Operation>, due: int, base: int)
    requires ops != [] && InForceOnce(start, ops, base)
    requires BaseOf(start, ops[..|ops| - 1]) != base && BaseOf(start, ops) == base
    ensures Of(PostedInOrder(start, ops[..|ops| - 1]), due, base) == []
  {
    var front := ops[..|ops| - 1];
    if Of(PostedInOrder(start, front), due, base) != [] {
      PostedUnderBase(start, front, due, base);
      var i :| 0 <= i < |front| && BaseOf(start, front[..i]) == base;
      NotAgain(start, ops, base, i);
      assert false;
    }
  }

  function DeliveredOf(start: int, ops: seq<Operation>, due: int, base: int): seq<Posted> {
    Of(EventsOf(Run(start, ops).delivered), due, base)
  }

  function PostedOf(start: int, ops: seq<Operation>, due: int, base: int): seq<Posted> {
    Of(PostedInOrder(start, ops), due, base)
  }

  ghost predicate RunInLine(start: int, ops: seq<Operation>, due: int, base: int) {
    InLine(Run(start, ops).tracker, DeliveredOf(start, ops, due, base), PostedOf(start, ops, due, base), due, base)
  }

  lemma NewInLine(start: int, due: int, base: int)
    ensures RunInLine(start, [], due, base)
  {
    assert Keyed(Run(start, []).tracker.prev, due, base, 0);
  }

  lemma {:induction false} RunKeepsLine(start: int, ops: seq<Operation>, due: int, base: int)
    requires InForceOnce(start, ops, base)
    ensures RunInLine(start, ops, due, base)
    decreases |ops|
  {
    if ops == [] {
      NewInLine(start, due, base);
    } else {
      var front, op := ops[..|ops| - 1], ops[|ops| - 1];
      InForceOnceBefore(start, ops, base);
      RunKeepsLine(start, front, due, base);
      assert ops == front + [op];
      if op.Post? {
        PostStep(start, front, op.at, op.id, ops, due, base);
      } else {
        if Moves(BaseOf(start, front), op.now) && op.now.time == base {
          MovesTo(start, front, op.now, ops);
          NothingPostedYet(start, ops, due, base);
        }
        ExpireStep(start, front, op.now, ops, due, base);
      }
    }
  }

  lemma MovesTo(start: int, front: seq<Operation>, now: Absolute, ops: seq<Operation>)
    requires ops == front + [Expire(now)] && Moves(BaseOf(start, front), now)
    ensures BaseOf(start, ops) == now.time != BaseOf(start, front)
  {
    BaseOfMore(start, front, Expire(now));
  }

  lemma PostStep(start: int, front: seq<Operation>, at: Absolute, id: int, ops: seq<Operation>, due: int, base: int)
    requires ops == front + [Post(at, id)]
    requires RunInLine(start, front, due, base)
    ensures RunInLine(start, ops, due, base)
  {
    OneMore(start, front, Post(at, id));
    BaseOfRun(start, front);
    assert ops[..|ops| - 1] == front;
    var x := Posted(id, at.Instant(), BaseOf(start, front));
    OfAppend(PostedInOrder(start, front), [x], due, base);
    PostKeepsLine(Run(start, front).tracker, at, x, DeliveredOf(start, front, due, base),
      PostedOf(start, front, due, base), due, base);
  }

  lemma ExpireStep(start: int, front: seq<Operation>, now: Absolute, ops: seq<Operation>, due: int, base: int)
    requires ops == front + [Expire(now)]
    requires RunInLine(start, front, due, base)
    requires Moves(BaseOf(start, front), now) && now.time == base ==> PostedOf(start, front, due, base) == []
    ensures RunInLine(start, ops, due, base)
  {
    var t := Run(start, front).tracker;
    TrackerOfMore(start, front, Expire(now));
    BaseOfRun(start, front);
    DeliveredOfMore(start, front, now, ops, due, base);
    if t.Accepts(now) {
      ExpireKeepsLine(t, now, DeliveredOf(start, front, due, base), PostedOf(start, front, due, base), due, base);
    }
  }

  lemma EventsMore(ds: seq<Delivery>, events: seq<Posted>, at: int, due: int, base: int)
    ensures Of(EventsOf(ds + Stamped(events, at)), due, base) == Of(EventsOf(ds), due, base) + Of(events, due, base)
  {
    assert EventsOf(ds + Stamped(events, at)) == EventsOf(ds) + events;
    OfAppend(EventsOf(ds), events, due, base);
  }

  lemma DeliveredOfMore(start: int, front: seq<Operation>, now: Absolute, ops: seq<Operation>, due: int, base: int)
    requires ops == front + [Expire(now)]
    ensures PostedOf(start, ops, due, base) == PostedOf(start, front, due, base)
    ensures !Run(start, front).tracker.Accepts(now) ==>
            DeliveredOf(start, ops, due, base) == DeliveredOf(start, front, due, base)
    ensures Run(start, front).tracker.Accepts(now) ==>
            DeliveredOf(start, ops, due, base) ==
            DeliveredOf(start, front, due, base) + Of(Run(start, front).tracker.Delivered(now), due, base)
  {
    var h := Run(start, front);
    OneMore(start, front, Expire(now));
    PostedMore(start, front, now, ops);
    if h.tracker.Accepts(now) {
      EventsMore(h.delivered, h.tracker.Delivered(now), now.Instant(), due, base);
    }
  }

  lemma PostedMore(start: int, front: seq<Operation>, now: Absolute, ops: seq<Operation>)
    requires ops == front + [Expire(now)]
    ensures PostedInOrder(start, ops) == PostedInOrder(start, front)
  {
    assert ops[..|ops| - 1] == front;
  }

  /** Of the events posted under one base for one instant, in any run in which that base does not come back, those
      handed over so far are the first ones, in the order in which they were posted. */
  lemma FirstPostedFirst(start: int, ops: seq<Operation>, due: int, base: int)
    requires InForceOnce(start, ops, base)
    ensures Of(EventsOf(Run(start, ops).delivered), due, base) <= Of(PostedInOrder(start, ops), due, base)
  {
    RunKeepsLine(start, ops, due, base);
  }

  lemma {:induction false} ForwardClimbs(start: int, ops: seq<Operation>, i: nat)
    requires Forward(start, ops) && i <= |ops|
    ensures BaseOf(start, ops[..i]) <= BaseOf(start, ops)
    decreases |ops|
  {
    if i == |ops| {
      assert ops[..i] == ops;
    } else {
      var front := ops[..|ops| - 1];
      ForwardBefore(start, ops);
      ForwardClimbs(start, front, i);
      assert front[..i] == ops[..i];
      assert ops[..|ops| - 1] == front;
    }
  }

  lemma {:induction false} ForwardPrefix(start: int, ops: seq<Operation>, k: nat)
    requires Forward(start, ops) && k <= |ops|
    ensures Forward(start, ops[..k])
    decreases |ops|
  {
    if k == |ops| {
      assert ops[..k] == ops;
    } else {
      ForwardBefore(start, ops);
      ForwardPrefix(start, ops[..|ops| - 1], k);
      assert ops[..|ops| - 1][..k] == ops[..k];
    }
  }

  /** If the base never moves back, that is so for every base. */
  lemma ForwardIsInForceOnce(start: int, ops: seq<Operation>, base: int)
    requires Forward(start, ops)
    ensures InForceOnce(start, ops, base)
  {
    forall i, j, k | 0 <= i < j < k <= |ops| && BaseOf(start, ops[..i]) == base == BaseOf(start, ops[..k])
      ensures BaseOf(start, ops[..j]) == base
    {
      ForwardPrefix(start, ops, k);
      ForwardPrefix(start, ops, j);
      assert ops[..k][..j] == ops[..j] && ops[..j][..i] == ops[..i];
      ForwardClimbs(start, ops[..k], j);
      ForwardClimbs(start, ops[..j], i);
    }
  }

  /** So while no call moves the base back, that is how all events leave. */
  lemma HandedOverAsPosted(start: int, ops: seq<Operation>, due: int, base: int)
    requires Forward(start, ops)
    ensures Of(EventsOf(Run(start, ops).delivered), due, base) <= Of(PostedInOrder(start, ops), due, base)
  {
    ForwardIsInForceOnce(start, ops, base);
    FirstPostedFirst(start, ops, due, base);
  }

  /** And when none of them is stored any more it is all of them. */
  lemma AllHandedOver(start: int, ops: seq<Operation>, due: int, base: int)
    requires InForceOnce(start, ops, base)
    requires forall x | x in Stored(Run(start, ops).tracker) :: !Matches(x, due, base)
    ensures Of(EventsOf(Run(start, ops).delivered), due, base) == Of(PostedInOrder(start, ops), due, base)
  {
    var t := Run(start, ops).tracker;
    RunKeepsLine(start, ops, due, base);
    forall i | 0 <= i < |t.current|
      ensures !Matches(t.current[i].event, due, base)
    {
      assert EventsIn(t.current)[i] in Stored(t);
    }
    forall i | 0 <= i < |t.prev|
      ensures !Matches(t.prev[i].event, due, base)
    {
      assert EventsIn(t.prev)[i] in Stored(t);
    }
    NoneInHeap(t.current, due, base);
    NoneInHeap(t.prev, due, base);
    NothingLeft(start, ops, due, base);
  }

  lemma NothingLeft(start: int, ops: seq<Operation>, due: int, base: int)
    requires RunInLine(start, ops, due, base)
    requires InHeap(Run(start, ops).tracker.current, due, base) == InHeap(Run(start, ops).tracker.prev, due, base) == []
    ensures DeliveredOf(start, ops, due, base) == PostedOf(start, ops, due, base)
  {
    assert DeliveredOf(start, ops, due, base) + ([] + []) == DeliveredOf(start, ops, due, base);
  }

  // If the base comes back.

  function CallsOf(ops: seq<Operation>): seq<Operation> {
    if ops == [] then [] else (if ops[0].Expire? then [ops[0]] else []) + CallsOf(ops[1..])
  }

  lemma {:induction false} CallsOfJoin(a: seq<Operation>, b: seq<Operation>)
    ensures CallsOf(a + b) == CallsOf(a) + CallsOf(b)
  {
    if a == [] {
      assert a + b == b;
    } else {
      assert (a + b)[1..] == a[1..] + b;
      CallsOfJoin(a[1..], b);
      CallsChain(if a[0].Expire? then [a[0]] else [], CallsOf(a[1..]), CallsOf(b));
    }
  }

  lemma CallsChain(a: seq<Operation>, b: seq<Operation>, c: seq<Operation>)
    ensures (a + b) + c == a + (b + c)
  {
  }

  lemma CallsOfOne(op: Operation)
    ensures CallsOf([op]) == if op.Expire? then [op] else []
  {
    assert [op][1..] == [] && CallsOf([op][1..]) == [];
  }

  predicate OnlyCalls(ops: seq<Operation>) {
    forall i | 0 <= i < |ops| :: ops[i].Expire?
  }

  lemma {:induction false} CallsOfCalls(ops: seq<Operation>)
    requires OnlyCalls(ops)
    ensures CallsOf(ops) == ops
  {
    if ops != [] {
      CallsOfCalls(ops[1..]);
    }
  }

  /** What is posted has no influence on the base. */
  lemma {:induction false} BaseOfCalls(start: int, ops: seq<Operation>)
    ensures BaseOf(start, ops) == BaseOf(start, CallsOf(ops))
    decreases |ops|
  {
    if ops != [] {
      var front, op := ops[..|ops| - 1], ops[|ops| - 1];
      assert ops == front + [op];
      BaseOfCalls(start, front);
      CallsOfJoin(front, [op]);
      CallsOfOne(op);
      BaseOfMore(start, front, op);
      if op.Expire? {
        BaseOfMore(start, CallsOf(front), op);
      } else {
        assert CallsOf(front) + [] == CallsOf(front);
      }
    }
  }

  lemma CallsOfPrefix(ops: seq<Operation>, i: nat, j: nat)
    requires i <= j <= |ops|
    ensures CallsOf(ops[..i]) <= CallsOf(ops[..j])
  {
    assert ops[..j] == ops[..i] + ops[i..j];
    CallsOfJoin(ops[..i], ops[i..j]);
  }

  lemma OnceAmongCalls(start: int, ops: seq<Operation>, calls: seq<Operation>, base: int)
    requires CallsOf(ops) <= calls && InForceOnce(start, calls, base)
    ensures InForceOnce(start, ops, base)
  {
    forall i, j, k | 0 <= i < j < k <= |ops| && BaseOf(start, ops[..i]) == base == BaseOf(start, ops[..k])
      ensures BaseOf(start, ops[..j]) == base
    {
      OnceAt(start, ops, calls, base, i, j, k);
    }
  }

  lemma OnceAt(start: int, ops: seq<Operation>, calls: seq<Operation>, base: int, i: nat, j: nat, k: nat)
    requires CallsOf(ops) <= calls && InForceOnce(start, calls, base) && i < j < k <= |ops|
    requires BaseOf(start, ops[..i]) == base == BaseOf(start, ops[..k])
    ensures BaseOf(start, ops[..j]) == base
  {
    CallsOfPrefix(ops, i, j);
    CallsOfPrefix(ops, j, k);
    var a := BaseAmongCalls(start, ops, calls, i);
    var b := BaseAmongCalls(start, ops, calls, j);
    var c := BaseAmongCalls(start, ops, calls, k);
    assert a <= b <= c;
  }

  lemma BaseAmongCalls(start: int, ops: seq<Operation>, calls: seq<Operation>, i: nat) returns (n: nat)
    requires CallsOf(ops) <= calls && i <= |ops|
    ensures n == |CallsOf(ops[..i])| <= |calls| && BaseOf(start, ops[..i]) == BaseOf(start, calls[..n])
  {
    n := |CallsOf(ops[..i])|;
    BaseOfCalls(start, ops[..i]);
    CallsOfPrefix(ops, i, |ops|);
    assert ops[..|ops|] == ops;
    assert CallsOf(ops[..i]) == calls[..n];
  }

  /** Whatever is posted around these calls, and whenever one more call is made: of the events posted under `base` for
      one instant, the first ones have been handed over, in the order of posting. */
  ghost predicate InTurn(start: int, calls: seq<Operation>, base: int) {
    forall ops: seq<Operation>, now: Absolute, due: int | CallsOf(ops) <= calls ::
      DeliveredOf(start, ops + [Expire(now)], due, base) <= PostedOf(start, ops, due, base)
  }

  lemma OnceMeansInTurn(start: int, calls: seq<Operation>, base: int)
    requires InForceOnce(start, calls, base)
    ensures InTurn(start, calls, base)
  {
    forall ops: seq<Operation>, now: Absolute, due: int | CallsOf(ops) <= calls
      ensures DeliveredOf(start, ops + [Expire(now)], due, base) <= PostedOf(start, ops, due, base)
    {
      OnceAmongCalls(start, ops, calls, base);
      RunKeepsLine(start, ops, due, base);
      OneMoreInLine(start, ops, now, due, base);
    }
  }

  lemma OneMoreInLine(start: int, ops: seq<Operation>, now: Absolute, due: int, base: int)
    requires RunInLine(start, ops, due, base)
    ensures DeliveredOf(start, ops + [Expire(now)], due, base) <= PostedOf(start, ops, due, base)
  {
    var t := Run(start, ops).tracker;
    DeliveredOfMore(start, ops, now, ops + [Expire(now)], due, base);
    if t.Accepts(now) {
      ErasedKeepsLine(t, now, DeliveredOf(start, ops, due, base), PostedOf(start, ops, due, base), due, base);
    }
  }

  function Reach(op: Operation): nat {
    if op.Expire? then Abs(op.now.Instant()) + Abs(op.now.time * NANOS) else 0
  }

  function ReachAll(ops: seq<Operation>): nat {
    if ops == [] then 0 else Reach(ops[0]) + ReachAll(ops[1..])
  }

  lemma {:induction false} ReachJoin(a: seq<Operation>, b: seq<Operation>)
    ensures ReachAll(a + b) == ReachAll(a) + ReachAll(b)
  {
    if a == [] {
      assert a + b == b;
    } else {
      assert (a + b)[1..] == a[1..] + b;
      ReachJoin(a[1..], b);
    }
  }

  lemma ReachOne(op: Operation)
    ensures ReachAll([op]) == Reach(op)
  {
    assert [op][1..] == [];
  }

  /** No instant and no base of these calls is farther away. */
  function Far(start: int, calls: seq<Operation>): nat {
    Abs(start * NANOS) + ReachAll(calls)
  }

  ghost predicate Within(t: Tracker<Posted>, far: nat) {
    Abs(t.oldBase * NANOS) <= far && Abs(t.currentBase * NANOS) <= far
  }

  lemma SinceWithin(now: Absolute, base: int, far: nat)
    requires Abs(base * NANOS) <= far
    ensures now.Since(At(base)).Normal() && now.Since(At(base)).Total() <= far + Abs(now.Instant())
  {
    assert At(base).Instant() == base * NANOS;
    SinceIsDistance(now, At(base));
  }

  /** The tracker holds nothing but this event, which has not been moved. */
  ghost predicate Home(t: Tracker<Posted>, x: Posted, wait: nat, base: int) {
    && t.Valid() && t.currentBase == base
    && |t.current| == 1 && t.prev == [] && t.current[0].event == x && t.current[0].key.Total() == wait
  }

  /** Or it has been moved, and would come too late if its base came back. */
  ghost predicate Astray(t: Tracker<Posted>, x: Posted, wait: nat, base: int) {
    && t.Valid()
    && t.current == [] && |t.prev| == 1 && t.prev[0].event == x && t.prev[0].key.Total() >= wait
    && (t.prev[0].key.Total() + t.baseDiff.Total() > wait || t.currentBase < base)
  }

  lemma StaysStored(t: Tracker<Posted>, now: Absolute, x: Posted, wait: nat, base: int, far: nat)
    requires Home(t, x, wait, base) || Astray(t, x, wait, base)
    requires Within(t, far) && far + Abs(now.Instant()) < wait
    ensures t.CurrentEnd(now) == 0 == t.OldEnd(now)
  {
    SinceWithin(now, t.currentBase, far);
    SinceWithin(now, t.oldBase, far);
    UpperBoundSplits(t.current, now.Since(At(t.currentBase)));
    UpperBoundSplits(t.prev, now.Since(At(t.oldBase)));
  }

  lemma GoesAstray(t: Tracker<Posted>, time: int, x: Posted, wait: nat, base: int)
    requires Home(t, x, wait, base) || Astray(t, x, wait, base)
    requires time != t.currentBase
    ensures Astray(t.Rebased(time), x, wait, base)
  {
    var e := if t.current == [] then t.prev[0] else t.current[0];
    assert t.current + t.prev == [e];
    RebasedOne(t, time, e);
    PlusAdds(e.key, t.baseDiff);
    assert At(time).Instant() == time * NANOS && At(t.currentBase).Instant() == t.currentBase * NANOS;
    SinceIsDistance(At(time), At(t.currentBase));
  }

  lemma CallLeavesOne(h: History, now: Absolute, x: Posted, wait: nat, base: int, far: nat)
    requires Home(h.tracker, x, wait, base) || Astray(h.tracker, x, wait, base)
    requires Within(h.tracker, far) && far + Reach(Expire(now)) < wait
    ensures var g := Step(h, Expire(now));
            && g.delivered == h.delivered && Within(g.tracker, far + Reach(Expire(now)))
            && (Astray(g.tracker, x, wait, base) || g.tracker == h.tracker)
  {
    if h.tracker.Accepts(now) {
      StaysStored(h.tracker, now, x, wait, base, far);
      TooSoon(h, now);
      if h.tracker.RebaseDue(now) {
        GoesAstray(h.tracker, now.time, x, wait, base);
      }
    }
  }

  /** Nothing has been handed over, and this one event is stored. */
  ghost predicate OnTheWay(h: History, x: Posted, wait: nat, base: int, far: nat) {
    && h.delivered == [] && Within(h.tracker, far)
    && (Home(h.tracker, x, wait, base) || Astray(h.tracker, x, wait, base))
  }

  function Steps(h: History, ops: seq<Operation>): History
    decreases |ops|
  {
    if ops == [] then h else Steps(Step(h, ops[0]), ops[1..])
  }

  lemma {:induction false} RunSteps(start: int, ops: seq<Operation>, more: seq<Operation>)
    ensures Run(start, ops + more) == Steps(Run(start, ops), more)
    decreases |more|
  {
    if more == [] {
      assert ops + more == ops;
    } else {
      assert ops + more == (ops + [more[0]]) + more[1..];
      OneMore(start, ops, more[0]);
      RunSteps(start, ops + [more[0]], more[1..]);
    }
  }

  lemma {:induction false} CallsPostNothing(start: int, ops: seq<Operation>, more: seq<Operation>)
    requires OnlyCalls(more)
    ensures PostedInOrder(start, ops + more) == PostedInOrder(start, ops)
    decreases |more|
  {
    if more == [] {
      assert ops + more == ops;
    } else {
      assert ops + more == (ops + [more[0]]) + more[1..];
      PostedMore(start, ops, more[0].now, ops + [more[0]]);
      CallsPostNothing(start, ops + [more[0]], more[1..]);
    }
  }

  lemma FirstCallLeavesOne(h: History, call: Operation, x: Posted, wait: nat, base: int, far: nat, g: History)
    requires OnTheWay(h, x, wait, base, far) && call.Expire? && far + Reach(call) < wait && g == Step(h, call)
    ensures OnTheWay(g, x, wait, base, far + Reach(call))
    ensures Astray(h.tracker, x, wait, base) ==> Astray(g.tracker, x, wait, base)
  {
    CallLeavesOne(h, call.now, x, wait, base, far);
  }

  lemma {:induction false} CallsLeaveOne(h: History, calls: seq<Operation>, x: Posted, wait: nat, base: int, far: nat)
    requires OnTheWay(h, x, wait, base, far) && OnlyCalls(calls) && far + ReachAll(calls) < wait
    ensures OnTheWay(Steps(h, calls), x, wait, base, far + ReachAll(calls))
    ensures Astray(h.tracker, x, wait, base) ==> Astray(Steps(h, calls).tracker, x, wait, base)
    decreases |calls|
  {
    if calls != [] {
      var g, rest := Step(h, calls[0]), calls[1..];
      assert Reach(calls[0]) + ReachAll(rest) == ReachAll(calls) && Steps(h, calls) == Steps(g, rest);
      FirstCallLeavesOne(h, calls[0], x, wait, base, far, g);
      CallsLeaveOne(g, rest, x, wait, base, far + Reach(calls[0]));
    }
  }

  ghost predicate Unused(h: History, far: nat) {
    && h.tracker.Valid() && h.tracker.current == [] == h.tracker.prev && h.delivered == [] && Within(h.tracker, far)
  }

  /** Calls alone find nothing and store nothing. */
  lemma {:induction false} CallsFindNothing(start: int, calls: seq<Operation>)
    requires OnlyCalls(calls)
    ensures Unused(Run(start, calls), Far(start, calls)) && PostedInOrder(start, calls) == []
    decreases |calls|
  {
    if calls == [] {
      assert Unused(Run(start, []), Far(start, []));
    } else {
      var front, now := calls[..|calls| - 1], calls[|calls| - 1].now;
      CallsFindNothing(start, front);
      assert calls == front + [Expire(now)];
      CallFindsNothing(Run(start, front), now, Far(start, front));
      OneMore(start, front, Expire(now));
      PostedMore(start, front, now, calls);
      ReachJoin(front, [Expire(now)]);
      ReachOne(Expire(now));
    }
  }

  lemma CallFindsNothing(h: History, now: Absolute, far: nat)
    requires Unused(h, far)
    ensures Unused(Step(h, Expire(now)), far + Reach(Expire(now)))
  {
    NextKeepsValid(h.tracker, Expire(now));
    if h.tracker.Accepts(now) {
      TooSoon(h, now);
    }
  }

  lemma PostedHome(start: int, calls: seq<Operation>, at: Absolute, id: int, x: Posted, wait: nat)
    requires OnlyCalls(calls) && x == Posted(id, at.Instant(), BaseOf(start, calls)) && wait > 0
    requires at.Instant() == x.base * NANOS + wait
    ensures PostedInOrder(start, calls + [Post(at, id)]) == [x]
    ensures OnTheWay(Run(start, calls + [Post(at, id)]), x, wait, x.base, Far(start, calls))
  {
    var t := Run(start, calls).tracker;
    CallsFindNothing(start, calls);
    BaseOfRun(start, calls);
    OneMore(start, calls, Post(at, id));
    assert (calls + [Post(at, id)])[..|calls|] == calls;
    KeyIsWait(t, at);
    PostAtKeepsValid(t, at, x);
    assert Insert([], Entry(t.Key(at), x)) == [Entry(t.Key(at), x)];
  }

  /** The event goes astray when the base moves away, and has still done so when it comes back. */
  lemma ComesBackAstray(start: int, ops: seq<Operation>, away: seq<Operation>, back: seq<Operation>, x: Posted,
                        wait: nat, far: nat)
    requires OnTheWay(Run(start, ops), x, wait, x.base, far) && OnlyCalls(away) && OnlyCalls(back)
    requires far + ReachAll(away) + ReachAll(back) < wait && BaseOf(start, ops + away) != x.base
    ensures Run(start, ops + away + back).delivered == []
    ensures Astray(Run(start, ops + away + back).tracker, x, wait, x.base)
  {
    RunSteps(start, ops, away);
    RunSteps(start, ops + away, back);
    CallsLeaveOne(Run(start, ops), away, x, wait, x.base, far);
    BaseOfRun(start, ops + away);
    CallsLeaveOne(Run(start, ops + away), back, x, wait, x.base, far + ReachAll(away));
  }

  /** What is posted when the base has come back leaves first. */
  lemma SecondPostedFirst(start: int, ops: seq<Operation>, at: Absolute, x: Posted, y: Posted, wait: nat)
    returns (now: Absolute)
    requires PostedInOrder(start, ops) == [x] && Run(start, ops).delivered == []
    requires Astray(Run(start, ops).tracker, x, wait, x.base)
    requires BaseOf(start, ops) == x.base == y.base && at.Instant() == x.due == y.due == x.base * NANOS + wait
    ensures PostedInOrder(start, ops + [Post(at, y.id)]) == [x, y]
    ensures EventsOf(Run(start, ops + [Post(at, y.id)] + [Expire(now)]).delivered) == [y, x]
  {
    var h, more := Run(start, ops), ops + [Post(at, y.id)];
    BaseOfRun(start, ops);
    OneMore(start, ops, Post(at, y.id));
    assert more[..|ops|] == ops;
    assert [x] + [y] == [x, y];
    var t := Run(start, more).tracker;
    KeyIsWait(h.tracker, at);
    PostAtKeepsValid(h.tracker, at, y);
    assert t.current == [Entry(h.tracker.Key(at), y)];
    now := At(Abs(t.currentBase) + Abs(t.oldBase) + wait + t.prev[0].key.Total() + 1);
    BothExpired(t, now, wait);
    OneMore(start, more, Expire(now));
    assert EventsOf([] + Stamped([y, x], now.Instant())) == [y, x];
  }

  lemma BothExpired(t: Tracker<Posted>, now: Absolute, wait: nat)
    requires t.Valid() && |t.current| == 1 == |t.prev| && t.current[0].key.Total() == wait
    requires t.prev[0].key.Total() + t.baseDiff.Total() > wait
    requires now == At(Abs(t.currentBase) + Abs(t.oldBase) + wait + t.prev[0].key.Total() + 1)
    ensures t.Accepts(now) && t.Delivered(now) == [t.current[0].event, t.prev[0].event]
  {
    assert At(t.currentBase).Instant() == t.currentBase * NANOS && At(t.oldBase).Instant() == t.oldBase * NANOS;
    assert now.Instant() == now.time * NANOS;
    AcceptsWhen(t, now);
    SinceIsDistance(now, At(t.currentBase));
    SinceIsDistance(now, At(t.oldBase));
    UpperBoundSplits(t.current, now.Since(At(t.currentBase)));
    UpperBoundSplits(t.prev, now.Since(At(t.oldBase)));
    PlusAdds(t.prev[0].key, t.baseDiff);
    LessIsShorter(t.current[0].key, t.prev[0].key.Plus(t.baseDiff));
    DeliveredTwo(t, now);
  }

  /** Calls with something posted in between are those calls. */
  lemma CallsAround(start: int, a: seq<Operation>, post: Operation, b: seq<Operation>)
    requires OnlyCalls(a) && OnlyCalls(b) && post.Post?
    ensures CallsOf(a + [post] + b) == a + b && BaseOf(start, a + [post] + b) == BaseOf(start, a + b)
  {
    CallsOfJoin(a + [post], b);
    CallsOfJoin(a, [post]);
    CallsOfOne(post);
    CallsOfCalls(a);
    CallsOfCalls(b);
    assert a + [] == a;
    BaseOfCalls(start, a + [post] + b);
  }

  lemma FarEnough(base: int, far: nat)
    requires Abs(base * NANOS) <= far
    ensures At(2 * far + 1).Instant() - base * NANOS > far
  {
    assert At(2 * far + 1).Instant() == (2 * far + 1) * NANOS;
  }

  /** The base is in force, moves away and comes back: then it happens. */
  lemma OutOfTurn(start: int, a: seq<Operation>, away: seq<Operation>, back: seq<Operation>, base: int, far: nat)
    returns (ops: seq<Operation>, now: Absolute, due: int)
    requires OnlyCalls(a) && OnlyCalls(away) && OnlyCalls(back)
    requires far == Far(start, a) + ReachAll(away) + ReachAll(back)
    requires BaseOf(start, a) == base == BaseOf(start, a + (away + back)) && BaseOf(start, a + away) != base
    ensures CallsOf(ops) == a + (away + back)
    ensures PostedInOrder(start, ops) == [Posted(1, due, base), Posted(2, due, base)]
    ensures EventsOf(Run(start, ops + [Expire(now)]).delivered) == [Posted(2, due, base), Posted(1, due, base)]
  {
    CallsFindNothing(start, a);
    BaseOfRun(start, a);
    FarEnough(base, far);
    var at := At(2 * far + 1);
    due := at.Instant();
    ops, now := OutOfTurnAt(start, a, away, back, base, at, due - base * NANOS);
  }

  lemma OutOfTurnAt(start: int, a: seq<Operation>, away: seq<Operation>, back: seq<Operation>, base: int, at: Absolute,
                    wait: nat)
    returns (ops: seq<Operation>, now: Absolute)
    requires OnlyCalls(a) && OnlyCalls(away) && OnlyCalls(back)
    requires Far(start, a) + ReachAll(away) + ReachAll(back) < wait == at.Instant() - base * NANOS
    requires BaseOf(start, a) == base == BaseOf(start, a + (away + back)) && BaseOf(start, a + away) != base
    ensures CallsOf(ops) == a + (away + back)
    ensures PostedInOrder(start, ops) == [Posted(1, at.Instant(), base), Posted(2, at.Instant(), base)]
    ensures EventsOf(Run(start, ops + [Expire(now)]).delivered) ==
            [Posted(2, at.Instant(), base), Posted(1, at.Instant(), base)]
  {
    var x, y, post := Posted(1, at.Instant(), base), Posted(2, at.Instant(), base), Post(at, 1);
    var front := a + [post] + away + back;
    assert front == a + [post] + (away + back);
    PostedHome(start, a, at, 1, x, wait);
    CallsAround(start, a, post, away);
    CallsAround(start, a, post, away + back);
    ComesBackAstray(start, a + [post], away, back, x, wait, Far(start, a));
    CallsPostNothing(start, a + [post], away + back);
    now := SecondPostedFirst(start, front, at, x, y, wait);
    ops := front + [Post(at, 2)];
    CallsOfJoin(front, [Post(at, 2)]);
    CallsOfOne(Post(at, 2));
  }

  lemma OfTwo(x: Posted, y: Posted)
    requires x.due == y.due && x.base == y.base
    ensures Of([x, y], x.due, x.base) == [x, y]
  {
    assert [x, y] == [x] + [y];
    OfAppend([x], [y], x.due, x.base);
    OfOne(x, x.due, x.base);
    OfOne(y, x.due, x.base);
  }

  /** That is so if and only if the base does not come back after it has moved away. */
  lemma FirstPostedFirstExactly(start: int, calls: seq<Operation>, base: int)
    requires OnlyCalls(calls)
    ensures InTurn(start, calls, base) <==> InForceOnce(start, calls, base)
  {
    if InForceOnce(start, calls, base) {
      OnceMeansInTurn(start, calls, base);
    } else {
      var i, j, k :| 0 <= i < j < k <= |calls| && BaseOf(start, calls[..i]) == base == BaseOf(start, calls[..k]) &&
        BaseOf(start, calls[..j]) != base;
      NotInTurn(start, calls, base, i, j, k);
    }
  }

  lemma NotInTurn(start: int, calls: seq<Operation>, base: int, i: nat, j: nat, k: nat)
    requires OnlyCalls(calls) && i < j < k <= |calls|
    requires BaseOf(start, calls[..i]) == base == BaseOf(start, calls[..k]) && BaseOf(start, calls[..j]) != base
    ensures !InTurn(start, calls, base)
  {
    Cut(calls, i, j, k);
    BackAndDisorder(start, calls, calls[..i], calls[i..j], calls[j..k], base);
  }

  lemma Cut(calls: seq<Operation>, i: nat, j: nat, k: nat)
    requires i < j < k <= |calls|
    ensures calls[..i] + calls[i..j] == calls[..j] && calls[..i] + (calls[i..j] + calls[j..k]) == calls[..k]
  {
  }

  lemma BackAndDisorder(start: int, calls: seq<Operation>, a: seq<Operation>, away: seq<Operation>,
                        back: seq<Operation>, base: int)
    requires OnlyCalls(a) && OnlyCalls(away) && OnlyCalls(back) && a + (away + back) <= calls
    requires BaseOf(start, a) == base == BaseOf(start, a + (away + back)) && BaseOf(start, a + away) != base
    ensures !InTurn(start, calls, base)
  {
    var ops, now, due := OutOfTurn(start, a, away, back, base, Far(start, a) + ReachAll(away) + ReachAll(back));
    Disorder(start, calls, ops, now, Posted(1, due, base), Posted(2, due, base));
  }

  lemma Disorder(start: int, calls: seq<Operation>, ops: seq<Operation>, now: Absolute, x: Posted, y: Posted)
    requires CallsOf(ops) <= calls && x != y && x.due == y.due && x.base == y.base
    requires PostedInOrder(start, ops) == [x, y]
    requires EventsOf(Run(start, ops + [Expire(now)]).delivered) == [y, x]
    ensures !InTurn(start, calls, x.base)
  {
    OfTwo(x, y);
    OfTwo(y, x);
    var out, in_ := DeliveredOf(start, ops + [Expire(now)], x.due, x.base), PostedOf(start, ops, x.due, x.base);
    assert out[0] != in_[0];
    assert !(out <= in_);
  }
}
