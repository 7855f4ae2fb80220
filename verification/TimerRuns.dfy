/** What a tracker does over whole runs: nothing is lost, nothing is early, and how long nothing is late. */
module TimerRuns {
  import opened Basics
  import opened Timers
  import opened TimerTracking

  /** A posted event, labelled with the instant it is due and the base that was in force. */
  datatype Posted = Posted(id: int, due: int, base: int)

  datatype Operation = Post(at: Absolute, id: int) | Expire(now: Absolute)

  datatype Delivery = Delivery(at: int, event: Posted)

  datatype History = History(tracker: Tracker<Posted>, posted: multiset<Posted>, delivered: seq<Delivery>)

  function Stamped(events: seq<Posted>, at: int): seq<Delivery> {
    seq(|events|, i requires 0 <= i < |events| => Delivery(at, events[i]))
  }

  function EventsOf(ds: seq<Delivery>): seq<Posted> {
    seq(|ds|, i requires 0 <= i < |ds| => ds[i].event)
  }

  /** What an operation makes of the tracker. A call that throws changes nothing. */
  function NextTracker(t: Tracker<Posted>, op: Operation): Tracker<Posted> {
    match op
    case Post(at, id) => t.PostAt(at, Posted(id, at.Instant(), t.currentBase))
    case Expire(now) => if t.Accepts(now) then t.Expired(now) else t
  }

  function Step(h: History, op: Operation): History {
    match op
    case Post(at, id) =>
      h.(tracker := NextTracker(h.tracker, op),
         posted := h.posted + multiset{Posted(id, at.Instant(), h.tracker.currentBase)})
    case Expire(now) =>
      if h.tracker.Accepts(now) then
        h.(tracker := NextTracker(h.tracker, op),
           delivered := h.delivered + Stamped(h.tracker.Delivered(now), now.Instant()))
      else h
  }

  /** A run of a tracker made at `start`. */
  function Run(start: int, ops: seq<Operation>): History
    decreases |ops|
  {
    if ops == [] then History(Tracker(start, start, Interval(0, 0), [], []), multiset{}, [])
    else Step(Run(start, ops[..|ops| - 1]), ops[|ops| - 1])
  }

  lemma TrackerOfMore(start: int, ops: seq<Operation>, op: Operation)
    ensures Run(start, ops + [op]).tracker == NextTracker(Run(start, ops).tracker, op)
  {
    OneMore(start, ops, op);
  }

  lemma OneMore(start: int, ops: seq<Operation>, op: Operation)
    ensures Run(start, ops + [op]) == Step(Run(start, ops), op)
  {
    assert (ops + [op])[..|ops|] == ops;
  }

  /** The trackers through three more operations. */
  lemma ThreeMore(start: int, ops: seq<Operation>, a: Operation, b: Operation, c: Operation, all: seq<Operation>)
    returns (t1: Tracker<Posted>, t2: Tracker<Posted>)
    requires all == ops + [a, b, c]
    ensures t1 == NextTracker(Run(start, ops).tracker, a) && t2 == NextTracker(t1, b)
    ensures Run(start, all).tracker == NextTracker(t2, c)
  {
    var one, two := ops + [a], ops + [a, b];
    t1, t2 := Run(start, one).tracker, Run(start, two).tracker;
    TrackerOfMore(start, ops, a);
    assert two == one + [b] && all == two + [c];
    TrackerOfMore(start, one, b);
    TrackerOfMore(start, two, c);
  }

  // Conservation.

  function EventsIn<E>(h: seq<Entry<E>>): seq<E> {
    seq(|h|, i requires 0 <= i < |h| => h[i].event)
  }

  ghost function Bag<E>(h: seq<Entry<E>>): multiset<E> {
    multiset(EventsIn(h))
  }

  ghost function Stored<E>(t: Tracker<E>): multiset<E> {
    Bag(t.current) + Bag(t.prev)
  }

  lemma BagJoin<E>(a: seq<Entry<E>>, b: seq<Entry<E>>)
    ensures Bag(a + b) == Bag(a) + Bag(b)
  {
    assert EventsIn(a + b) == EventsIn(a) + EventsIn(b);
  }

  lemma BagSplit<E>(h: seq<Entry<E>>, n: nat)
    requires n <= |h|
    ensures Bag(h) == Bag(h[..n]) + Bag(h[n..])
  {
    assert h == h[..n] + h[n..];
    BagJoin(h[..n], h[n..]);
  }

  lemma BagOne<E>(e: Entry<E>)
    ensures Bag([e]) == multiset{e.event}
  {
    assert EventsIn([e]) == [e.event];
  }

  lemma InsertConserves<E>(h: seq<Entry<E>>, e: Entry<E>)
    ensures Bag(Insert(h, e)) == Bag(h) + multiset{e.event}
  {
    var n := UpperBound(h, e.key);
    BagSplit(h, n);
    BagJoin(h[..n] + [e], h[n..]);
    BagJoin(h[..n], [e]);
    BagOne(e);
  }

  lemma {:induction false} InsertAllConserves<E>(h: seq<Entry<E>>, from: seq<Entry<E>>, diff: Interval)
    ensures Bag(InsertAll(h, from, diff)) == Bag(h) + Bag(from)
    decreases |from|
  {
    if from != [] {
      var e := Entry(from[0].key.Plus(diff), from[0].event);
      InsertConserves(h, e);
      InsertAllConserves(Insert(h, e), from[1..], diff);
      BagSplit(from, 1);
      assert from[..1] == [from[0]];
      BagOne(from[0]);
    }
  }

  lemma FirstOfBag<E>(h: seq<Entry<E>>)
    requires h != []
    ensures Bag(h) == multiset{h[0].event} + Bag(h[1..])
  {
    BagSplit(h, 1);
    assert h[..1] == [h[0]];
    BagOne(h[0]);
  }

  lemma {:induction false} MergeConserves<E>(cur: seq<Entry<E>>, prev: seq<Entry<E>>, diff: Interval)
    ensures multiset(Merge(cur, prev, diff)) == Bag(cur) + Bag(prev)
    decreases |cur| + |prev|
  {
    if cur == [] && prev == [] {
    } else if OldFirst(cur, prev, diff) {
      FirstOfBag(prev);
      MergeConserves(cur, prev[1..], diff);
    } else {
      FirstOfBag(cur);
      MergeConserves(cur[1..], prev, diff);
    }
  }

  lemma ExpiredConserves<E>(t: Tracker<E>, now: Absolute)
    ensures multiset(t.Delivered(now)) + Stored(t.Erased(now)) == Stored(t)
    ensures Stored(t.Expired(now)) == Stored(t.Erased(now))
  {
    BagSplit(t.current, t.CurrentEnd(now));
    BagSplit(t.prev, t.OldEnd(now));
    MergeConserves(t.current[..t.CurrentEnd(now)], t.prev[..t.OldEnd(now)], t.baseDiff);
    var e := t.Erased(now);
    InsertAllConserves(e.current, e.prev, e.baseDiff);
  }

  lemma DeliveredTogether(ds: seq<Delivery>, events: seq<Posted>, at: int)
    ensures multiset(EventsOf(ds + Stamped(events, at))) == multiset(EventsOf(ds)) + multiset(events)
  {
    assert EventsOf(ds + Stamped(events, at)) == EventsOf(ds) + events;
  }

  ghost predicate Conserved(h: History) {
    h.posted == multiset(EventsOf(h.delivered)) + Stored(h.tracker)
  }

  lemma StepConserves(h: History, op: Operation)
    requires Conserved(h)
    ensures Conserved(Step(h, op))
  {
    match op
    case Post(at, id) =>
      InsertConserves(h.tracker.current, Entry(h.tracker.Key(at), Posted(id, at.Instant(), h.tracker.currentBase)));
    case Expire(now) =>
      ExpiredConserves(h.tracker, now);
      DeliveredTogether(h.delivered, h.tracker.Delivered(now), now.Instant());
  }

  /** In any run whatsoever, what has been posted is what has been delivered and what is still stored. */
  lemma {:induction false} RunConserves(start: int, ops: seq<Operation>)
    ensures var h := Run(start, ops); h.posted == multiset(EventsOf(h.delivered)) + Stored(h.tracker)
    decreases |ops|
  {
    if ops != [] {
      RunConserves(start, ops[..|ops| - 1]);
      StepConserves(Run(start, ops[..|ops| - 1]), ops[|ops| - 1]);
    }
  }

  // Never early.

  /** Everything in the heap waits at least until it is due. */
  ghost predicate Waits(h: seq<Entry<Posted>>, base: int) {
    forall i | 0 <= i < |h| :: h[i].event.due <= base * NANOS + h[i].key.Total()
  }

  ghost predicate NothingEarly(t: Tracker<Posted>) {
    t.Ordered() && Waits(t.current, t.currentBase) && Waits(t.prev, t.oldBase)
  }

  lemma {:induction false} InsertAllWaits(h: seq<Entry<Posted>>, from: seq<Entry<Posted>>, diff: Interval, base: int)
    requires Waits(h, base)
    requires forall i | 0 <= i < |from| :: from[i].event.due <= base * NANOS + from[i].key.Total() + diff.Total()
    ensures Waits(InsertAll(h, from, diff), base)
    decreases |from|
  {
    if from != [] {
      PlusAdds(from[0].key, diff);
      InsertAllWaits(Insert(h, Entry(from[0].key.Plus(diff), from[0].event)), from[1..], diff, base);
    }
  }

  /** A rebase that moves the base on keeps everything waiting long enough. */
  lemma ExpiredIsNotEarly(t: Tracker<Posted>, now: Absolute)
    requires NothingEarly(t) && t.Accepts(now) && (t.RebaseDue(now) ==> now.time >= t.currentBase)
    ensures NothingEarly(t.Expired(now))
  {
    ExpiredKeepsValid(t, now);
    var e := t.Erased(now);
    if t.RebaseDue(now) {
      InsertAllWaits(e.current, e.prev, e.baseDiff, e.currentBase);
      SinceIsDistance(At(now.time), At(t.currentBase));
      assert At(now.time).Instant() == now.time * NANOS && At(t.currentBase).Instant() == t.currentBase * NANOS;
    }
  }

  lemma PostAtIsNotEarly(t: Tracker<Posted>, at: Absolute, id: int)
    requires NothingEarly(t)
    ensures NothingEarly(t.PostAt(at, Posted(id, at.Instant(), t.currentBase)))
  {
    KeyIsWait(t, at);
    PostAtKeepsValid(t, at, Posted(id, at.Instant(), t.currentBase));
  }

  lemma {:induction false} RunKeepsValid(start: int, ops: seq<Operation>)
    ensures Run(start, ops).tracker.Valid()
    decreases |ops|
  {
    if ops != [] {
      var front, op := ops[..|ops| - 1], ops[|ops| - 1];
      RunKeepsValid(start, front);
      TrackerOfMore(start, front, op);
      assert ops == front + [op];
      NextKeepsValid(Run(start, front).tracker, op);
    }
  }

  lemma NextKeepsValid(t: Tracker<Posted>, op: Operation)
    requires t.Valid()
    ensures NextTracker(t, op).Valid()
  {
    match op
    case Post(at, id) => PostAtKeepsValid(t, at, Posted(id, at.Instant(), t.currentBase));
    case Expire(now) => ExpiredKeepsValid(t, now);
  }

  /** What is merged comes from one of the two heaps. */
  lemma {:induction false} MergedFromOne<E>(cur: seq<Entry<E>>, prev: seq<Entry<E>>, diff: Interval, x: E)
    requires x in Merge(cur, prev, diff)
    ensures (exists i :: 0 <= i < |cur| && cur[i].event == x) || (exists i :: 0 <= i < |prev| && prev[i].event == x)
  {
    MergeConserves(cur, prev, diff);
    assert x in multiset(Merge(cur, prev, diff));
    if x in Bag(cur) {
      assert x in EventsIn(cur);
    } else {
      assert x in EventsIn(prev);
    }
  }

  lemma DeliveredNotEarly(t: Tracker<Posted>, now: Absolute, x: Posted)
    requires NothingEarly(t) && t.Accepts(now) && x in t.Delivered(now)
    ensures x.due <= now.Instant()
  {
    AcceptsWhen(t, now);
    DeliveredIsExpired(t, now);
    MergedFromOne(t.current[..t.CurrentEnd(now)], t.prev[..t.OldEnd(now)], t.baseDiff, x);
  }

  /** A call hands over exactly what fires by then, in the coordinates of its heap. */
  lemma DeliveredIsExpired<E>(t: Tracker<E>, now: Absolute)
    requires t.Ordered() && now.Instant() >= t.currentBase * NANOS
    ensures forall i | 0 <= i < |t.current| ::
      i < t.CurrentEnd(now) <==> t.currentBase * NANOS + t.current[i].key.Total() <= now.Instant()
    ensures forall i | 0 <= i < |t.prev| ::
      i < t.OldEnd(now) <==> t.oldBase * NANOS + t.prev[i].key.Total() <= now.Instant()
  {
    assert At(t.currentBase).Instant() == t.currentBase * NANOS && At(t.oldBase).Instant() == t.oldBase * NANOS;
    SinceIsDistance(now, At(t.currentBase));
    SinceIsDistance(now, At(t.oldBase));
    UpperBoundSplits(t.current, now.Since(At(t.currentBase)));
    UpperBoundSplits(t.prev, now.Since(At(t.oldBase)));
  }

  /** Whether a call at `now` is accepted and moves the base. */
  predicate Moves(base: int, now: Absolute) {
    !now.Before(At(base)) && now.time != base && now.Since(At(base)).seconds >= WEEK
  }

  /** The base depends on the times of the calls only, not on what is posted. */
  function BaseOf(start: int, ops: seq<Operation>): int
    decreases |ops|
  {
    if ops == [] then start
    else
      var base, op := BaseOf(start, ops[..|ops| - 1]), ops[|ops| - 1];
      if op.Expire? && Moves(base, op.now) then op.now.time else base
  }

  lemma {:induction false} BaseOfRun(start: int, ops: seq<Operation>)
    ensures Run(start, ops).tracker.currentBase == BaseOf(start, ops)
    decreases |ops|
  {
    if ops != [] {
      BaseOfRun(start, ops[..|ops| - 1]);
    }
  }

  lemma BaseOfMore(start: int, ops: seq<Operation>, op: Operation)
    ensures BaseOf(start, ops + [op]) ==
            if op.Expire? && Moves(BaseOf(start, ops), op.now) then op.now.time else BaseOf(start, ops)
  {
    assert (ops + [op])[..|ops|] == ops;
  }

  /** If operation number `k` is a call that moves the base, it moves it on. */
  ghost predicate GoesForward(start: int, ops: seq<Operation>, k: nat)
    requires k < |ops|
  {
    ops[k].Expire? && Moves(BaseOf(start, ops[..k]), ops[k].now) ==> ops[k].now.time >= BaseOf(start, ops[..k])
  }

  ghost predicate Forward(start: int, ops: seq<Operation>) {
    ForwardFrom(start, ops, 0)
  }

  ghost predicate ForwardFrom(start: int, ops: seq<Operation>, n: nat) {
    forall k | n <= k < |ops| :: GoesForward(start, ops, k)
  }

  lemma ForwardBefore(start: int, ops: seq<Operation>)
    requires Forward(start, ops) && ops != []
    ensures Forward(start, ops[..|ops| - 1]) && GoesForward(start, ops, |ops| - 1)
  {
    var front := ops[..|ops| - 1];
    forall k | 0 <= k < |front|
      ensures GoesForward(start, front, k)
    {
      assert front[..k] == ops[..k];
      assert GoesForward(start, ops, k);
    }
  }

  ghost predicate NoneEarly(h: History) {
    forall d | d in h.delivered :: d.event.due <= d.at
  }

  /** As long as no call moves the base back, no event is ever delivered before it is due. */
  lemma {:induction false} NeverEarly(start: int, ops: seq<Operation>)
    requires Forward(start, ops)
    ensures NothingEarly(Run(start, ops).tracker)
    ensures NoneEarly(Run(start, ops))
    decreases |ops|
  {
    if ops != [] {
      var before, op := Run(start, ops[..|ops| - 1]), ops[|ops| - 1];
      ForwardBefore(start, ops);
      BaseOfRun(start, ops[..|ops| - 1]);
      NeverEarly(start, ops[..|ops| - 1]);
      match op
      case Post(at, id) =>
        PostAtIsNotEarly(before.tracker, at, id);
      case Expire(now) =>
        if before.tracker.Accepts(now) {
          ExpiredIsNotEarly(before.tracker, now);
          forall x | x in before.tracker.Delivered(now)
            ensures x.due <= now.Instant()
          {
            DeliveredNotEarly(before.tracker, now, x);
          }
        }
    }
  }
}
