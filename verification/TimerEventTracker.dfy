/** Events that wait for their time, kept in two generations of heaps with different base times. */
module TimerTracking {
  import opened Basics
  import opened Timers

  /** One element of a multimap from intervals to events. */
  datatype Entry<E> = Entry(key: Interval, event: E)

  const WEEK := 7 * 24 * 60 * 60

  /** compare_intervals, the order of the multimaps. */
  predicate Compare(a: Interval, b: Interval) {
    a.seconds < b.seconds || (a.seconds == b.seconds && a.nanoseconds < b.nanoseconds)
  }

  ghost predicate Heap<E>(h: seq<Entry<E>>) {
    && (forall i | 0 <= i < |h| :: h[i].key.Normal())
    && (forall i, j | 0 <= i < j < |h| :: h[i].key.Total() <= h[j].key.Total())
  }

  /** How many elements come before the first one whose key is after `key`. */
  function UpperBound<E>(h: seq<Entry<E>>, key: Interval): (n: nat)
    ensures n <= |h|
  {
    if h == [] || Compare(key, h[0].key) then 0 else 1 + UpperBound(h[1..], key)
  }

  lemma {:induction false} UpperBoundStops<E>(h: seq<Entry<E>>, key: Interval)
    ensures var n := UpperBound(h, key);
            && (forall i | 0 <= i < n :: !Compare(key, h[i].key))
            && (n < |h| ==> Compare(key, h[n].key))
  {
    if h != [] && !Compare(key, h[0].key) {
      UpperBoundStops(h[1..], key);
      assert forall i | 0 < i < |h| :: h[i] == h[1..][i - 1];
    }
  }

  lemma CompareIsShorter(a: Interval, b: Interval)
    requires a.Normal() && b.Normal()
    ensures Compare(a, b) <==> a.Total() < b.Total()
  {
  }

  /** In a heap that is everything up to `key`, and nothing else. */
  lemma UpperBoundSplits<E>(h: seq<Entry<E>>, key: Interval)
    requires Heap(h) && key.Normal()
    ensures forall i | 0 <= i < |h| :: i < UpperBound(h, key) <==> h[i].key.Total() <= key.Total()
  {
    var n := UpperBound(h, key);
    UpperBoundStops(h, key);
    forall i | 0 <= i < |h|
      ensures i < n <==> h[i].key.Total() <= key.Total()
    {
      CompareIsShorter(key, h[i].key);
      if n < |h| {
        CompareIsShorter(key, h[n].key);
      }
    }
  }

  /** multimap::insert */
  function Insert<E>(h: seq<Entry<E>>, e: Entry<E>): seq<Entry<E>> {
    var n := UpperBound(h, e.key);
    h[..n] + [e] + h[n..]
  }

  lemma JoinHeaps<E>(a: seq<Entry<E>>, b: seq<Entry<E>>)
    requires Heap(a) && Heap(b) && forall i, j | 0 <= i < |a| && 0 <= j < |b| :: a[i].key.Total() <= b[j].key.Total()
    ensures Heap(a + b)
  {
  }

  lemma InsertKeepsHeap<E>(h: seq<Entry<E>>, e: Entry<E>)
    requires Heap(h) && e.key.Normal()
    ensures Heap(Insert(h, e))
  {
    UpperBoundSplits(h, e.key);
    var n := UpperBound(h, e.key);
    JoinHeaps(h[..n], [e]);
    JoinHeaps(h[..n] + [e], h[n..]);
  }

  /** Inserts the elements of `from`, every key moved on by `diff`. */
  function InsertAll<E>(h: seq<Entry<E>>, from: seq<Entry<E>>, diff: Interval): seq<Entry<E>>
    decreases |from|
  {
    if from == [] then h
    else InsertAll(Insert(h, Entry(from[0].key.Plus(diff), from[0].event)), from[1..], diff)
  }

  lemma {:induction false} InsertAllKeepsHeap<E>(h: seq<Entry<E>>, from: seq<Entry<E>>, diff: Interval)
    requires Heap(h)
    ensures Heap(InsertAll(h, from, diff))
    decreases |from|
  {
    if from != [] {
      PlusAdds(from[0].key, diff);
      var e := Entry(from[0].key.Plus(diff), from[0].event);
      InsertKeepsHeap(h, e);
      InsertAllKeepsHeap(Insert(h, e), from[1..], diff);
    }
  }

  /** The order in which the expired elements of both heaps are handed over. */
  function Merge<E>(cur: seq<Entry<E>>, prev: seq<Entry<E>>, diff: Interval): seq<E>
    decreases |cur| + |prev|
  {
    if cur == [] && prev == [] then []
    else if OldFirst(cur, prev, diff) then [prev[0].event] + Merge(cur, prev[1..], diff)
    else [cur[0].event] + Merge(cur[1..], prev, diff)
  }

  predicate OldFirst<E>(cur: seq<Entry<E>>, prev: seq<Entry<E>>, diff: Interval) {
    prev != [] && (cur == [] || !cur[0].key.Less(prev[0].key.Plus(diff)))
  }

  /** The state of a TimerEventTracker as a value: what each of its operations makes of it. */
  datatype Tracker<E> = Tracker(
    oldBase: int, currentBase: int, baseDiff: Interval, current: seq<Entry<E>>, prev: seq<Entry<E>>) {

    ghost predicate Valid() {
      Heap(current) && Heap(prev) && baseDiff.Normal()
    }

    /** The bases have never moved back. */
    ghost predicate Ordered() {
      Valid() && currentBase * NANOS == oldBase * NANOS + baseDiff.Total()
    }

    function Key(t: Absolute): Interval {
      if At(currentBase).Before(t) then t.Since(At(currentBase)) else Interval(0, 0)
    }

    function PostAt(t: Absolute, ev: E): Tracker<E> {
      this.(current := Insert(current, Entry(Key(t), ev)))
    }

    /** Otherwise range_error is thrown. */
    predicate Accepts(now: Absolute) {
      !now.Before(At(currentBase))
    }

    function CurrentEnd(now: Absolute): (n: nat)
      ensures n <= |current|
    {
      UpperBound(current, now.Since(At(currentBase)))
    }

    function OldEnd(now: Absolute): (n: nat)
      ensures n <= |prev|
    {
      if |prev| <= 0 then 0 else UpperBound(prev, now.Since(At(oldBase)))
    }

    function Delivered(now: Absolute): seq<E> {
      Merge(current[..CurrentEnd(now)], prev[..OldEnd(now)], baseDiff)
    }

    function Erased(now: Absolute): Tracker<E> {
      this.(current := current[CurrentEnd(now)..], prev := prev[OldEnd(now)..])
    }

    predicate RebaseDue(now: Absolute) {
      now.time != currentBase && now.Since(At(currentBase)).seconds >= WEEK
    }

    /** The current generation becomes the old one, and takes in what is left of that. */
    function Rebased(time: int): Tracker<E> {
      Tracker(currentBase, time, At(time).Since(At(currentBase)), [], InsertAll(current, prev, baseDiff))
    }

    function Expired(now: Absolute): Tracker<E> {
      if RebaseDue(now) then Erased(now).Rebased(now.time) else Erased(now)
    }

    /** How long one may sleep from `now`, at most `maxtime`; none if range_error is thrown. */
    function NextExpirationIn(now: Absolute, maxtime: Interval): Option<Interval> {
      if !Accepts(now) then None
      else if |current| == 0 && |prev| == 0 then Some(maxtime)
      else
        var earliest := Earliest();
        if now.Before(earliest) then
          var next := earliest.Since(now);
          Some(if maxtime.Less(next) then maxtime else next)
        else Some(Interval(0, 0))
    }

    function Earliest(): Absolute
      requires |current| != 0 || |prev| != 0
    {
      if |current| > 0 then
        var earliest := Absolute(currentBase, current[0].key);
        if |prev| > 0 then
          var contender := Absolute(oldBase, prev[0].key);
          if contender.Before(earliest) then contender else earliest
        else earliest
      else Absolute(oldBase, prev[0].key)
    }
  }

  /** The key of an event is the time from the base to when it is due, or nothing if that has passed. */
  lemma KeyIsWait<E>(t: Tracker<E>, at: Absolute)
    ensures t.Key(at).Normal()
    ensures t.Key(at).Total() ==
      if at.Instant() > t.currentBase * NANOS then at.Instant() - t.currentBase * NANOS else 0
  {
    var base := At(t.currentBase);
    assert base.Instant() == t.currentBase * NANOS;
    BeforeIsEarlier(base, at);
    SinceIsDistance(at, base);
  }

  /** `now` is turned away exactly if it is earlier than the base, or is the base itself. */
  lemma AcceptsWhen<E>(t: Tracker<E>, now: Absolute)
    ensures t.Accepts(now) <==>
            now.Instant() >= t.currentBase * NANOS && now != Absolute(t.currentBase, Interval(0, 0))
  {
    assert At(t.currentBase).Instant() == t.currentBase * NANOS;
    BeforeIsEarlier(now, At(t.currentBase));
  }

  lemma PostAtKeepsValid<E>(t: Tracker<E>, at: Absolute, ev: E)
    requires t.Valid()
    ensures t.PostAt(at, ev).Valid()
  {
    KeyIsWait(t, at);
    InsertKeepsHeap(t.current, Entry(t.Key(at), ev));
  }

  lemma ExpiredKeepsValid<E>(t: Tracker<E>, now: Absolute)
    requires t.Valid()
    ensures t.Expired(now).Valid() && t.Erased(now).Valid()
  {
    var e := t.Erased(now);
    InsertAllKeepsHeap(e.current, e.prev, e.baseDiff);
    SinceIsDistance(At(now.time), At(e.currentBase));
  }

  class TimerEventTracker<E> {
    var oldBase: int
    var currentBase: int
    var baseDiff: Interval
    var map1: seq<Entry<E>>
    var map2: seq<Entry<E>>
    var map1Current: bool

    function Abs(): Tracker<E>
      reads this
    {
      Tracker(oldBase, currentBase, baseDiff, TheHeap(), TheOldHeap())
    }

    function TheHeap(): seq<Entry<E>>
      reads this
    {
      if map1Current then map1 else map2
    }

    function TheOldHeap(): seq<Entry<E>>
      reads this
    {
      if map1Current then map2 else map1
    }

    ghost predicate Valid()
      reads this
    {
      Abs().Valid()
    }

    constructor (now: Absolute)
      ensures Valid() && Abs() == Tracker(now.time, now.time, Interval(0, 0), [], [])
    {
      oldBase, currentBase, baseDiff := now.time, now.time, Interval(0, 0);
      map1, map2, map1Current := [], [], true;
    }

    method SetHeaps(current: seq<Entry<E>>, prev: seq<Entry<E>>)
      modifies this`map1, this`map2
      ensures TheHeap() == current && TheOldHeap() == prev
    {
      if map1Current {
        map1, map2 := current, prev;
      } else {
        map2, map1 := current, prev;
      }
    }

    method PostAt(t: Absolute, ev: E)
      requires Valid()
      modifies this
      ensures Valid() && Abs() == old(Abs()).PostAt(t, ev)
    {
      PostAtKeepsValid(Abs(), t, ev);
      var curbase := At(currentBase);
      var timexp := if curbase.Before(t) then t.Since(curbase) else Interval(0, 0);
      SetHeaps(Insert(TheHeap(), Entry(timexp, ev)), TheOldHeap());
    }

    /** The merge loop: `events` are the events handed to the dispatcher, in order. */
    method HandOver(cur: seq<Entry<E>>, prev: seq<Entry<E>>) returns (events: seq<E>, numposted: nat)
      ensures events == Merge(cur, prev, baseDiff) && numposted == |events|
    {
      events, numposted := [], 0;
      var curi, oldi := 0, 0;
      while curi != |cur| || oldi != |prev|
        invariant 0 <= curi <= |cur| && 0 <= oldi <= |prev|
        invariant Merge(cur, prev, baseDiff) == events + Merge(cur[curi..], prev[oldi..], baseDiff)
        invariant numposted == |events|
        decreases |cur| - curi + |prev| - oldi
      {
        var postold := true;
        if oldi == |prev| {
          postold := false;
        } else if curi != |cur| && cur[curi].key.Less(prev[oldi].key.Plus(baseDiff)) {
          postold := false;
        }
        MergeStep(cur, prev, curi, oldi, baseDiff);
        Handed(events, if postold then prev[oldi].event else cur[curi].event,
          if postold then Merge(cur[curi..], prev[oldi + 1..], baseDiff)
          else Merge(cur[curi + 1..], prev[oldi..], baseDiff));
        if postold {
          events := events + [prev[oldi].event];
          oldi := oldi + 1;
        } else {
          events := events + [cur[curi].event];
          curi := curi + 1;
        }
        numposted := numposted + 1;
      }
    }

    static lemma Handed(events: seq<E>, e: E, rest: seq<E>)
      ensures events + [e] + rest == events + ([e] + rest)
    {
    }

    static lemma MergeStep(cur: seq<Entry<E>>, prev: seq<Entry<E>>, curi: nat, oldi: nat, diff: Interval)
      requires curi <= |cur| && oldi <= |prev| && (curi < |cur| || oldi < |prev|)
      ensures var postold := oldi < |prev| && (curi == |cur| || !cur[curi].key.Less(prev[oldi].key.Plus(diff)));
              && (postold || curi < |cur|)
              && Merge(cur[curi..], prev[oldi..], diff) ==
                 if postold then [prev[oldi].event] + Merge(cur[curi..], prev[oldi + 1..], diff)
                 else [cur[curi].event] + Merge(cur[curi + 1..], prev[oldi..], diff)
    {
      if oldi < |prev| {
        assert prev[oldi..][1..] == prev[oldi + 1..];
      }
      if curi < |cur| {
        assert cur[curi..][1..] == cur[curi + 1..];
      }
    }

    /** Hands over everything that is due, and starts a new generation when the current one is a week old. */
    method PostExpired(now: Absolute) returns (numposted: Option<nat>, events: seq<E>)
      requires Valid()
      modifies this
      ensures Valid() && (numposted.Some? <==> old(Abs()).Accepts(now))
      ensures numposted.None? ==> events == [] && Abs() == old(Abs())
      ensures numposted.Some? ==> numposted.value == |events| && events == old(Abs()).Delivered(now)
      ensures numposted.Some? ==> Abs() == old(Abs()).Expired(now)
    {
      if now.Before(At(currentBase)) {
        return None, [];
      }
      ExpiredKeepsValid(Abs(), now);
      var cur, prev := TheHeap(), TheOldHeap();
      var curend := UpperBound(cur, now.Since(At(currentBase)));
      var oldend := if |prev| <= 0 then 0 else UpperBound(prev, now.Since(At(oldBase)));
      var n;
      events, n := HandOver(cur[..curend], prev[..oldend]);
      numposted := Some(n);
      SetHeaps(cur[curend..], prev[oldend..]);
      if now.time != currentBase && now.Since(At(currentBase)).seconds >= WEEK {
        Rebase(now.time);
      }
    }

    method Rebase(time: int)
      requires Valid()
      modifies this
      ensures Abs() == old(Abs()).Rebased(time)
    {
      var heap, oldheap := TheHeap(), TheOldHeap();
      var i := 0;
      while i != |oldheap|
        invariant 0 <= i <= |oldheap|
        invariant InsertAll(heap, oldheap[i..], baseDiff) == InsertAll(TheHeap(), oldheap, baseDiff)
      {
        assert oldheap[i..][1..] == oldheap[i + 1..];
        heap := Insert(heap, Entry(oldheap[i].key.Plus(baseDiff), oldheap[i].event));
        i := i + 1;
      }
      SetHeaps(heap, []);
      oldBase := currentBase;
      currentBase := time;
      baseDiff := At(currentBase).Since(At(oldBase));
      map1Current := !map1Current;
    }

    function NextExpirationIn(now: Absolute, maxtime: Interval): Option<Interval>
      reads this
    {
      Abs().NextExpirationIn(now, maxtime)
    }
  }
}
