/** When a tracker is exact, when it is late, and how long one may sleep before asking it again. */
module TimerDeadlines {
  import opened Basics
  import opened Timers
  import opened TimerTracking
  import opened TimerRuns

  /** The form in which a system clock gives the time: seconds are in the system time. */
  predicate Steady(now: Absolute) {
    now.past.seconds == 0 && now.past.nanoseconds < NANOS
  }

  ghost predicate AllSteady(ops: seq<Operation>) {
    forall i | 0 <= i < |ops| && ops[i].Expire? :: Steady(ops[i].now)
  }

  /** How long an event waits in the heap whose base is `base`, if it has not been merged. */
  function Wait(ev: Posted, base: int): nat {
    if ev.due > base * NANOS then ev.due - base * NANOS else 0
  }

  /** Due more than two weeks after the base under which it was posted. */
  predicate FarAway(ev: Posted) {
    ev.due > (ev.base + 2 * WEEK) * NANOS
  }

  ghost predicate Exact(e: Entry<Posted>, base: int) {
    e.event.base == base && e.key.Total() == Wait(e.event, base)
  }

  /** Merged at some rebase: it will fire later than it is due, and it was due far away. */
  ghost predicate Stale(e: Entry<Posted>, base: int) {
    e.event.base < base && FarAway(e.event) && e.key.Total() > Wait(e.event, base)
  }

  ghost predicate NewGeneration(h: seq<Entry<Posted>>, base: int) {
    forall i | 0 <= i < |h| :: Exact(h[i], base)
  }

  ghost predicate OldGeneration(h: seq<Entry<Posted>>, base: int) {
    forall i | 0 <= i < |h| :: Exact(h[i], base) || Stale(h[i], base)
  }

  /** The invariant of every run with a steady clock. */
  ghost predicate Generations(t: Tracker<Posted>) {
    && t.Ordered()
    && NewGeneration(t.current, t.currentBase) && OldGeneration(t.prev, t.oldBase)
    && (t.oldBase == t.currentBase ==> t.prev == [])
    && (t.oldBase != t.currentBase ==> t.currentBase >= t.oldBase + WEEK)
  }

  lemma RebaseTakesAWeek<E>(t: Tracker<E>, now: Absolute)
    requires Steady(now) && t.Accepts(now) && t.RebaseDue(now)
    ensures now.time >= t.currentBase + WEEK
  {
    AcceptsWhen(t, now);
    assert At(t.currentBase).Instant() == t.currentBase * NANOS;
    SinceIsDistance(now, At(t.currentBase));
    assert now.Instant() < (now.time + 1) * NANOS;
    assert now.Since(At(t.currentBase)).Total() >= WEEK * NANOS;
  }

  lemma {:induction false} InsertAllStale(h: seq<Entry<Posted>>, from: seq<Entry<Posted>>, diff: Interval, base: int)
    requires OldGeneration(h, base)
    requires forall i | 0 <= i < |from| :: Stale(Entry(from[i].key.Plus(diff), from[i].event), base)
    ensures OldGeneration(InsertAll(h, from, diff), base)
    decreases |from|
  {
    if from != [] {
      var e := Entry(from[0].key.Plus(diff), from[0].event);
      assert OldGeneration([e], base);
      InsertAllStale(Insert(h, e), from[1..], diff, base);
    }
  }

  /** Whoever survives the rebase after the next one is due far away, and from then on will be late. */
  lemma SurvivorsAreStale(t: Tracker<Posted>, now: Absolute)
    requires Generations(t) && Steady(now) && t.Accepts(now) && t.RebaseDue(now)
    ensures var e := t.Erased(now);
            forall i | 0 <= i < |e.prev| :: Stale(Entry(e.prev[i].key.Plus(t.baseDiff), e.prev[i].event), t.currentBase)
  {
    RebaseTakesAWeek(t, now);
    AcceptsWhen(t, now);
    DeliveredIsExpired(t, now);
    var n, left := t.OldEnd(now), t.Erased(now).prev;
    forall i | 0 <= i < |left|
      ensures Stale(Entry(left[i].key.Plus(t.baseDiff), left[i].event), t.currentBase)
    {
      assert left[i] == t.prev[n + i];
      PlusAdds(left[i].key, t.baseDiff);
    }
  }

  lemma ExpiredKeepsGenerations(t: Tracker<Posted>, now: Absolute)
    requires Generations(t) && Steady(now) && t.Accepts(now)
    ensures Generations(t.Expired(now))
  {
    ExpiredKeepsValid(t, now);
    var e := t.Erased(now);
    if t.RebaseDue(now) {
      RebaseTakesAWeek(t, now);
      SurvivorsAreStale(t, now);
      InsertAllStale(e.current, e.prev, e.baseDiff, e.currentBase);
      SinceIsDistance(At(now.time), At(t.currentBase));
      assert At(now.time).Instant() == now.time * NANOS && At(t.currentBase).Instant() == t.currentBase * NANOS;
    }
  }

  lemma PostAtKeepsGenerations(t: Tracker<Posted>, at: Absolute, id: int)
    requires Generations(t)
    ensures Generations(t.PostAt(at, Posted(id, at.Instant(), t.currentBase)))
  {
    KeyIsWait(t, at);
    PostAtKeepsValid(t, at, Posted(id, at.Instant(), t.currentBase));
  }

  lemma {:induction false} RunKeepsGenerations(start: int, ops: seq<Operation>)
    requires AllSteady(ops)
    ensures Generations(Run(start, ops).tracker)
    decreases |ops|
  {
    if ops != [] {
      var before, op := Run(start, ops[..|ops| - 1]).tracker, ops[|ops| - 1];
      RunKeepsGenerations(start, ops[..|ops| - 1]);
      match op
      case Post(at, id) =>
        PostAtKeepsGenerations(before, at, id);
      case Expire(now) =>
        if before.Accepts(now) {
          ExpiredKeepsGenerations(before, now);
        }
    }
  }

  // What one call delivers.

  lemma CountSplit(h: seq<Entry<Posted>>, n: nat, x: Posted, due: bool)
    requires n <= |h| && forall i | 0 <= i < |h| && h[i].event == x :: i < n <==> due
    ensures Bag(h[..n])[x] == if due then Bag(h)[x] else 0
  {
    BagSplit(h, n);
    if due {
      assert x !in EventsIn(h[n..]);
    } else {
      assert x !in EventsIn(h[..n]);
    }
  }

  lemma HeapsSplitOnDue(t: Tracker<Posted>, now: Absolute, x: Posted)
    requires Generations(t) && now.Instant() >= t.currentBase * NANOS && x.base >= t.oldBase
    ensures forall i | 0 <= i < |t.current| && t.current[i].event == x ::
      i < t.CurrentEnd(now) <==> x.due <= now.Instant()
    ensures forall i | 0 <= i < |t.prev| && t.prev[i].event == x :: i < t.OldEnd(now) <==> x.due <= now.Instant()
  {
    DeliveredIsExpired(t, now);
    forall i | 0 <= i < |t.current| && t.current[i].event == x
      ensures i < t.CurrentEnd(now) <==> x.due <= now.Instant()
    {
      assert Exact(t.current[i], t.currentBase);
    }
    forall i | 0 <= i < |t.prev| && t.prev[i].event == x
      ensures i < t.OldEnd(now) <==> x.due <= now.Instant()
    {
      assert Exact(t.prev[i], t.oldBase);
    }
  }

  /** At any time of a run with a steady clock, an event that was posted under one of the two bases in force
      is handed over, every copy of it, if it is due, and otherwise not. */
  lemma DeliveredExactlyWhenDue(start: int, ops: seq<Operation>, now: Absolute, x: Posted)
    requires AllSteady(ops) && Run(start, ops).tracker.Accepts(now)
    requires x.base >= Run(start, ops).tracker.oldBase
    ensures var t := Run(start, ops).tracker;
            multiset(t.Delivered(now))[x] == if x.due <= now.Instant() then Stored(t)[x] else 0
  {
    RunKeepsGenerations(start, ops);
    var t, due := Run(start, ops).tracker, x.due <= now.Instant();
    AcceptsWhen(t, now);
    HeapsSplitOnDue(t, now, x);
    CountSplit(t.current, t.CurrentEnd(now), x, due);
    CountSplit(t.prev, t.OldEnd(now), x, due);
    MergeConserves(t.current[..t.CurrentEnd(now)], t.prev[..t.OldEnd(now)], t.baseDiff);
  }

  /** An entry of the old heap fires on time exactly if its event was posted under the base of that heap. If
      it has come through a merge it fires too late. */
  lemma FiresOnTimeExactly(start: int, ops: seq<Operation>, e: Entry<Posted>)
    requires AllSteady(ops) && e in Run(start, ops).tracker.prev
    ensures var base := Run(start, ops).tracker.oldBase;
            && (e.key.Total() == Wait(e.event, base) <==> e.event.base == base)
            && (e.event.base != base ==> base * NANOS + e.key.Total() > e.event.due && FarAway(e.event))
  {
    RunKeepsGenerations(start, ops);
    var t := Run(start, ops).tracker;
    var i :| 0 <= i < |t.prev| && t.prev[i] == e;
    assert Exact(t.prev[i], t.oldBase) || Stale(t.prev[i], t.oldBase);
  }

  lemma ErasedLeavesNothingDue(t: Tracker<Posted>, now: Absolute, x: Posted)
    requires Generations(t) && t.Accepts(now) && x in Stored(t.Erased(now))
    ensures x.due > now.Instant() || FarAway(x)
  {
    AcceptsWhen(t, now);
    DeliveredIsExpired(t, now);
    var cur, prev := t.Erased(now).current, t.Erased(now).prev;
    if x in Bag(cur) {
      var i :| 0 <= i < |EventsIn(cur)| && EventsIn(cur)[i] == x;
      assert cur[i] == t.current[t.CurrentEnd(now) + i];
    } else {
      assert x in Bag(prev);
      var i :| 0 <= i < |EventsIn(prev)| && EventsIn(prev)[i] == x;
      assert prev[i] == t.prev[t.OldEnd(now) + i];
    }
  }

  /** The deadline: after an accepted call no event is left over that is due, unless it was due more than two
      weeks after the base under which it was posted. So any other event leaves with the first such call. */
  lemma NothingDueIsLeft(start: int, ops: seq<Operation>, now: Absolute, x: Posted)
    requires AllSteady(ops) && Steady(now) && Run(start, ops).tracker.Accepts(now)
    requires x in Stored(Run(start, ops + [Expire(now)]).tracker)
    ensures x.due > now.Instant() || FarAway(x)
  {
    var t := Run(start, ops).tracker;
    RunKeepsGenerations(start, ops);
    OneMore(start, ops, Expire(now));
    ExpiredConserves(t, now);
    ErasedLeavesNothingDue(t, now, x);
  }

  // How long to sleep.

  lemma EarliestIsFirst<E>(t: Tracker<E>)
    requires t.Valid() && (t.current != [] || t.prev != [])
    ensures var e := t.Earliest().Instant();
            && (forall i | 0 <= i < |t.current| :: e <= t.currentBase * NANOS + t.current[i].key.Total())
            && (forall i | 0 <= i < |t.prev| :: e <= t.oldBase * NANOS + t.prev[i].key.Total())
            && ((t.current != [] && e == t.currentBase * NANOS + t.current[0].key.Total())
                || (t.prev != [] && e == t.oldBase * NANOS + t.prev[0].key.Total()))
  {
    if t.current != [] && t.prev != [] {
      BeforeIsEarlier(Absolute(t.oldBase, t.prev[0].key), Absolute(t.currentBase, t.current[0].key));
    }
  }

  /** A call delivers something exactly if the earliest entry has fired by then. */
  lemma DeliversFromEarliest<E>(t: Tracker<E>, at: Absolute)
    requires t.Ordered() && t.Accepts(at)
    ensures t.Delivered(at) != [] <==> (t.current != [] || t.prev != []) && t.Earliest().Instant() <= at.Instant()
  {
    AcceptsWhen(t, at);
    DeliveredIsExpired(t, at);
    var cur, prev := t.current[..t.CurrentEnd(at)], t.prev[..t.OldEnd(at)];
    if t.current != [] || t.prev != [] {
      EarliestIsFirst(t);
      if t.Earliest().Instant() <= at.Instant() {
        assert cur != [] || prev != [];
      } else {
        assert cur == [] && prev == [];
      }
    }
  }

  /** The sleep that nextExpirationIn proposes is no longer than allowed; whatever accepted instant before its
      end one asks at, nothing is delivered; and if it is shorter than allowed, then at its end something is. */
  lemma SleepIsExact<E>(t: Tracker<E>, now: Absolute, maxtime: Interval)
    requires t.Ordered() && t.Accepts(now)
    ensures t.NextExpirationIn(now, maxtime).Some?
    ensures var r := t.NextExpirationIn(now, maxtime).value;
            && r.Total() <= maxtime.Total()
            && (forall at: Absolute
                | t.Accepts(at) && now.Instant() <= at.Instant() < now.Instant() + r.Total() ::
                t.Delivered(at) == [])
            && (r.Total() < maxtime.Total() ==> t.Accepts(now.Later(r)) && t.Delivered(now.Later(r)) != [])
  {
    var r := t.NextExpirationIn(now, maxtime).value;
    SleepIsUntilEarliest(t, now, maxtime);
    forall at: Absolute | t.Accepts(at) && at.Instant() < now.Instant() + r.Total() && at.Instant() >= now.Instant()
      ensures t.Delivered(at) == []
    {
      DeliversFromEarliest(t, at);
    }
    if r.Total() < maxtime.Total() {
      LaterAdds(now, r);
      AcceptsWhen(t, now);
      AcceptsWhen(t, now.Later(r));
      DeliversFromEarliest(t, now.Later(r));
    }
  }

  lemma SleepIsUntilEarliest<E>(t: Tracker<E>, now: Absolute, maxtime: Interval)
    requires t.Accepts(now)
    ensures t.NextExpirationIn(now, maxtime).Some?
    ensures var r := t.NextExpirationIn(now, maxtime).value;
            if t.current == [] && t.prev == [] then r == maxtime
            else var left := t.Earliest().Instant() - now.Instant();
              r.Total() == if left <= 0 then 0 else Min(left, maxtime.Total())
  {
    if t.current != [] || t.prev != [] {
      var earliest := t.Earliest();
      BeforeIsEarlier(now, earliest);
      SinceIsDistance(earliest, now);
      LessIsShorter(maxtime, earliest.Since(now));
    }
  }
}
