/** Where the promises of a tracker end: exactly which events can be late, early or out of order. */
module TimerLimits {
  import opened Basics
  import opened Timers
  import opened TimerTracking
  import opened TimerRuns
  import opened TimerDeadlines

  // How an entry fares that is not handed over.

  lemma InsertContains<E>(h: seq<Entry<E>>, e: Entry<E>)
    ensures e in Insert(h, e) && forall f | f in h :: f in Insert(h, e)
  {
    var n, r := UpperBound(h, e.key), Insert(h, e);
    assert r[n] == e;
    forall f | f in h
      ensures f in r
    {
      var i :| 0 <= i < |h| && h[i] == f;
      assert r[if i < n then i else i + 1] == f;
    }
  }

  lemma {:induction false} InsertAllContains<E>(h: seq<Entry<E>>, from: seq<Entry<E>>, diff: Interval)
    ensures forall f | f in h :: f in InsertAll(h, from, diff)
    ensures forall f | f in from :: Entry(f.key.Plus(diff), f.event) in InsertAll(h, from, diff)
    decreases |from|
  {
    if from != [] {
      var e := Entry(from[0].key.Plus(diff), from[0].event);
      InsertContains(h, e);
      InsertAllContains(Insert(h, e), from[1..], diff);
      assert forall f | f in from :: f == from[0] || f in from[1..];
    }
  }

  /** An entry of the current heap that is not due stays, and at a rebase goes over into the old heap. */
  lemma CurrentStays<E>(t: Tracker<E>, now: Absolute, e: Entry<E>)
    requires t.Valid() && e in t.current && now.Since(At(t.currentBase)).Total() < e.key.Total()
    ensures if t.RebaseDue(now) then e in t.Expired(now).prev else e in t.Expired(now).current
  {
    SinceIsDistance(now, At(t.currentBase));
    UpperBoundSplits(t.current, now.Since(At(t.currentBase)));
    var i :| 0 <= i < |t.current| && t.current[i] == e;
    var left := t.Erased(now);
    assert left.current[i - t.CurrentEnd(now)] == e;
    InsertAllContains(left.current, left.prev, t.baseDiff);
  }

  /** An entry of the old heap that is not due stays, and at a rebase it is moved by the distance of the bases. */
  lemma OldStays<E>(t: Tracker<E>, now: Absolute, e: Entry<E>)
    requires t.Valid() && e in t.prev && now.Since(At(t.oldBase)).Total() < e.key.Total()
    ensures (if t.RebaseDue(now) then Entry(e.key.Plus(t.baseDiff), e.event) else e) in t.Expired(now).prev
  {
    SinceIsDistance(now, At(t.oldBase));
    UpperBoundSplits(t.prev, now.Since(At(t.oldBase)));
    var i :| 0 <= i < |t.prev| && t.prev[i] == e;
    var left := t.Erased(now);
    assert left.prev[i - t.OldEnd(now)] == e;
    InsertAllContains(left.current, left.prev, t.baseDiff);
  }

  /** A call that names a whole number of seconds, a week or more after the base, rebases. */
  lemma RebasesAfterAWeek<E>(t: Tracker<E>, time: int)
    requires time >= t.currentBase + WEEK
    ensures t.Accepts(At(time)) && t.RebaseDue(At(time))
  {
    AcceptsWhen(t, At(time));
    SecondsSince(time, t.currentBase);
  }

  lemma MovesAfterAWeek(base: int, time: int)
    requires time >= base + WEEK
    ensures Moves(base, At(time))
  {
    BeforeIsEarlier(At(time), At(base));
    SecondsSince(time, base);
    assert At(time).Instant() == time * NANOS && At(base).Instant() == base * NANOS;
  }

  lemma SecondsSince(time: int, base: int)
    requires time >= base
    ensures At(time).Since(At(base)) == Interval(time - base, 0)
  {
    SinceIsDistance(At(time), At(base));
    assert At(time).Instant() == time * NANOS && At(base).Instant() == base * NANOS;
    NormalIsUnique(At(time).Since(At(base)), Interval(time - base, 0));
  }

  // Late.

  /** After such a run, a call that is accepted leaves the event behind although it is due. */
  ghost predicate LeftBehind(x: Posted, start: int, ops: seq<Operation>, now: Absolute) {
    && AllSteady(ops) && Steady(now) && Run(start, ops).tracker.Accepts(now)
    && x.due <= now.Instant() && x in Stored(Run(start, ops + [Expire(now)]).tracker)
  }

  /** In no run with a steady clock does an accepted call leave the event behind when it is due. */
  ghost predicate NeverLate(x: Posted) {
    forall start: int, ops: seq<Operation>, now: Absolute :: !LeftBehind(x, start, ops, now)
  }

  /** Exactly the events that are due at most two weeks after the base under which they are posted are handed
      over on time in every run. */
  lemma OnTimeExactly(x: Posted)
    ensures NeverLate(x) <==> x.due <= (x.base + 1_209_600) * 1_000_000_000
  {
    if x.due <= (x.base + 2 * WEEK) * NANOS {
      forall start: int, ops: seq<Operation>, now: Absolute
        ensures !LeftBehind(x, start, ops, now)
      {
        if LeftBehind(x, start, ops, now) {
          NothingDueIsLeft(start, ops, now, x);
        }
      }
    } else {
      var ops, now := FarAwayIsLeftBehind(x);
    }
  }

  lemma FarAwayIsLeftBehind(x: Posted) returns (ops: seq<Operation>, now: Absolute)
    requires FarAway(x)
    ensures LeftBehind(x, x.base, ops, now)
  {
    now := Absolute(x.due / NANOS, Interval(0, x.due % NANOS));
    ops := AskedTwice(x.base, now, x.id);
    LateAfterTwoRebases(x.base, now, x.id, now);
  }

  /** An event is posted, and the tracker is asked one week and two weeks after the base. */
  function AskedTwice(start: int, at: Absolute, id: int): (ops: seq<Operation>)
    ensures AllSteady(ops)
  {
    [Post(at, id), Expire(At(start + WEEK)), Expire(At(start + 2 * WEEK))]
  }

  /** Then, if the event is due more than two weeks after the base, any call in the two weeks after it is due
      leaves it behind. */
  lemma LateAfterTwoRebases(start: int, at: Absolute, id: int, late: Absolute)
    requires at.Instant() > (start + 2 * WEEK) * NANOS
    requires at.Instant() <= late.Instant() < at.Instant() + 2 * WEEK * NANOS
    ensures Run(start, AskedTwice(start, at, id)).tracker.Accepts(late)
    ensures var h := Run(start, AskedTwice(start, at, id) + [Expire(late)]);
            h.delivered == [] && Posted(id, at.Instant(), start) in Stored(h.tracker)
  {
    var ops := AskedTwice(start, at, id);
    AcceptedAfterTwoWeeks(start, ops, late);
    StoredAfterTwoRebases(start, at, id, late, [ops[0]], ops + [Expire(late)]);
    NothingElse(start, ops[0], [ops[1], ops[2], Expire(late)], ops + [Expire(late)]);
  }

  lemma AcceptedAfterTwoWeeks(start: int, ops: seq<Operation>, late: Absolute)
    requires |ops| == 3 && ops[0].Post? && ops[1] == Expire(At(start + WEEK)) && ops[2] == Expire(At(start + 2 * WEEK))
    requires late.Instant() > (start + 2 * WEEK) * NANOS
    ensures Run(start, ops).tracker.Accepts(late)
  {
    BaseOfMore(start, [], ops[0]);
    BaseOfMore(start, ops[..1], ops[1]);
    BaseOfMore(start, ops[..2], ops[2]);
    assert ops[..1] == [] + [ops[0]] && ops[..2] == ops[..1] + [ops[1]] && ops == ops[..2] + [ops[2]];
    MovesAfterAWeek(start, start + WEEK);
    MovesAfterAWeek(start + WEEK, start + 2 * WEEK);
    BaseOfRun(start, ops);
    AcceptsWhen(Run(start, ops).tracker, late);
  }

  lemma StoredAfterTwoRebases(
    start: int, at: Absolute, id: int, late: Absolute, first: seq<Operation>, all: seq<Operation>)
    requires first == [Post(at, id)]
    requires all == first + [Expire(At(start + WEEK)), Expire(At(start + 2 * WEEK)), Expire(late)]
    requires at.Instant() > (start + 2 * WEEK) * NANOS
    requires at.Instant() <= late.Instant() < at.Instant() + 2 * WEEK * NANOS
    ensures Posted(id, at.Instant(), start) in Stored(Run(start, all).tracker)
  {
    var e := PostedAhead(start, at, id, first);
    var t1, t2 := ThreeMore(start, first, Expire(At(start + WEEK)), Expire(At(start + 2 * WEEK)), Expire(late), all);
    AskedTwiceLeaves(Run(start, first).tracker, t1, t2, e, late);
  }

  lemma AskedTwiceLeaves(
    t: Tracker<Posted>, t1: Tracker<Posted>, t2: Tracker<Posted>, e: Entry<Posted>, late: Absolute)
    requires t.Valid() && e in t.current && e.key.Total() > 2 * WEEK * NANOS
    requires var fires := t.currentBase * NANOS + e.key.Total(); fires <= late.Instant() < fires + 2 * WEEK * NANOS
    requires t1 == NextTracker(t, Expire(At(t.currentBase + WEEK)))
    requires t2 == NextTracker(t1, Expire(At(t.currentBase + 2 * WEEK)))
    ensures e.event in Stored(NextTracker(t2, Expire(late)))
  {
    FirstRebase(t, e);
    var moved := SecondRebase(t1, e);
    NotYet(t2, moved, late);
  }

  lemma PostedAhead(start: int, at: Absolute, id: int, first: seq<Operation>) returns (e: Entry<Posted>)
    requires at.Instant() > start * NANOS && first == [Post(at, id)]
    ensures var t := Run(start, first).tracker; t.Valid() && t.currentBase == start && e in t.current
    ensures e.event == Posted(id, at.Instant(), start) && e.key.Total() == at.Instant() - start * NANOS
  {
    FirstPost(start, at, id);
    var empty: Tracker<Posted> := Tracker(start, start, Interval(0, 0), [], []);
    KeyIsWait(empty, at);
    e := Entry(empty.Key(at), Posted(id, at.Instant(), start));
  }

  lemma NotYet(t: Tracker<Posted>, e: Entry<Posted>, now: Absolute)
    requires t.Valid() && e in t.prev && t.oldBase <= t.currentBase
    requires t.currentBase * NANOS < now.Instant() < t.oldBase * NANOS + e.key.Total()
    ensures t.Accepts(now) && e.event in Stored(t.Expired(now))
  {
    assert At(t.oldBase).Instant() == t.oldBase * NANOS;
    AcceptsWhen(t, now);
    SinceIsDistance(now, At(t.oldBase));
    OldStays(t, now, e);
    StoredIn(t.Expired(now));
  }

  lemma FirstRebase(t: Tracker<Posted>, e: Entry<Posted>)
    requires t.Valid() && e in t.current && e.key.Total() > 2 * WEEK * NANOS
    ensures var now := At(t.currentBase + WEEK);
            var t1 := t.Expired(now);
            && t.Accepts(now) && t1.Valid() && e in t1.prev
            && t1.oldBase == t.currentBase && t1.currentBase == t.currentBase + WEEK && t1.baseDiff == Interval(WEEK, 0)
  {
    var now := At(t.currentBase + WEEK);
    RebasesAfterAWeek(t, now.time);
    SecondsSince(now.time, t.currentBase);
    ExpiredKeepsValid(t, now);
    CurrentStays(t, now, e);
  }

  lemma SecondRebase(t: Tracker<Posted>, e: Entry<Posted>) returns (moved: Entry<Posted>)
    requires t.Valid() && e in t.prev && e.key.Total() > 2 * WEEK * NANOS
    requires t.currentBase == t.oldBase + WEEK && t.baseDiff == Interval(WEEK, 0)
    ensures var now := At(t.currentBase + WEEK);
            var t2 := t.Expired(now);
            && t.Accepts(now) && t2.Valid() && t2.oldBase == t.currentBase && t2.currentBase == t.currentBase + WEEK
            && moved in t2.prev
    ensures moved.event == e.event && moved.key.Total() == e.key.Total() + WEEK * NANOS
  {
    var now := At(t.currentBase + WEEK);
    RebasesAfterAWeek(t, now.time);
    SecondsSince(now.time, t.oldBase);
    ExpiredKeepsValid(t, now);
    OldStays(t, now, e);
    PlusAdds(e.key, t.baseDiff);
    moved := Entry(e.key.Plus(t.baseDiff), e.event);
  }

  lemma StoredIn<E>(t: Tracker<E>)
    ensures forall e | e in t.prev || e in t.current :: e.event in Stored(t)
  {
    forall e | e in t.prev || e in t.current
      ensures e.event in Stored(t)
    {
      if e in t.prev {
        var i :| 0 <= i < |t.prev| && t.prev[i] == e;
        assert EventsIn(t.prev)[i] == e.event;
      } else {
        var i :| 0 <= i < |t.current| && t.current[i] == e;
        assert EventsIn(t.current)[i] == e.event;
      }
    }
  }

  /** An event that is the only one posted and is still stored has not been delivered, and nothing else has. */
  lemma NothingElse(start: int, post: Operation, calls: seq<Operation>, all: seq<Operation>)
    requires post.Post? && (forall i | 0 <= i < |calls| :: calls[i].Expire?) && all == [post] + calls
    requires Posted(post.id, post.at.Instant(), start) in Stored(Run(start, all).tracker)
    ensures Run(start, all).delivered == []
  {
    FirstPost(start, post.at, post.id);
    PostedByFirst(start, post, calls);
    RunConserves(start, all);
    var h, x := Run(start, all), Posted(post.id, post.at.Instant(), start);
    assert |multiset{x}| == |multiset(EventsOf(h.delivered))| + |Stored(h.tracker)|;
  }

  lemma {:induction false} PostedByFirst(start: int, post: Operation, calls: seq<Operation>)
    requires forall i | 0 <= i < |calls| :: calls[i].Expire?
    ensures Run(start, [post] + calls).posted == Run(start, [post]).posted
    decreases |calls|
  {
    if calls == [] {
      assert [post] + calls == [post];
    } else {
      var front, last := calls[..|calls| - 1], calls[|calls| - 1];
      PostedByFirst(start, post, front);
      NextStep(start, [post] + front, last, [post] + calls);
    }
  }

  // Early.

  /** The calls that follow keep the order that the interface asks for. */
  ghost predicate Increasing(from: int, more: seq<Operation>)
    decreases |more|
  {
    more == [] ||
    if more[0].Expire? then from <= more[0].now.Instant() && Increasing(more[0].now.Instant(), more[1..])
    else Increasing(from, more[1..])
  }

  /** An event posted just before the call at `now`, and legal calls after it that move no base back, lead to an
      event that is delivered before it is due. */
  ghost predicate MakesEarly(
    start: int, ops: seq<Operation>, now: Absolute, at: Absolute, id: int, more: seq<Operation>)
  {
    var all := ops + [Post(at, id), Expire(now)] + more;
    Increasing(now.Instant(), more) && ForwardFrom(start, all, |ops| + 2) && !NoneEarly(Run(start, all))
  }

  /** After a run that moves no base back, a further call is harmless, whatever is posted and called around it, if
      and only if it moves no base back either. */
  lemma NeverEarlyExactly(start: int, ops: seq<Operation>, now: Absolute)
    requires Forward(start, ops)
    ensures (forall at: Absolute, id: int, more: seq<Operation> :: !MakesEarly(start, ops, now, at, id, more))
            <==> (Moves(BaseOf(start, ops), now) ==> now.time >= BaseOf(start, ops))
  {
    if Moves(BaseOf(start, ops), now) && now.time < BaseOf(start, ops) {
      var at, more := SteppingBackMakesEarly(start, ops, now, 0);
    } else {
      forall at: Absolute, id: int, more: seq<Operation>
        ensures !MakesEarly(start, ops, now, at, id, more)
      {
        SteppingOnIsHarmless(start, ops, now, at, id, more);
      }
    }
  }

  lemma SteppingOnIsHarmless(
    start: int, ops: seq<Operation>, now: Absolute, at: Absolute, id: int, more: seq<Operation>)
    requires Forward(start, ops) && (Moves(BaseOf(start, ops), now) ==> now.time >= BaseOf(start, ops))
    ensures !MakesEarly(start, ops, now, at, id, more)
  {
    var all, n := ops + [Post(at, id), Expire(now)] + more, |ops|;
    if ForwardFrom(start, all, n + 2) {
      forall k | 0 <= k < |all|
        ensures GoesForward(start, all, k)
      {
        if k < n {
          assert all[..k] == ops[..k] && GoesForward(start, ops, k);
        } else if k == n + 1 {
          assert all[..k] == ops + [Post(at, id)];
          BaseOfMore(start, ops, Post(at, id));
        }
      }
      NeverEarly(start, all);
    }
  }

  lemma DeliversOld<E>(t: Tracker<E>, now: Absolute, e: Entry<E>)
    requires t.Valid() && e in t.prev && e.key.Total() <= now.Since(At(t.oldBase)).Total()
    ensures e.event in t.Delivered(now)
  {
    SinceIsDistance(now, At(t.oldBase));
    UpperBoundSplits(t.prev, now.Since(At(t.oldBase)));
    var i :| 0 <= i < |t.prev| && t.prev[i] == e;
    var cur, prev := t.current[..t.CurrentEnd(now)], t.prev[..t.OldEnd(now)];
    assert EventsIn(prev)[i] == e.event;
    MergeConserves(cur, prev, t.baseDiff);
    assert e.event in multiset(Merge(cur, prev, t.baseDiff));
  }

  lemma SteppingBackMakesEarly(start: int, ops: seq<Operation>, now: Absolute, id: int)
    returns (at: Absolute, more: seq<Operation>)
    requires Forward(start, ops) && Moves(BaseOf(start, ops), now) && now.time < BaseOf(start, ops)
    ensures MakesEarly(start, ops, now, at, id, more)
  {
    var base := BaseOf(start, ops);
    var time := if now.Instant() / NANOS + 1 > now.time + WEEK then now.Instant() / NANOS + 1 else now.time + WEEK;
    at := At(time + 1 + base - now.time);
    more := [Expire(At(time)), Expire(At(time + 1))];
    LaterCallsGoForward(start, ops, Post(at, id), now, time);
    LaterCallsIncrease(now, time, more);
    RunKeepsValid(start, ops);
    BaseOfRun(start, ops);
    var post, before := Post(at, id), ops + [Post(at, id), Expire(now), more[0]];
    EarlyAtTheEnd(start, ops, Run(start, ops).tracker, now, time, post, more[1], before);
    assert ops + [post, Expire(now)] + more == before + [more[1]];
  }

  lemma LaterCallsIncrease(now: Absolute, time: int, more: seq<Operation>)
    requires time * NANOS >= now.Instant() && more == [Expire(At(time)), Expire(At(time + 1))]
    ensures Increasing(now.Instant(), more)
  {
    assert At(time).Instant() == time * NANOS && At(time + 1).Instant() == (time + 1) * NANOS;
    assert more[1..] == [more[1]] && more[1..][1..] == [];
  }

  lemma EarlyAtTheEnd(start: int, ops: seq<Operation>, t: Tracker<Posted>, now: Absolute, time: int,
                      post: Operation, last: Operation, before: seq<Operation>)
    requires t == Run(start, ops).tracker && before == ops + [post, Expire(now), Expire(At(time))]
    requires t.Valid() && Moves(t.currentBase, now) && now.time < t.currentBase
    requires time >= now.time + WEEK && time * NANOS >= now.Instant()
    requires post.Post? && post.at == At(time + 1 + t.currentBase - now.time) && last == Expire(At(time + 1))
    ensures !NoneEarly(Run(start, before + [last]))
  {
    var t1, t2 := ThreeMore(start, ops, post, Expire(now), Expire(At(time)), before);
    var e := PostedAndBack(t, t1, t2, now, time, post);
    OneMore(start, before, last);
    LeavesEarly(Run(start, before), e, time + 1);
  }

  lemma LaterCallsGoForward(start: int, ops: seq<Operation>, a: Operation, now: Absolute, time: int)
    requires a.Post? && Moves(BaseOf(start, ops), now) && time >= now.time + WEEK
    ensures ForwardFrom(start, ops + [a, Expire(now)] + [Expire(At(time)), Expire(At(time + 1))], |ops| + 2)
  {
    var b, c, d, n := Expire(now), Expire(At(time)), Expire(At(time + 1)), |ops|;
    var all := ops + [a, b] + [c, d];
    BaseOfMore(start, ops, a);
    BaseOfMore(start, ops + [a], b);
    BaseOfMore(start, ops + [a, b], c);
    assert ops + [a] + [b] == ops + [a, b];
    assert all[..n + 2] == ops + [a, b] && all[..n + 3] == ops + [a, b] + [c];
    assert all[n + 2] == c && all[n + 3] == d;
  }

  /** The event is posted, the base is moved back and then on: now the event is in a heap with too early a base. */
  lemma PostedAndBack(t: Tracker<Posted>, t1: Tracker<Posted>, t2: Tracker<Posted>, now: Absolute, time: int,
                      post: Operation) returns (e: Entry<Posted>)
    requires t.Valid() && Moves(t.currentBase, now) && now.time < t.currentBase
    requires time >= now.time + WEEK && time * NANOS >= now.Instant()
    requires post.Post? && post.at == At(time + 1 + t.currentBase - now.time)
    requires t1 == NextTracker(t, post) && t2 == NextTracker(t1, Expire(now))
    ensures var u := NextTracker(t2, Expire(At(time)));
            u.Valid() && e in u.prev && u.oldBase == now.time && u.currentBase == time
    ensures e.event.due == post.at.Instant() && e.key.Total() == (time + 1 - now.time) * NANOS
  {
    var first := PostsAhead(t, t1, now, time, post);
    StepsBack(t1, first, now, time);
    e := StepsOn(t2, first, time);
  }

  lemma PostsAhead(t: Tracker<Posted>, t0: Tracker<Posted>, now: Absolute, time: int, post: Operation)
    returns (e: Entry<Posted>)
    requires t.Valid() && time >= now.time && post.Post? && post.at == At(time + 1 + t.currentBase - now.time)
    requires t0 == NextTracker(t, post)
    ensures t0.Valid() && e in t0.current && t0.currentBase == t.currentBase
    ensures e.event.due == post.at.Instant() && e.key.Total() == (time + 1 - now.time) * NANOS
  {
    var x := Posted(post.id, post.at.Instant(), t.currentBase);
    e := Entry(t.Key(post.at), x);
    KeyIsWait(t, post.at);
    PostAtKeepsValid(t, post.at, x);
    InsertContains(t.current, e);
  }

  lemma StepsBack(t: Tracker<Posted>, e: Entry<Posted>, now: Absolute, time: int)
    requires t.Valid() && Moves(t.currentBase, now) && now.time < t.currentBase
    requires time * NANOS >= now.Instant()
    requires e in t.current && e.key.Total() == (time + 1 - now.time) * NANOS
    ensures t.Accepts(now)
    ensures var t1 := t.Expired(now);
            && t1.Valid() && e in t1.prev && t1.oldBase == t.currentBase && t1.currentBase == now.time
            && t1.baseDiff == Interval(0, 0)
  {
    AcceptsWhen(t, now);
    assert At(t.currentBase).Instant() == t.currentBase * NANOS && At(now.time).Instant() == now.time * NANOS;
    SinceIsDistance(now, At(t.currentBase));
    CurrentStays(t, now, e);
    ExpiredKeepsValid(t, now);
    SinceIsDistance(At(now.time), At(t.currentBase));
  }

  lemma StepsOn(t: Tracker<Posted>, e: Entry<Posted>, time: int) returns (moved: Entry<Posted>)
    requires t.Valid() && t.currentBase < t.oldBase && t.baseDiff == Interval(0, 0) && time >= t.currentBase + WEEK
    requires e in t.prev && e.key.Total() == (time + 1 - t.currentBase) * NANOS
    ensures t.Accepts(At(time))
    ensures var t2 := t.Expired(At(time));
            t2.Valid() && moved in t2.prev && t2.oldBase == t.currentBase && t2.currentBase == time
    ensures moved.key.Total() == e.key.Total() && moved.event == e.event
  {
    RebasesAfterAWeek(t, time);
    assert At(time).Instant() == time * NANOS && At(t.oldBase).Instant() == t.oldBase * NANOS;
    SinceIsDistance(At(time), At(t.oldBase));
    OldStays(t, At(time), e);
    ExpiredKeepsValid(t, At(time));
    PlusAdds(e.key, t.baseDiff);
    moved := Entry(e.key.Plus(t.baseDiff), e.event);
  }

  lemma LeavesEarly(h: History, e: Entry<Posted>, time: int)
    requires h.tracker.Valid() && e in h.tracker.prev && h.tracker.oldBase <= time && h.tracker.currentBase < time
    requires e.key.Total() == (time - h.tracker.oldBase) * NANOS && time * NANOS < e.event.due
    ensures !NoneEarly(Step(h, Expire(At(time))))
  {
    var t := h.tracker;
    AcceptsWhen(t, At(time));
    SecondsSince(time, t.oldBase);
    DeliversOld(t, At(time), e);
    var events := t.Delivered(At(time));
    var i :| 0 <= i < |events| && events[i] == e.event;
    assert Step(h, Expire(At(time))).delivered[|h.delivered| + i] == Delivery(time * NANOS, e.event);
  }

  /** An instance: the base is 1000 s, and the first call gives the time as a week and 1000 s past system time 0. */
  lemma EarlyAfterSteppingBack(id: int) returns (at: Absolute, more: seq<Operation>)
    ensures MakesEarly(1000, [], Absolute(0, Interval(WEEK + 1000, 0)), at, id, more)
  {
    var now := Absolute(0, Interval(WEEK + 1000, 0));
    BeforeIsEarlier(now, At(1000));
    SinceIsDistance(now, At(1000));
    at, more := SteppingBackMakesEarly(1000, [], now, id);
  }

  // Out of order.

  lemma NextStep(start: int, ops: seq<Operation>, op: Operation, more: seq<Operation>)
    requires more == ops + [op]
    ensures Run(start, more) == Step(Run(start, ops), op)
  {
    OneMore(start, ops, op);
  }

  /** The first event a new tracker gets. */
  lemma FirstPost(start: int, at: Absolute, id: int)
    ensures var x := Posted(id, at.Instant(), start);
            var t := Tracker(start, start, Interval(0, 0), [], []);
            Run(start, [Post(at, id)]) == History(t.(current := [Entry(t.Key(at), x)]), multiset{x}, [])
  {
    NextStep(start, [], Post(at, id), [Post(at, id)]);
    assert multiset{} + multiset{Posted(id, at.Instant(), start)} == multiset{Posted(id, at.Instant(), start)};
  }

  /** A call that comes too soon for every entry delivers none, and may still rebase. */
  lemma TooSoon(h: History, now: Absolute)
    requires h.tracker.Accepts(now) && h.tracker.CurrentEnd(now) == 0 == h.tracker.OldEnd(now)
    ensures Step(h, Expire(now)) ==
            h.(tracker := if h.tracker.RebaseDue(now) then h.tracker.Rebased(now.time) else h.tracker)
  {
    assert h.tracker.Erased(now) == h.tracker;
    assert h.tracker.Delivered(now) == [];
    assert h.delivered + Stamped([], now.Instant()) == h.delivered;
  }

  lemma RebasedOne<E>(t: Tracker<E>, time: int, e: Entry<E>)
    requires t.current + t.prev == [e]
    ensures t.Rebased(time).prev == [if t.current == [] then Entry(e.key.Plus(t.baseDiff), e.event) else e]
  {
    if t.current == [] {
      var shifted := Entry(e.key.Plus(t.baseDiff), e.event);
      assert t.prev == t.current + t.prev == [e];
      assert Insert([], shifted) == [shifted];
      assert InsertAll([], [e], t.baseDiff) == InsertAll([shifted], [e][1..], t.baseDiff);
    } else {
      assert |t.current + t.prev| == 1;
      assert t.prev == [] && t.current == t.current + t.prev;
    }
  }

  lemma DeliveredTwo<E>(t: Tracker<E>, now: Absolute)
    requires |t.current| <= 1 == |t.prev| && t.CurrentEnd(now) == |t.current| && t.OldEnd(now) == 1
    requires t.current != [] ==> t.current[0].key.Less(t.prev[0].key.Plus(t.baseDiff))
    ensures t.Delivered(now) == EventsIn(t.current + t.prev)
  {
    var cur, prev := t.current, t.prev;
    assert cur[..|cur|] == cur && prev[..1] == prev == [prev[0]];
    assert Merge([], prev, t.baseDiff) == [prev[0].event] + Merge([], [], t.baseDiff) == [prev[0].event];
    if cur != [] {
      assert cur[1..] == [];
      assert Merge(cur, prev, t.baseDiff) == [cur[0].event] + [prev[0].event];
    }
  }

  /** The expired entries of both heaps in the order in which they are handed over, those of the old heap
      under the key the comparison gives them. */
  function Ranked<E>(cur: seq<Entry<E>>, prev: seq<Entry<E>>, diff: Interval): seq<Entry<E>>
    decreases |cur| + |prev|
  {
    if cur == [] && prev == [] then []
    else if OldFirst(cur, prev, diff) then
      [Entry(prev[0].key.Plus(diff), prev[0].event)] + Ranked(cur, prev[1..], diff)
    else [cur[0]] + Ranked(cur[1..], prev, diff)
  }

  /** Events leave in the order of these keys: within one heap, that is the order in which they are due. */
  lemma {:induction false} HandedOverInOrder<E>(cur: seq<Entry<E>>, prev: seq<Entry<E>>, diff: Interval)
    requires Heap(cur) && Heap(prev)
    ensures Heap(Ranked(cur, prev, diff)) && EventsIn(Ranked(cur, prev, diff)) == Merge(cur, prev, diff)
    decreases |cur| + |prev|
  {
    if cur == [] && prev == [] {
    } else if OldFirst(cur, prev, diff) {
      HandedOverInOrder(cur, prev[1..], diff);
      RankedFrom(cur, prev[1..], diff, prev[0].key.Plus(diff));
      InFront(Entry(prev[0].key.Plus(diff), prev[0].event), Ranked(cur, prev[1..], diff));
    } else {
      HandedOverInOrder(cur[1..], prev, diff);
      RankedFrom(cur[1..], prev, diff, cur[0].key);
      InFront(cur[0], Ranked(cur[1..], prev, diff));
    }
  }

  lemma InFront<E>(e: Entry<E>, rest: seq<Entry<E>>)
    requires Heap(rest) && e.key.Normal() && forall i | 0 <= i < |rest| :: e.key.Total() <= rest[i].key.Total()
    ensures Heap([e] + rest) && EventsIn([e] + rest) == [e.event] + EventsIn(rest)
  {
    JoinHeaps([e], rest);
  }

  /** Nothing is ranked before the first entry of either heap. */
  lemma {:induction false} RankedFrom<E>(cur: seq<Entry<E>>, prev: seq<Entry<E>>, diff: Interval, key: Interval)
    requires forall i | 0 <= i < |cur| :: key.Total() <= cur[i].key.Total()
    requires forall i | 0 <= i < |prev| :: key.Total() <= prev[i].key.Total() + diff.Total()
    ensures forall i | 0 <= i < |Ranked(cur, prev, diff)| :: key.Total() <= Ranked(cur, prev, diff)[i].key.Total()
    decreases |cur| + |prev|
  {
    if cur == [] && prev == [] {
    } else if OldFirst(cur, prev, diff) {
      PlusAdds(prev[0].key, diff);
      RankedFrom(cur, prev[1..], diff, key);
    } else {
      RankedFrom(cur[1..], prev, diff, key);
    }
  }

  /** An event that is handed over, and the instant at which it fires. */
  datatype Firing<E> = Firing(at: int, event: E)

  /** The merge once more, with the instants at which the entries fire. */
  function Fired<E>(cur: seq<Entry<E>>, prev: seq<Entry<E>>, t: Tracker<E>): seq<Firing<E>>
    decreases |cur| + |prev|
  {
    if cur == [] && prev == [] then []
    else if OldFirst(cur, prev, t.baseDiff) then
      [Firing(t.oldBase * NANOS + prev[0].key.Total(), prev[0].event)] + Fired(cur, prev[1..], t)
    else [Firing(t.currentBase * NANOS + cur[0].key.Total(), cur[0].event)] + Fired(cur[1..], prev, t)
  }

  function EventsFired<E>(fs: seq<Firing<E>>): seq<E> {
    seq(|fs|, i requires 0 <= i < |fs| => fs[i].event)
  }

  ghost predicate InOrder<E>(fs: seq<Firing<E>>) {
    forall i, j | 0 <= i < j < |fs| :: fs[i].at <= fs[j].at
  }

  /** No entry of the current heap has a key that is close to that of an entry of the old heap: they are apart by at
      least the distance of the bases. */
  ghost predicate Apart<E>(cur: seq<Entry<E>>, prev: seq<Entry<E>>, d: nat) {
    forall i, j | 0 <= i < |cur| && 0 <= j < |prev| ::
      cur[i].key.Total() >= prev[j].key.Total() + d || cur[i].key.Total() + d <= prev[j].key.Total()
  }

  lemma {:induction false} FiredIsMerge<E>(cur: seq<Entry<E>>, prev: seq<Entry<E>>, t: Tracker<E>)
    ensures EventsFired(Fired(cur, prev, t)) == Merge(cur, prev, t.baseDiff)
    decreases |cur| + |prev|
  {
    if cur == [] && prev == [] {
    } else if OldFirst(cur, prev, t.baseDiff) {
      FiredIsMerge(cur, prev[1..], t);
    } else {
      FiredIsMerge(cur[1..], prev, t);
    }
  }

  ghost predicate AllFrom<E>(h: seq<Entry<E>>, base: int, least: int) {
    forall i | 0 <= i < |h| :: least <= base * NANOS + h[i].key.Total()
  }

  lemma AllFromFirst<E>(h: seq<Entry<E>>, base: int, least: int)
    requires h != []
    ensures AllFrom(h, base, least) <==> least <= base * NANOS + h[0].key.Total() && AllFrom(h[1..], base, least)
  {
    assert forall i | 0 <= i < |h[1..]| :: h[1..][i] == h[i + 1];
    assert forall i | 0 < i < |h| :: h[i] == h[1..][i - 1];
  }

  lemma HeapTail<E>(h: seq<Entry<E>>, base: int)
    requires Heap(h) && h != []
    ensures Heap(h[1..]) && AllFrom(h[1..], base, base * NANOS + h[0].key.Total())
  {
    assert forall i | 0 <= i < |h[1..]| :: h[1..][i] == h[i + 1];
  }

  ghost predicate FiringsFrom<E>(fs: seq<Firing<E>>, least: int) {
    forall k | 0 <= k < |fs| :: least <= fs[k].at
  }

  lemma FiringsFirst<E>(f: Firing<E>, fs: seq<Firing<E>>)
    ensures InOrder([f] + fs) <==> InOrder(fs) && FiringsFrom(fs, f.at)
  {
    var all := [f] + fs;
    assert forall k | 0 <= k < |fs| :: all[k + 1] == fs[k];
    assert forall k | 0 < k < |all| :: all[k] == fs[k - 1];
    assert all[0] == f;
  }

  lemma FiringsFromFirst<E>(f: Firing<E>, fs: seq<Firing<E>>, least: int)
    ensures FiringsFrom([f] + fs, least) <==> least <= f.at && FiringsFrom(fs, least)
  {
    var all := [f] + fs;
    assert forall k | 0 <= k < |fs| :: all[k + 1] == fs[k];
    assert all[0] == f;
  }

  lemma {:induction false} FiredFrom<E>(cur: seq<Entry<E>>, prev: seq<Entry<E>>, t: Tracker<E>, least: int)
    ensures FiringsFrom(Fired(cur, prev, t), least) <==>
            AllFrom(cur, t.currentBase, least) && AllFrom(prev, t.oldBase, least)
    decreases |cur| + |prev|
  {
    if cur == [] && prev == [] {
    } else if OldFirst(cur, prev, t.baseDiff) {
      FiredFrom(cur, prev[1..], t, least);
      AllFromFirst(prev, t.oldBase, least);
      FiringsFromFirst(Firing(t.oldBase * NANOS + prev[0].key.Total(), prev[0].event), Fired(cur, prev[1..], t), least);
    } else {
      FiredFrom(cur[1..], prev, t, least);
      AllFromFirst(cur, t.currentBase, least);
      FiringsFromFirst(
        Firing(t.currentBase * NANOS + cur[0].key.Total(), cur[0].event), Fired(cur[1..], prev, t), least);
    }
  }

  lemma {:induction false} FiredInOrderExactly<E>(cur: seq<Entry<E>>, prev: seq<Entry<E>>, t: Tracker<E>)
    requires Heap(cur) && Heap(prev) && t.currentBase * NANOS == t.oldBase * NANOS + t.baseDiff.Total()
    ensures InOrder(Fired(cur, prev, t)) <==> Apart(cur, prev, t.baseDiff.Total())
    decreases |cur| + |prev|
  {
    if cur == [] && prev == [] {
    } else if OldFirst(cur, prev, t.baseDiff) {
      OldFirstInOrder(cur, prev, t);
      FiredInOrderExactly(cur, prev[1..], t);
    } else {
      CurrentFirstInOrder(cur, prev, t);
      FiredInOrderExactly(cur[1..], prev, t);
    }
  }

  ghost predicate OldApart<E>(cur: seq<Entry<E>>, e: Entry<E>, d: nat) {
    forall i | 0 <= i < |cur| ::
      cur[i].key.Total() >= e.key.Total() + d || cur[i].key.Total() + d <= e.key.Total()
  }

  ghost predicate CurrentApart<E>(e: Entry<E>, prev: seq<Entry<E>>, d: nat) {
    forall j | 0 <= j < |prev| ::
      e.key.Total() >= prev[j].key.Total() + d || e.key.Total() + d <= prev[j].key.Total()
  }

  lemma ApartFirst<E>(cur: seq<Entry<E>>, prev: seq<Entry<E>>, d: nat)
    ensures prev != [] ==> (Apart(cur, prev, d) <==> OldApart(cur, prev[0], d) && Apart(cur, prev[1..], d))
    ensures cur != [] ==> (Apart(cur, prev, d) <==> CurrentApart(cur[0], prev, d) && Apart(cur[1..], prev, d))
  {
    assert forall j | 0 < j < |prev| :: prev[j] == prev[1..][j - 1];
    assert forall i | 0 < i < |cur| :: cur[i] == cur[1..][i - 1];
  }

  /** An entry of the old heap that comes first is never out of order. */
  lemma OldFirstInOrder<E>(cur: seq<Entry<E>>, prev: seq<Entry<E>>, t: Tracker<E>)
    requires Heap(cur) && Heap(prev) && t.currentBase * NANOS == t.oldBase * NANOS + t.baseDiff.Total()
    requires OldFirst(cur, prev, t.baseDiff)
    ensures InOrder(Fired(cur, prev, t)) <==> InOrder(Fired(cur, prev[1..], t))
    ensures Apart(cur, prev, t.baseDiff.Total()) <==> Apart(cur, prev[1..], t.baseDiff.Total())
    ensures Heap(prev[1..])
  {
    HeapTail(prev, t.oldBase);
    OldFirstIsEarlier(cur, prev, t);
    OldFirstGoesOn(cur, prev, t, t.oldBase * NANOS + prev[0].key.Total());
    ApartFirst(cur, prev, t.baseDiff.Total());
  }

  lemma OldFirstGoesOn<E>(cur: seq<Entry<E>>, prev: seq<Entry<E>>, t: Tracker<E>, first: int)
    requires OldFirst(cur, prev, t.baseDiff) && first == t.oldBase * NANOS + prev[0].key.Total()
    requires AllFrom(cur, t.currentBase, first) && AllFrom(prev[1..], t.oldBase, first)
    ensures InOrder(Fired(cur, prev, t)) <==> InOrder(Fired(cur, prev[1..], t))
  {
    var rest := Fired(cur, prev[1..], t);
    FiredFrom(cur, prev[1..], t, first);
    FiringsFirst(Firing(first, prev[0].event), rest);
  }

  lemma OldFirstIsEarlier<E>(cur: seq<Entry<E>>, prev: seq<Entry<E>>, t: Tracker<E>)
    requires Heap(cur) && t.currentBase * NANOS == t.oldBase * NANOS + t.baseDiff.Total()
    requires OldFirst(cur, prev, t.baseDiff)
    ensures OldApart(cur, prev[0], t.baseDiff.Total())
    ensures AllFrom(cur, t.currentBase, t.oldBase * NANOS + prev[0].key.Total())
  {
    if cur != [] {
      PlusAdds(prev[0].key, t.baseDiff);
      LessIsShorter(cur[0].key, prev[0].key.Plus(t.baseDiff));
      assert forall i | 0 <= i < |cur| :: cur[0].key.Total() <= cur[i].key.Total();
    }
  }

  /** An entry of the current heap that comes first is in order exactly if it is apart from all old entries. */
  lemma CurrentFirstInOrder<E>(cur: seq<Entry<E>>, prev: seq<Entry<E>>, t: Tracker<E>)
    requires Heap(cur) && Heap(prev) && t.currentBase * NANOS == t.oldBase * NANOS + t.baseDiff.Total()
    requires cur != [] && !OldFirst(cur, prev, t.baseDiff)
    ensures InOrder(Fired(cur, prev, t)) <==>
            InOrder(Fired(cur[1..], prev, t)) && CurrentApart(cur[0], prev, t.baseDiff.Total())
    ensures Apart(cur, prev, t.baseDiff.Total()) <==>
            Apart(cur[1..], prev, t.baseDiff.Total()) && CurrentApart(cur[0], prev, t.baseDiff.Total())
    ensures Heap(cur[1..])
  {
    HeapTail(cur, t.currentBase);
    CurrentFirstIsEarlier(cur, prev, t);
    CurrentFirstGoesOn(cur, prev, t, t.currentBase * NANOS + cur[0].key.Total());
    ApartFirst(cur, prev, t.baseDiff.Total());
  }

  lemma {:induction false} CurrentFirstGoesOn<E>(cur: seq<Entry<E>>, prev: seq<Entry<E>>, t: Tracker<E>, first: int)
    requires cur != [] && !OldFirst(cur, prev, t.baseDiff) && first == t.currentBase * NANOS + cur[0].key.Total()
    requires AllFrom(cur[1..], t.currentBase, first)
    ensures InOrder(Fired(cur, prev, t)) <==> InOrder(Fired(cur[1..], prev, t)) && AllFrom(prev, t.oldBase, first)
  {
    var rest := Fired(cur[1..], prev, t);
    FiredFrom(cur[1..], prev, t, first);
    FiringsFirst(Firing(first, cur[0].event), rest);
  }

  lemma CurrentFirstIsEarlier<E>(cur: seq<Entry<E>>, prev: seq<Entry<E>>, t: Tracker<E>)
    requires Heap(prev) && t.currentBase * NANOS == t.oldBase * NANOS + t.baseDiff.Total()
    requires cur != [] && !OldFirst(cur, prev, t.baseDiff)
    ensures CurrentApart(cur[0], prev, t.baseDiff.Total()) <==>
            AllFrom(prev, t.oldBase, t.currentBase * NANOS + cur[0].key.Total())
  {
    if prev != [] {
      var d := t.baseDiff.Total();
      PlusAdds(prev[0].key, t.baseDiff);
      LessIsShorter(cur[0].key, prev[0].key.Plus(t.baseDiff));
      assert forall j | 0 <= j < |prev| :: prev[0].key.Total() <= prev[j].key.Total();
      assert forall j | 0 <= j < |prev| :: cur[0].key.Total() < prev[j].key.Total() + d;
    }
  }

  /** The events of one call leave in the order in which they fire if and only if the keys of the expired entries
      of the two heaps are apart by at least the distance of the bases. Within one heap the order is always right. */
  lemma DeliveredInOrderExactly<E>(t: Tracker<E>, now: Absolute)
    requires t.Ordered()
    ensures var cur, prev := t.current[..t.CurrentEnd(now)], t.prev[..t.OldEnd(now)];
            && t.Delivered(now) == EventsFired(Fired(cur, prev, t))
            && (InOrder(Fired(cur, prev, t)) <==> Apart(cur, prev, t.baseDiff.Total()))
  {
    var cur, prev := t.current[..t.CurrentEnd(now)], t.prev[..t.OldEnd(now)];
    FiredIsMerge(cur, prev, t);
    FiredInOrderExactly(cur, prev, t);
  }

  /** Across the heaps the order can be wrong, because the comparison moves old keys the wrong way: here the
      event that is due ten seconds after the base leaves before the one due five seconds after it. */
  lemma OutOfOrderAcrossGenerations(first: int, second: int)
    ensures var early, late := Posted(first, (WEEK + 5) * NANOS, 0), Posted(second, (WEEK + 10) * NANOS, WEEK);
            var ops :=
              [Post(At(WEEK + 5), first), Expire(At(WEEK)), Post(At(WEEK + 10), second), Expire(At(WEEK + 20))];
            EventsOf(Run(0, ops).delivered) == [late, early]
  {
    var early, late := Posted(first, (WEEK + 5) * NANOS, 0), Posted(second, (WEEK + 10) * NANOS, WEEK);
    var e, f := Entry(Interval(WEEK + 5, 0), early), Entry(Interval(10, 0), late);
    var a, b, c, d := Post(At(WEEK + 5), first), Expire(At(WEEK)), Post(At(WEEK + 10), second), Expire(At(WEEK + 20));
    FirstPost(0, At(WEEK + 5), first);
    var h := History(Tracker(0, 0, Interval(0, 0), [e], []), multiset{early}, []);
    NextStep(0, [a], b, [a, b]);
    TooSoon(h, At(WEEK));
    RebasedOne(h.tracker, WEEK, e);
    var h1 := History(Tracker(0, WEEK, Interval(WEEK, 0), [], [e]), multiset{early}, []);
    assert Run(0, [a, b]) == h1;
    NextStep(0, [a, b], c, [a, b, c]);
    var t := Tracker(0, WEEK, Interval(WEEK, 0), [f], [e]);
    assert Step(h1, c) == History(t, multiset{early, late}, []);
    NextStep(0, [a, b, c], d, [a, b, c, d]);
    DeliveredTwo(t, At(WEEK + 20));
  }
}
