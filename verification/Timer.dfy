/** Intervals and absolute times, and what their operators mean in nanoseconds. */
module Timers {
  import opened Basics

  const NANOS := 1_000_000_000

  datatype Interval = Interval(seconds: nat, nanoseconds: uint32) {

    predicate Normal() {
      nanoseconds < NANOS
    }

    function Total(): (r: nat) {
      seconds * NANOS + nanoseconds
    }

    function Normalized(): (r: Interval)
      ensures r.Normal() && r.Total() == Total()
    {
      if nanoseconds >= NANOS then Interval(seconds + nanoseconds / NANOS, nanoseconds % NANOS) else this
    }

    /** operator < */
    predicate Less(b: Interval) {
      var an, bn := Normalized(), b.Normalized();
      if an.seconds != bn.seconds then an.seconds < bn.seconds else an.nanoseconds < bn.nanoseconds
    }

    /** operator + */
    function Plus(b: Interval): (r: Interval) {
      var an, bn := Normalized(), b.Normalized();
      Interval(an.seconds + bn.seconds, an.nanoseconds + bn.nanoseconds).Normalized()
    }

    /** operator - */
    function Minus(b: Interval): (r: Interval) {
      var an, bn := Normalized(), b.Normalized();
      if an.seconds > bn.seconds then
        if an.nanoseconds >= bn.nanoseconds then
          Interval(an.seconds - bn.seconds, an.nanoseconds - bn.nanoseconds)
        else
          Interval(an.seconds - bn.seconds - 1, an.nanoseconds + NANOS - bn.nanoseconds)
      else if an.seconds == bn.seconds then
        if an.nanoseconds >= bn.nanoseconds then Interval(0, an.nanoseconds - bn.nanoseconds)
        else Interval(0, bn.nanoseconds - an.nanoseconds)
      else
        if bn.nanoseconds >= an.nanoseconds then
          Interval(bn.seconds - an.seconds, bn.nanoseconds - an.nanoseconds)
        else
          Interval(bn.seconds - an.seconds - 1, bn.nanoseconds + NANOS - an.nanoseconds)
    }
  }

  function Abs(x: int): nat {
    if x < 0 then -x else x
  }

  /** The order of intervals is the order of their lengths, normalised or not. */
  lemma LessIsShorter(a: Interval, b: Interval)
    ensures a.Less(b) <==> a.Total() < b.Total()
  {
    var an, bn := a.Normalized(), b.Normalized();
    assert an.Total() == an.seconds * NANOS + an.nanoseconds;
    assert bn.Total() == bn.seconds * NANOS + bn.nanoseconds;
  }

  lemma PlusAdds(a: Interval, b: Interval)
    ensures a.Plus(b).Normal() && a.Plus(b).Total() == a.Total() + b.Total()
  {
    var an, bn := a.Normalized(), b.Normalized();
    assert an.Total() + bn.Total() == Interval(an.seconds + bn.seconds, an.nanoseconds + bn.nanoseconds).Total();
  }

  /** The difference of two intervals is the distance between them, never negative. */
  lemma MinusIsDistance(a: Interval, b: Interval)
    ensures a.Minus(b).Normal() && a.Minus(b).Total() == Abs(a.Total() - b.Total())
  {
    var an, bn := a.Normalized(), b.Normalized();
    assert an.Total() - bn.Total() == (an.seconds - bn.seconds) * NANOS + (an.nanoseconds - bn.nanoseconds);
  }

  lemma NormalIsUnique(a: Interval, b: Interval)
    requires a.Normal() && b.Normal() && a.Total() == b.Total()
    ensures a == b
  {
  }

  /** A time of the system, and an interval past it. */
  datatype Absolute = Absolute(time: int, past: Interval) {

    function Instant(): int {
      time * NANOS + past.Total()
    }

    /** operator < */
    predicate Before(b: Absolute) {
      var secs := time - b.time;
      if secs == 0 then
        !b.past.Less(past)
      else if secs < 0 then
        past.Less(Interval(b.past.Normalized().seconds - secs, b.past.Normalized().nanoseconds))
      else
        Interval(past.Normalized().seconds + secs, past.Normalized().nanoseconds).Less(b.past)
    }

    /** operator - */
    function Since(b: Absolute): Interval {
      var secs := time - b.time;
      if secs < 0 then
        if past.Less(Interval(-secs, 0)) then Interval(0, 0) else past.Minus(Interval(-secs, 0)).Minus(b.past)
      else if secs == 0 then
        past.Minus(b.past)
      else if past.Less(b.past) then
        Interval(secs, 0).Minus(b.past.Minus(past))
      else
        Interval(secs, 0).Plus(past.Minus(b.past))
    }

    /** operator + */
    function Later(i: Interval): Absolute {
      Absolute(time, past.Plus(i))
    }
  }

  function At(time: int): Absolute {
    Absolute(time, Interval(0, 0))
  }

  /** Comparing absolute times compares the instants, strictly if their system times differ, but not if
      they agree: then an instant is before itself. */
  lemma BeforeIsEarlier(a: Absolute, b: Absolute)
    ensures a.time != b.time ==> (a.Before(b) <==> a.Instant() < b.Instant())
    ensures a.time == b.time ==> (a.Before(b) <==> a.Instant() <= b.Instant())
  {
    var secs := a.time - b.time;
    if secs == 0 {
      LessIsShorter(b.past, a.past);
    } else if secs < 0 {
      var shifted := Interval(b.past.Normalized().seconds - secs, b.past.Normalized().nanoseconds);
      assert shifted.Total() == b.past.Normalized().Total() - secs * NANOS;
      LessIsShorter(a.past, shifted);
    } else {
      var shifted := Interval(a.past.Normalized().seconds + secs, a.past.Normalized().nanoseconds);
      assert shifted.Total() == a.past.Normalized().Total() + secs * NANOS;
      LessIsShorter(shifted, b.past);
    }
  }

  lemma LaterAdds(a: Absolute, i: Interval)
    ensures a.Later(i).Instant() == a.Instant() + i.Total()
  {
    PlusAdds(a.past, i);
  }

  /** The difference of two absolute times is normalised, and it is the distance between the two instants
      exactly unless the left one does not reach the system time of the right one; then it is zero. */
  lemma SinceIsDistance(a: Absolute, b: Absolute)
    ensures a.Since(b).Normal()
    ensures a.Since(b).Total() == Abs(a.Instant() - b.Instant()) <==> a.Instant() >= b.time * NANOS
    ensures a.Instant() < b.time * NANOS ==> a.Since(b) == Interval(0, 0)
  {
    if a.time < b.time {
      SinceALaterBase(a, b);
    } else if a.time == b.time {
      MinusIsDistance(a.past, b.past);
    } else {
      SinceAnEarlierBase(a, b);
    }
  }

  lemma SinceALaterBase(a: Absolute, b: Absolute)
    requires a.time < b.time
    ensures a.Since(b).Normal()
    ensures if a.Instant() < b.time * NANOS then a.Since(b) == Interval(0, 0)
            else a.Since(b).Total() == Abs(a.Instant() - b.Instant())
  {
    var gap := Interval(b.time - a.time, 0);
    assert gap.Total() == b.time * NANOS - a.time * NANOS;
    LessIsShorter(a.past, gap);
    MinusIsDistance(a.past, gap);
    MinusIsDistance(a.past.Minus(gap), b.past);
  }

  lemma SinceAnEarlierBase(a: Absolute, b: Absolute)
    requires a.time > b.time
    ensures a.Since(b).Normal() && a.Since(b).Total() == Abs(a.Instant() - b.Instant())
  {
    var gap := Interval(a.time - b.time, 0);
    assert gap.Total() == a.time * NANOS - b.time * NANOS;
    LessIsShorter(a.past, b.past);
    if a.past.Less(b.past) {
      MinusIsDistance(b.past, a.past);
      MinusIsDistance(gap, b.past.Minus(a.past));
    } else {
      MinusIsDistance(a.past, b.past);
      PlusAdds(gap, a.past.Minus(b.past));
    }
  }
}
