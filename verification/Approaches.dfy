// What one tick of the shock limiter is, without its quotients and clamps: how
// fast the target is approached, how near the acceleration comes to that, and
// where the tick ends. Each is fixed by what it achieves.
module Approaches {
  import opened Reals
  import opened SaturationChain

  // The time to the velocity limit at full acceleration, and to full
  // acceleration at full jerk; zero where a tolerance is missing.
  predicate Times(lim: Limits, rise: real, ramp: real) {
    && (if lim.vmax.AtMost? && lim.amax.AtMost? then rise * lim.amax.v == lim.vmax.v else rise == 0.0)
    && (if lim.amax.AtMost? && lim.jmax.AtMost? then ramp * lim.jmax.v == lim.amax.v else ramp == 0.0)
  }

  // Acceleration is possible, and can be reached.
  predicate Moves(lim: Limits) {
    lim.amax.AtMost? ==> lim.amax.v > 0.0 && (lim.jmax.AtMost? ==> lim.jmax.v > 0.0)
  }

  function Longer(a: real, b: real): real {
    if a > b then a else b
  }

  // A velocity towards a target `dist` away, not past it in time `t`, within the
  // velocity limit and the braking distance; none of these admits a faster one.
  predicate Fastest(lim: Limits, dist: real, t: real, v: real) {
    && v * dist >= 0.0 && Abs(v) * t <= Abs(dist)
    && (lim.vmax.AtMost? ==> Abs(v) <= lim.vmax.v)
    && (lim.amax.AtMost? ==> Square(v) <= 2.0 * lim.amax.v * Abs(dist))
    && (|| v * t == dist
        || (lim.vmax.AtMost? && Abs(v) == lim.vmax.v)
        || (lim.amax.AtMost? && Square(v) == 2.0 * lim.amax.v * Abs(dist)))
  }

  lemma QuotientIs(a: real, b: real, q: real)
    requires a >= 0.0 && b > 0.0 && q * b == a
    ensures Quotient(a, b) == Fin(q)
  {
    DivMul(a, b);
    SameFactor(a / b, q, b);
  }

  lemma TauIs(dt: real, lim: Limits, rise: real, ramp: real)
    requires lim.Valid() && dt > 0.0 && Moves(lim) && Times(lim, rise, ramp)
    ensures Tau(dt, lim) == Fin(Longer(rise + ramp, dt))
  {
    hide Quotient;
    if lim.vmax.AtMost? && lim.amax.AtMost? {
      QuotientIs(lim.vmax.v, lim.amax.v, rise);
    }
    if lim.amax.AtMost? && lim.jmax.AtMost? {
      QuotientIs(lim.amax.v, lim.jmax.v, ramp);
    }
  }

  // Where acceleration is possible both times exist ...
  lemma TimesExist(lim: Limits) returns (rise: real, ramp: real)
    requires lim.Valid() && Moves(lim)
    ensures Times(lim, rise, ramp)
  {
    rise, ramp := 0.0, 0.0;
    if lim.vmax.AtMost? && lim.amax.AtMost? {
      rise := lim.vmax.v / lim.amax.v;
      DivMul(lim.vmax.v, lim.amax.v);
    }
    if lim.amax.AtMost? && lim.jmax.AtMost? {
      ramp := lim.amax.v / lim.jmax.v;
      DivMul(lim.amax.v, lim.jmax.v);
    }
  }

  // ... and the demanded velocity is the fastest that does not pass the target
  // in their sum, or in a tick if that is longer.
  lemma DemandIsFastest(p: Params, dist: real, rise: real, ramp: real)
    requires p.Valid() && Moves(p.lim) && Times(p.lim, rise, ramp)
    ensures Fastest(p.lim, dist, Longer(rise + ramp, p.dt), DesiredVel(p, dist))
  {
    hide DesiredVel, IsSqrt, Tau, Times, Moves, Longer;
    DesiredVelIsFastest(p, dist);
    TauIs(p.dt, p.lim, rise, ramp);
  }

  // That fixes it.
  lemma FastestIsUnique(lim: Limits, dist: real, t: real, u: real, v: real)
    requires lim.Valid() && t > 0.0 && Fastest(lim, dist, t, u) && Fastest(lim, dist, t, v)
    ensures u == v
  {
    hide Fastest;
    NotFaster(lim, dist, t, u, v);
    NotFaster(lim, dist, t, v, u);
    SameSide(lim, dist, t, u, v);
  }

  lemma NotFaster(lim: Limits, dist: real, t: real, u: real, v: real)
    requires lim.Valid() && t > 0.0 && Fastest(lim, dist, t, u) && Fastest(lim, dist, t, v)
    ensures Abs(v) <= Abs(u)
  {
    hide Square;
    if Abs(u) < Abs(v) {
      MulStrict(Abs(u), Abs(v), t);
      AbsMul(u, t);
      SquareOfAbs(u);
      SquareOfAbs(v);
      SquareStrict(Abs(u), Abs(v));
    }
  }

  lemma SameSide(lim: Limits, dist: real, t: real, u: real, v: real)
    requires t > 0.0 && Fastest(lim, dist, t, u) && Fastest(lim, dist, t, v) && Abs(u) == Abs(v)
    ensures u == v
  {
    if u != v {
      Opposite(u, dist);
      assert dist == 0.0;
      AbsMul(u, t);
      if u != 0.0 { MulStrict(0.0, Abs(u), t); }
    }
  }

  lemma Opposite(u: real, dist: real)
    requires u * dist >= 0.0 && -u * dist >= 0.0 && u != 0.0
    ensures dist == 0.0
  {
  }

  // Without acceleration, or without jerk, no velocity is demanded.
  lemma NothingDemanded(p: Params, dist: real)
    requires p.Valid() && p.lim.amax.AtMost? && !Moves(p.lim)
    ensures DesiredVel(p, dist) == 0.0
  {
    hide IsSqrt, DesiredVel, Tau;
    DesiredVelIsFastest(p, dist);
    if p.lim.amax.v == 0.0 {
      NoBraking(p, dist);
      OnlyZero(DesiredVel(p, dist));
    } else {
      NoJerk(p.dt, p.lim);
    }
  }

  lemma NoBraking(p: Params, dist: real)
    requires p.Valid() && p.lim.amax == AtMost(0.0)
    ensures Brakable(p, dist) == 0.0
  {
    hide IsSqrt;
  }

  lemma OnlyZero(v: real)
    requires Square(v) <= 0.0
    ensures v == 0.0
  {
    assert Square(0.0) == 0.0;
    SquareOfAbs(v);
    if v != 0.0 {
      SquareStrict(0.0, Abs(v));
    }
  }

  lemma NoJerk(dt: real, lim: Limits)
    requires lim.Valid() && dt > 0.0 && lim.amax.AtMost? && lim.amax.v > 0.0 && lim.jmax == AtMost(0.0)
    ensures Tau(dt, lim) == PosInf
  {
    if lim.vmax.AtMost? {
      hide Quotient;
      DivMul(lim.vmax.v, lim.amax.v);
      QuotientIs(lim.vmax.v, lim.amax.v, lim.vmax.v / lim.amax.v);
      assert Quotient(lim.amax.v, 0.0) == PosInf by { OverZero(lim.amax.v); }
    }
  }

  lemma OverZero(a: real)
    requires a > 0.0
    ensures Quotient(a, 0.0) == PosInf
  {
  }

  // ---------------------------------------------------------- A whole tick

  // The admissible acceleration whose tick comes nearest to a wanted change of
  // velocity.
  ghost predicate Nearest(p: Params, prev: real, change: real, a: real)
  {
    && Admissible(p, prev, a)
    && forall b | Admissible(p, prev, b) :: Nearer(a, b, p.dt, change)
  }

  // A tick with acceleration a comes no less near to the change than one with b.
  predicate Nearer(a: real, b: real, dt: real, change: real) {
    Abs(a * dt - change) <= Abs(b * dt - change)
  }

  // The point of an interval nearest to x.
  predicate Moved(x: real, least: real, most: real, y: real) {
    least <= y <= most && (y == x || (x < y && y == least) || (x > y && y == most))
  }

  // Where an acceleration takes the velocity, and a velocity the position.
  predicate Accelerates(p: Params, vel: real, a: real, v: real) {
    if p.lim.vmax.AtMost? then Moved(vel + a * p.dt, -p.lim.vmax.v, p.lim.vmax.v, v) else v == vel + a * p.dt
  }

  predicate Travels(p: Params, pos: real, v: real, q: real) {
    if p.geo.Range? then Moved(pos + v * p.dt, p.geo.lo, p.geo.hi, q) else q == pos + v * p.dt
  }

  // A tick from s to r when the velocity v is wanted.
  ghost predicate Tick(p: Params, s: Joint, v: real, r: Joint) {
    && Nearest(p, s.acc, v - s.vel, r.acc)
    && Accelerates(p, s.vel, r.acc, r.vel)
    && Travels(p, s.pos, r.vel, r.pos)
  }

  lemma ScaledApart(a: real, raw: real, dt: real, change: real, m: real)
    requires dt > 0.0 && raw * dt == change && m == Abs(a - raw)
    ensures Abs(a * dt - change) == m * dt
  {
    AbsMul(a - raw, dt);
    Difference(a, raw, dt);
  }

  lemma Difference(a: real, b: real, dt: real)
    ensures (a - b) * dt == a * dt - b * dt
  {
  }

  lemma NearestScaled(a: real, b: real, raw: real, dt: real, change: real)
    requires dt > 0.0 && Abs(a - raw) <= Abs(b - raw) && raw * dt == change
    ensures Nearer(a, b, dt, change)
  {
    hide Abs;
    var m, n := Abs(a - raw), Abs(b - raw);
    MulMono(m, n, dt);
    ScaledApart(a, raw, dt, change, m);
    ScaledApart(b, raw, dt, change, n);
  }

  lemma RawTimes(p: Params, wanted: real, vel: real)
    requires p.Valid()
    ensures RawAcc(p, wanted, vel) * p.dt == wanted - vel
  {
    hide IsSqrt;
    DivMul(wanted - vel, p.dt);
  }

  lemma AccIsNearest(p: Params, prev: real, wanted: real, vel: real)
    requires p.Valid() && Within(prev, p.lim.amax)
    ensures Nearest(p, prev, wanted - vel, NextAcc(p, prev, RawAcc(p, wanted, vel)))
  {
    hide IsSqrt, NextAcc, Admissible, Abs, RawAcc, Nearer;
    var raw := RawAcc(p, wanted, vel);
    var a := NextAcc(p, prev, raw);
    RawTimes(p, wanted, vel);
    NextAccIsAdmissible(p, prev, raw);
    forall b | Admissible(p, prev, b)
      ensures Nearer(a, b, p.dt, wanted - vel)
    {
      NextAccIsProjection(p, prev, raw, b);
      NearestScaled(a, b, raw, p.dt, wanted - vel);
    }
  }

  lemma VelIsMoved(p: Params, vel: real, a: real)
    requires p.Valid()
    ensures Accelerates(p, vel, a, NextVel(p, vel, a))
  {
    hide IsSqrt, NextVel;
    NextVelIs(p, vel, a, vel + a * p.dt);
  }

  lemma PosIsMoved(p: Params, pos: real, v: real)
    requires p.Valid()
    ensures Travels(p, pos, v, NextPos(p, pos, v))
  {
    hide IsSqrt, NextPos;
    NextPosIs(p, pos, v, pos + v * p.dt);
  }

  lemma StepParts(p: Params, s: Joint, target: real)
    requires p.Valid()
    ensures var r := Step(p, s, target);
            && r.acc == NextAcc(p, s.acc, RawAcc(p, DesiredVel(p, target - s.pos), s.vel))
            && r.vel == NextVel(p, s.vel, r.acc) && r.pos == NextPos(p, s.pos, r.vel)
  {
    hide IsSqrt, NextAcc, RawAcc, DesiredVel, NextVel, NextPos;
  }

  // A tick from s to r that wants the fastest approach to a target.
  ghost predicate TicksTowards(p: Params, s: Joint, target: real, rise: real, ramp: real, r: Joint) {
    exists v :: Fastest(p.lim, target - s.pos, Longer(rise + ramp, p.dt), v) && Tick(p, s, v, r)
  }

  // A tick wants the fastest approach to its target, changes the velocity as
  // nearly to it as acceleration and jerk admit, and moves with what it gets.
  lemma StepIsTick(p: Params, s: Joint, target: real, rise: real, ramp: real)
    requires p.Valid() && Within(s.acc, p.lim.amax) && Moves(p.lim) && Times(p.lim, rise, ramp)
    ensures TicksTowards(p, s, target, rise, ramp, Step(p, s, target))
  {
    hide IsSqrt, Fastest, Tick, Step, DesiredVel, Times, Moves;
    var v := DesiredVel(p, target - s.pos);
    DemandIsFastest(p, target - s.pos, rise, ramp);
    TickWanting(p, s, target);
    assert Fastest(p.lim, target - s.pos, Longer(rise + ramp, p.dt), v) && Tick(p, s, v, Step(p, s, target));
  }

  lemma TickWanting(p: Params, s: Joint, target: real)
    requires p.Valid() && Within(s.acc, p.lim.amax)
    ensures Tick(p, s, DesiredVel(p, target - s.pos), Step(p, s, target))
  {
    hide IsSqrt, Nearest, Accelerates, Travels, Step, NextAcc, NextVel, NextPos, RawAcc, DesiredVel;
    StepParts(p, s, target);
    AccIsNearest(p, s.acc, DesiredVel(p, target - s.pos), s.vel);
    VelIsMoved(p, s.vel, Step(p, s, target).acc);
    PosIsMoved(p, s.pos, Step(p, s, target).vel);
  }

  // With tolerances that admit no motion it wants to stand still.
  lemma StepStops(p: Params, s: Joint, target: real)
    requires p.Valid() && Within(s.acc, p.lim.amax) && p.lim.amax.AtMost? && !Moves(p.lim)
    ensures Tick(p, s, 0.0, Step(p, s, target))
  {
    hide IsSqrt, Tick, Step, DesiredVel, Moves;
    NothingDemanded(p, target - s.pos);
    TickWanting(p, s, target);
  }

  // There is one such tick only.
  lemma TickIsUnique(p: Params, s: Joint, v: real, q: Joint, r: Joint)
    requires p.Valid() && Tick(p, s, v, q) && Tick(p, s, v, r)
    ensures q == r
  {
    hide IsSqrt, Nearest;
    NearestIsUnique(p, s.acc, v - s.vel, q.acc, r.acc);
  }

  lemma NearestIsUnique(p: Params, prev: real, change: real, a: real, b: real)
    requires p.Valid() && Nearest(p, prev, change, a) && Nearest(p, prev, change, b)
    ensures a == b
  {
    hide IsSqrt, Admissible;
    if a != b {
      var c := (a + b) / 2.0;
      Between(p, prev, a, b);
      assert Admissible(p, prev, c);
      Halfway(a, b, p.dt, change);
    }
  }

  lemma Between(p: Params, prev: real, a: real, b: real)
    requires p.Valid() && Admissible(p, prev, a) && Admissible(p, prev, b)
    ensures Admissible(p, prev, (a + b) / 2.0)
  {
    hide IsSqrt;
  }

  lemma Halfway(a: real, b: real, dt: real, change: real)
    requires a != b && dt > 0.0 && Abs(a * dt - change) == Abs(b * dt - change)
    ensures Abs((a + b) / 2.0 * dt - change) < Abs(a * dt - change)
  {
    var x, y := a * dt, b * dt;
    if a < b { MulStrict(a, b, dt); } else { MulStrict(b, a, dt); }
    assert (a + b) / 2.0 * dt == (x + y) / 2.0;
  }

  // ------------------------------------------------- Where nothing saturates

  // Neither velocity limit nor braking distance keeps the target from being
  // reached in time t.
  predicate Unhindered(lim: Limits, dist: real, t: real) {
    && (lim.vmax.AtMost? ==> Abs(dist) <= lim.vmax.v * t)
    && (lim.amax.AtMost? ==> Abs(dist) <= 2.0 * lim.amax.v * (t * t))
  }

  lemma UnhinderedDemand(p: Params, dist: real, rise: real, ramp: real)
    requires p.Valid() && Moves(p.lim) && Times(p.lim, rise, ramp)
    requires Unhindered(p.lim, dist, Longer(rise + ramp, p.dt))
    ensures DesiredVel(p, dist) * Longer(rise + ramp, p.dt) == dist
  {
    hide DesiredVel, IsSqrt, Times, Moves, Fastest, Unhindered;
    var t := Longer(rise + ramp, p.dt);
    DivMul(dist, t);
    DemandIsFastest(p, dist, rise, ramp);
    ArrivalIsFastest(p.lim, dist, t, dist / t);
    FastestIsUnique(p.lim, dist, t, DesiredVel(p, dist), dist / t);
  }

  lemma ArrivalIsFastest(lim: Limits, dist: real, t: real, u: real)
    requires lim.Valid() && t > 0.0 && u * t == dist && Unhindered(lim, dist, t)
    ensures Fastest(lim, dist, t, u)
  {
    hide Square, Abs;
    AbsMul(u, t);
    SameDirection(u, t, dist);
    if lim.vmax.AtMost? {
      MulCancel(Abs(u), lim.vmax.v, t);
    }
    if lim.amax.AtMost? {
      WithinBraking(u, Abs(u), Abs(dist), t, 2.0 * lim.amax.v);
    }
  }

  lemma SameDirection(u: real, t: real, dist: real)
    requires t > 0.0 && u * t == dist
    ensures u * dist >= 0.0
  {
    if u >= 0.0 {
      MulMono(0.0, u, t);
      MulMono(0.0, u, dist);
    } else {
      MulStrict(u, 0.0, t);
      MulMono(u, 0.0, -dist);
    }
  }

  lemma WithinBraking(u: real, m: real, far: real, t: real, c: real)
    requires t > 0.0 && m == Abs(u) && m * t == far && far <= c * (t * t) && c >= 0.0
    ensures Square(u) <= c * far
  {
    SquareOfAbs(u);
    var limit := c * t;
    Regrouped(c, t, limit);
    if m > limit {
      MulStrict(limit, m, t);
    }
    MulMono(m, limit, m);
    Reordered(c, t, limit, m);
  }

  lemma Regrouped(c: real, t: real, limit: real)
    requires limit == c * t
    ensures c * (t * t) == limit * t
  {
  }

  lemma Reordered(c: real, t: real, limit: real, m: real)
    requires limit == c * t
    ensures limit * m == c * (m * t)
  {
  }

  // Then, if the change of velocity is admissible too, the tick arrives at the
  // velocity that covers the distance in that time, and leaves the rest of it.
  lemma UnhinderedStep(p: Params, s: Joint, target: real, rise: real, ramp: real, u: real, a: real)
    requires p.Valid() && p.geo.Free? && Moves(p.lim) && Times(p.lim, rise, ramp) && Within(s.acc, p.lim.amax)
    requires Unhindered(p.lim, target - s.pos, Longer(rise + ramp, p.dt))
    requires u * Longer(rise + ramp, p.dt) == target - s.pos
    requires a * p.dt == u - s.vel && Admissible(p, s.acc, a)
    ensures Step(p, s, target) == Joint(s.pos + u * p.dt, u, a)
  {
    hide IsSqrt, Times, Moves, Unhindered, Step, DesiredVel, Admissible;
    var t, dist := Longer(rise + ramp, p.dt), target - s.pos;
    UnhinderedDemand(p, dist, rise, ramp);
    SameFactor(DesiredVel(p, dist), u, t);
    TickWanting(p, s, target);
    DemandIsFastest(p, dist, rise, ramp);
    UnclampedTick(p, s, u, a);
    TickIsUnique(p, s, u, Step(p, s, target), Joint(s.pos + u * p.dt, u, a));
  }

  lemma UnclampedTick(p: Params, s: Joint, u: real, a: real)
    requires p.Valid() && p.geo.Free? && a * p.dt == u - s.vel && Admissible(p, s.acc, a) && Within(u, p.lim.vmax)
    ensures Tick(p, s, u, Joint(s.pos + u * p.dt, u, a))
  {
    hide IsSqrt, Admissible;
    assert Nearest(p, s.acc, u - s.vel, a) by {
      assert Abs(a * p.dt - (u - s.vel)) == 0.0;
    }
  }
}
