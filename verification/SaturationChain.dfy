// The mechanical shock limiter: a third-order saturation chain per joint.
// Arithmetic is over the reals.
module SaturationChain {
  import opened Reals

  // A tolerance; the source uses +infinity for a missing one.
  datatype Bound = Unlimited | AtMost(v: real)

  datatype Limits = Limits(vmax: Bound, amax: Bound, jmax: Bound) {
    predicate Valid() {
      && (vmax.AtMost? ==> vmax.v >= 0.0)
      && (amax.AtMost? ==> amax.v >= 0.0)
      && (jmax.AtMost? ==> jmax.v >= 0.0)
    }
  }

  // Geometric limits of a joint, if configured.
  datatype Geometry = Free | Range(lo: real, hi: real) {
    predicate Valid() {
      Range? ==> lo <= hi
    }

    predicate Contains(q: real) {
      Range? ==> lo <= q <= hi
    }
  }

  // State of one joint between ticks.
  datatype Joint = Joint(pos: real, vel: real, acc: real)

  const REST := Joint(0.0, 0.0, 0.0)

  // What stays fixed during a run of one joint.
  datatype Params = Params(sqrt: real -> real, dt: real, lim: Limits, geo: Geometry) {
    ghost predicate Valid() {
      IsSqrt(sqrt) && dt > 0.0 && lim.Valid() && geo.Valid()
    }
  }

  function Saturate(x: real, b: Bound): (y: real)
    requires b.AtMost? ==> b.v >= 0.0
  {
    if b.AtMost? then Clamp(x, -b.v, b.v) else x
  }

  // x within a tolerance.
  predicate Within(x: real, b: Bound) {
    b.AtMost? ==> -b.v <= x <= b.v
  }

  // ------------------------------------------------------------ The chain

  // What dividing, adding and the maximum make of non-negative f32 values:
  // something over zero is infinite, zero over zero is no number, and the
  // maximum ignores what is none.
  function Quotient(a: real, b: real): (q: Float)
    requires a >= 0.0 && b >= 0.0
    ensures q != NegInf
  {
    if b > 0.0 then Fin(a / b) else if a > 0.0 then PosInf else NaN
  }

  function Sum(a: Float, b: Float): (s: Float)
    requires a != NegInf && b != NegInf
    ensures s != NegInf
  {
    if a == NaN || b == NaN then NaN
    else if a == PosInf || b == PosInf then PosInf
    else Fin(a.r + b.r)
  }

  function AtLeast(x: Float, least: real): Float
    requires x != NegInf
  {
    match x
    case Fin(r) => Fin(if r > least then r else least)
    case PosInf => PosInf
    case NaN => Fin(least)
  }

  // Approach time constant; infinite for a tolerance of zero.
  function Tau(dt: real, lim: Limits): (tau: Float)
    requires lim.Valid() && dt > 0.0
    ensures tau == PosInf || (tau.Fin? && tau.r >= dt)
  {
    var fromVel := if lim.vmax.AtMost? && lim.amax.AtMost? then Quotient(lim.vmax.v, lim.amax.v) else Fin(0.0);
    var fromJerk := if lim.amax.AtMost? && lim.jmax.AtMost? then Quotient(lim.amax.v, lim.jmax.v) else Fin(0.0);
    AtLeast(Sum(fromVel, fromJerk), dt)
  }

  // The velocity that covers a distance in the time constant.
  function Pace(dist: real, tau: Float): real
    requires tau == PosInf || (tau.Fin? && tau.r > 0.0)
  {
    if tau.Fin? then dist / tau.r else 0.0
  }

  // The largest square of a velocity that can still be braked within a
  // distance.
  function Brakable(p: Params, dist: real): (b: real)
    requires p.Valid() && p.lim.amax.AtMost?
    ensures b >= 0.0
  {
    MulMono(0.0, Abs(dist), 2.0 * p.lim.amax.v);
    2.0 * p.lim.amax.v * Abs(dist)
  }

  // Fastest admissible velocity at a distance from the target.
  function SpeedLimit(p: Params, dist: real): (v: Bound)
    requires p.Valid()
    ensures v.AtMost? ==> v.v >= 0.0
  {
    if p.lim.amax.AtMost? then
      var stop := p.sqrt(Brakable(p, dist));
      AtMost(if p.lim.vmax.AtMost? && p.lim.vmax.v < stop then p.lim.vmax.v else stop)
    else p.lim.vmax
  }

  function DesiredVel(p: Params, dist: real): real
    requires p.Valid()
  {
    Saturate(Pace(dist, Tau(p.dt, p.lim)), SpeedLimit(p, dist))
  }

  // The acceleration may change by the jerk limit only.
  function LimitJerk(p: Params, prev: real, desired: real): real
    requires p.Valid()
  {
    if p.lim.jmax.AtMost? then
      assert p.lim.jmax.v * p.dt >= 0.0 by { MulMono(0.0, p.lim.jmax.v, p.dt); }
      Saturate(desired - prev, AtMost(p.lim.jmax.v * p.dt)) + prev
    else desired
  }

  // Acceleration of this tick, given the raw demand and the previous tick's.
  function NextAcc(p: Params, prev: real, raw: real): real
    requires p.Valid()
  {
    Saturate(LimitJerk(p, prev, Saturate(raw, p.lim.amax)), p.lim.amax)
  }

  // The acceleration that leads from one velocity to another in a tick.
  function RawAcc(p: Params, wanted: real, vel: real): real
    requires p.Valid()
  {
    (wanted - vel) / p.dt
  }

  function Demand(p: Params, s: Joint, target: real): real
    requires p.Valid()
  {
    RawAcc(p, DesiredVel(p, target - s.pos), s.vel)
  }

  // Where an acceleration leads the velocity, and a velocity the position.
  function NextVel(p: Params, vel: real, a: real): real
    requires p.Valid()
  {
    Saturate(vel + a * p.dt, p.lim.vmax)
  }

  function Confined(geo: Geometry, q: real): real
    requires geo.Valid()
  {
    if geo.Range? then Clamp(q, geo.lo, geo.hi) else q
  }

  function NextPos(p: Params, pos: real, v: real): real
    requires p.Valid()
  {
    Confined(p.geo, pos + v * p.dt)
  }

  function Integrate(p: Params, s: Joint, a: real): Joint
    requires p.Valid()
  {
    var v := NextVel(p, s.vel, a);
    Joint(NextPos(p, s.pos, v), v, a)
  }

  function Step(p: Params, s: Joint, target: real): Joint
    requires p.Valid()
  {
    Integrate(p, s, NextAcc(p, s.acc, Demand(p, s, target)))
  }

  // -------------------------------------------- What each stage achieves

  function Square(x: real): real {
    x * x
  }

  lemma SpeedLimitIsTight(p: Params, dist: real)
    requires p.Valid()
    ensures var b := SpeedLimit(p, dist);
            && (p.lim.vmax.AtMost? ==> b.AtMost? && b.v <= p.lim.vmax.v)
            && (p.lim.amax.AtMost? ==> b.AtMost? && Square(b.v) <= Brakable(p, dist))
            && (b.AtMost? ==> || (p.lim.vmax.AtMost? && b.v == p.lim.vmax.v)
                              || (p.lim.amax.AtMost? && Square(b.v) == Brakable(p, dist)))
  {
    if p.lim.amax.AtMost? {
      var stop := p.sqrt(Brakable(p, dist));
      assert stop >= 0.0 && stop * stop == Brakable(p, dist);
      if p.lim.vmax.AtMost? && p.lim.vmax.v < stop {
        SquareMono(p.lim.vmax.v, stop);
      }
    }
  }

  // A velocity points to the target and, kept for the time constant, does not
  // pass it.
  predicate Approaches(v: real, dist: real, tau: Float) {
    v * dist >= 0.0 && if tau.Fin? then Abs(v) * tau.r <= Abs(dist) else v == 0.0
  }

  // It reaches the target in the time constant, if that is finite.
  predicate Arrives(v: real, dist: real, tau: Float) {
    tau.Fin? ==> v * tau.r == dist
  }

  // The demanded velocity approaches the target within the speed limit and the
  // braking distance, and is the fastest such velocity: it arrives in the time
  // constant, or reaches the velocity limit, or the braking distance.
  lemma DesiredVelIsFastest(p: Params, dist: real)
    requires p.Valid()
    ensures var v, tau := DesiredVel(p, dist), Tau(p.dt, p.lim);
            && Approaches(v, dist, tau)
            && Within(v, p.lim.vmax)
            && (p.lim.amax.AtMost? ==> Square(v) <= Brakable(p, dist))
            && (|| Arrives(v, dist, tau)
                || (p.lim.vmax.AtMost? && Abs(v) == p.lim.vmax.v)
                || (p.lim.amax.AtMost? && Square(v) == Brakable(p, dist)))
  {
    hide SpeedLimit, Tau, IsSqrt, Brakable, Saturate, Square, Approaches, Arrives, Pace;
    SpeedLimitIsTight(p, dist);
    ShortenedApproach(dist, Tau(p.dt, p.lim), SpeedLimit(p, dist));
  }

  lemma ShortenedApproach(dist: real, tau: Float, b: Bound)
    requires tau == PosInf || (tau.Fin? && tau.r > 0.0)
    requires b.AtMost? ==> b.v >= 0.0
    ensures var v := Saturate(Pace(dist, tau), b);
            && Approaches(v, dist, tau)
            && (b.AtMost? ==> Abs(v) <= b.v && Square(v) <= Square(b.v))
            && (Arrives(v, dist, tau) || (b.AtMost? && Abs(v) == b.v && Square(v) == Square(b.v)))
  {
    hide Saturate, Abs, Square;
    var u, v := Pace(dist, tau), Saturate(Pace(dist, tau), b);
    SaturatedSpeed(u, b);
    if tau.Fin? {
      DivMul(dist, tau.r);
      DivSign(dist, tau.r);
      Approach(u, v, tau.r, dist);
    }
    SquareOfAbs(v);
    if b.AtMost? {
      SquareMono(v, b.v);
    }
  }

  // A saturated velocity is a shortened one: unchanged, or as fast as allowed.
  lemma SaturatedSpeed(u: real, b: Bound)
    requires b.AtMost? ==> b.v >= 0.0
    ensures var v := Saturate(u, b);
            && Abs(v) <= Abs(u)
            && (u >= 0.0 ==> 0.0 <= v) && (u <= 0.0 ==> v <= 0.0)
            && (b.AtMost? ==> Abs(v) <= b.v && (v == u || Abs(v) == b.v))
            && (b.Unlimited? ==> v == u)
  {
  }

  // Shortening a velocity keeps its direction and covers less distance.
  lemma Approach(u: real, v: real, tau: real, dist: real)
    requires tau > 0.0 && u * tau == dist && Abs(v) <= Abs(u)
    requires (dist >= 0.0 ==> 0.0 <= v) && (dist <= 0.0 ==> v <= 0.0)
    ensures Approaches(v, dist, Fin(tau))
  {
    AbsMul(u, tau);
    MulMono(Abs(v), Abs(u), tau);
    if dist >= 0.0 {
      MulMono(0.0, v, dist);
    } else {
      MulMono(v, 0.0, -dist);
    }
  }

  lemma SquareOfAbs(v: real)
    ensures Square(v) == Square(Abs(v))
  {
  }

  lemma DivSign(a: real, b: real)
    requires b > 0.0
    ensures (a >= 0.0 ==> a / b >= 0.0) && (a <= 0.0 ==> a / b <= 0.0)
  {
  }

  lemma AbsMul(u: real, tau: real)
    requires tau > 0.0
    ensures Abs(u * tau) == Abs(u) * tau
  {
  }

  lemma SquareMono(v: real, stop: real)
    requires Abs(v) <= stop
    ensures Square(v) <= Square(stop)
  {
    MulMono(Abs(v), stop, stop);
    MulMono(Abs(v), stop, Abs(v));
    assert v * v == Abs(v) * Abs(v);
  }

  lemma SquareStrict(r: real, c: real)
    requires 0.0 <= r < c
    ensures Square(r) < Square(c)
  {
    MulStrict(r - c, 0.0, r + c);
    assert (r - c) * (r + c) == r * r - c * c;
  }

  // Accelerations the limits admit after `prev`.
  predicate Admissible(p: Params, prev: real, a: real) {
    Within(a, p.lim.amax) && (p.lim.jmax.AtMost? ==> Abs(a - prev) <= p.lim.jmax.v * p.dt)
  }

  // The last clamp cannot break the jerk limit ...
  lemma NextAccIsAdmissible(p: Params, prev: real, raw: real)
    requires p.Valid() && Within(prev, p.lim.amax)
    ensures Admissible(p, prev, NextAcc(p, prev, raw))
  {
    if p.lim.jmax.AtMost? {
      MulMono(0.0, p.lim.jmax.v, p.dt);
    }
  }

  // ... and the three saturations together project the raw demand onto the
  // admissible accelerations: none of them is closer to it.
  lemma NextAccIsProjection(p: Params, prev: real, raw: real, b: real)
    requires p.Valid() && Within(prev, p.lim.amax) && Admissible(p, prev, b)
    ensures Abs(NextAcc(p, prev, raw) - raw) <= Abs(b - raw)
  {
    hide IsSqrt, Saturate, Abs;
    var x := Saturate(raw, p.lim.amax);
    if p.lim.jmax.AtMost? {
      MulMono(0.0, p.lim.jmax.v, p.dt);
      var step := p.lim.jmax.v * p.dt;
      ThreeClamps(raw, prev, b, p.lim.amax, step);
      assert LimitJerk(p, prev, x) == Saturate(x - prev, AtMost(step)) + prev;
    } else {
      TwoClamps(raw, b, p.lim.amax);
    }
  }

  lemma ThreeClamps(raw: real, prev: real, b: real, amax: Bound, step: real)
    requires (amax.AtMost? ==> amax.v >= 0.0) && step >= 0.0
    requires Within(prev, amax) && Within(b, amax) && Abs(b - prev) <= step
    ensures Abs(Saturate(Saturate(Saturate(raw, amax) - prev, AtMost(step)) + prev, amax) - raw) <= Abs(b - raw)
  {
  }

  lemma TwoClamps(raw: real, b: real, amax: Bound)
    requires (amax.AtMost? ==> amax.v >= 0.0) && Within(b, amax)
    ensures Abs(Saturate(Saturate(raw, amax), amax) - raw) <= Abs(b - raw)
  {
  }

  // ------------------------------------------------------- One tick

  // The state respects its velocity and acceleration limits.
  predicate Bounded(lim: Limits, s: Joint) {
    Within(s.vel, lim.vmax) && Within(s.acc, lim.amax)
  }

  // Limits on the change of state, and on the move, from one tick to the next.
  predicate SmoothStep(p: Params, s: Joint, t: Joint) {
    && (p.lim.jmax.AtMost? ==> Abs(t.acc - s.acc) <= p.lim.jmax.v * p.dt)
    && (p.lim.amax.AtMost? ==> Abs(t.vel - s.vel) <= p.lim.amax.v * p.dt)
    && p.geo.Contains(t.pos)
    && (p.geo.Contains(s.pos) && p.lim.vmax.AtMost? ==> Abs(t.pos - s.pos) <= p.lim.vmax.v * p.dt)
  }

  lemma ScaledWithin(x: real, b: real, dt: real)
    requires -b <= x <= b && dt > 0.0
    ensures Abs(x * dt) <= b * dt
  {
    MulMono(x, b, dt);
    MulMono(-b, x, dt);
  }

  // Saturating a number moves it no farther from an admissible one.
  lemma SaturateNear(x: real, y: real, b: Bound)
    requires (b.AtMost? ==> b.v >= 0.0) && Within(y, b)
    ensures Within(Saturate(x, b), b) && Abs(Saturate(x, b) - y) <= Abs(x - y)
  {
  }

  lemma VelocityIsSmooth(p: Params, s: Joint, a: real)
    requires p.Valid() && Within(s.vel, p.lim.vmax) && Within(a, p.lim.amax)
    ensures var t := Integrate(p, s, a);
            && Within(t.vel, p.lim.vmax)
            && (p.lim.amax.AtMost? ==> Abs(t.vel - s.vel) <= p.lim.amax.v * p.dt)
  {
    var dv := a * p.dt;
    SaturateNear(s.vel + dv, s.vel, p.lim.vmax);
    if p.lim.amax.AtMost? {
      ScaledWithin(a, p.lim.amax.v, p.dt);
    }
  }

  lemma PositionIsSmooth(p: Params, s: Joint, a: real)
    requires p.Valid() && Within(Integrate(p, s, a).vel, p.lim.vmax)
    ensures var t := Integrate(p, s, a);
            && p.geo.Contains(t.pos)
            && (p.geo.Contains(s.pos) && p.lim.vmax.AtMost? ==> Abs(t.pos - s.pos) <= p.lim.vmax.v * p.dt)
  {
    hide Saturate, IsSqrt;
    var t := Integrate(p, s, a);
    var dq := t.vel * p.dt;
    if p.lim.vmax.AtMost? {
      ScaledWithin(t.vel, p.lim.vmax.v, p.dt);
    }
    if p.geo.Range? && p.geo.Contains(s.pos) {
      ClampNonExpansive(s.pos + dq, s.pos, p.geo.lo, p.geo.hi);
    }
  }

  lemma StepIsSmooth(p: Params, s: Joint, target: real)
    requires p.Valid() && Bounded(p.lim, s)
    ensures Bounded(p.lim, Step(p, s, target)) && SmoothStep(p, s, Step(p, s, target))
  {
    hide Demand, NextAcc, IsSqrt, Integrate, Abs;
    var a := NextAcc(p, s.acc, Demand(p, s, target));
    NextAccIsAdmissible(p, s.acc, Demand(p, s, target));
    VelocityIsSmooth(p, s, a);
    PositionIsSmooth(p, s, a);
    IntegrateKeepsAcc(p, s, a);
  }

  lemma IntegrateKeepsAcc(p: Params, s: Joint, a: real)
    requires p.Valid()
    ensures Integrate(p, s, a).acc == a
  {
  }

  // A position outside the geometric limits is moved onto them at once, however
  // far that is. The move stays within the velocity limit, for every target, if
  // and only if the limits come within one tick's reach.
  lemma MoveBoundExactly(p: Params, s: Joint, target: real)
    requires p.Valid() && Bounded(p.lim, s) && p.lim.vmax.AtMost? && p.geo.Range?
    ensures var reach := p.lim.vmax.v * p.dt;
            Abs(Step(p, s, target).pos - s.pos) <= reach <==>
            p.geo.lo <= s.pos + reach && p.geo.hi >= s.pos - reach
  {
    hide Demand, NextAcc, IsSqrt;
    ScaledWithin(Step(p, s, target).vel, p.lim.vmax.v, p.dt);
  }

  // Undone by integrating, the raw acceleration leads to the wanted velocity.
  lemma NextVelReaches(p: Params, vel: real, wanted: real)
    requires p.Valid() && Within(wanted, p.lim.vmax)
    ensures NextVel(p, vel, RawAcc(p, wanted, vel)) == wanted
  {
    hide IsSqrt;
    DivMul(wanted - vel, p.dt);
    NextVelIs(p, vel, RawAcc(p, wanted, vel), wanted);
  }

  lemma NextVelIs(p: Params, vel: real, a: real, x: real)
    requires p.Valid() && x == vel + a * p.dt
    ensures NextVel(p, vel, a) == Saturate(x, p.lim.vmax)
  {
    hide IsSqrt;
  }

  // The share of the tick in the time constant, and what it leaves of a
  // distance.
  function Share(dt: real, tau: real): real
    requires tau > 0.0
  {
    dt / tau
  }

  function Left(dist: real, share: real): real {
    dist * (1.0 - share)
  }

  // Where nothing saturates, the tick removes its share of the distance: a
  // first-order approach that cannot overshoot.
  lemma UnsaturatedStep(p: Params, s: Joint, target: real)
    requires p.Valid() && p.geo.Free? && Tau(p.dt, p.lim).Fin?
    requires var u := Pace(target - s.pos, Tau(p.dt, p.lim));
             && Within(u, SpeedLimit(p, target - s.pos)) && Within(u, p.lim.vmax)
             && Admissible(p, s.acc, RawAcc(p, u, s.vel))
    ensures var dist, tau := target - s.pos, Tau(p.dt, p.lim).r;
            && Step(p, s, target).vel == Pace(dist, Fin(tau))
            && target - Step(p, s, target).pos == Left(dist, Share(p.dt, tau))
            && 0.0 < Share(p.dt, tau) <= 1.0
  {
    var dist, tau := target - s.pos, Tau(p.dt, p.lim).r;
    hide IsSqrt, SpeedLimit, Tau, NextAcc, Admissible, RawAcc, NextVel, NextPos, Pace, Left, Share, Step;
    var u := Pace(dist, Fin(tau));
    UnclampedAcc(p, s.acc, RawAcc(p, u, s.vel));
    NextVelReaches(p, s.vel, u);
    UnsaturatedMove(p, s, target, u);
    PacedMove(p, s.pos, dist, tau);
  }

  lemma PacedMove(p: Params, pos: real, dist: real, tau: real)
    requires p.Valid() && p.geo.Free? && p.dt <= tau
    ensures NextPos(p, pos, Pace(dist, Fin(tau))) == pos + dist - Left(dist, Share(p.dt, tau))
    ensures 0.0 < Share(p.dt, tau) <= 1.0
  {
    hide IsSqrt, Pace, Left, Share, NextPos;
    var u := Pace(dist, Fin(tau));
    NextPosIs(p, pos, u, pos + u * p.dt);
    FractionOf(dist, p.dt, tau);
  }

  lemma UnsaturatedMove(p: Params, s: Joint, target: real, u: real)
    requires p.Valid() && DesiredVel(p, target - s.pos) == u
    requires NextAcc(p, s.acc, RawAcc(p, u, s.vel)) == RawAcc(p, u, s.vel)
    requires NextVel(p, s.vel, RawAcc(p, u, s.vel)) == u
    ensures Step(p, s, target).vel == u && Step(p, s, target).pos == NextPos(p, s.pos, u)
  {
    hide IsSqrt, DesiredVel, NextAcc, RawAcc, NextVel, NextPos;
  }

  lemma NextPosIs(p: Params, pos: real, v: real, q: real)
    requires p.Valid() && q == pos + v * p.dt
    ensures NextPos(p, pos, v) == Confined(p.geo, q)
  {
    hide IsSqrt;
  }

  lemma UnclampedAcc(p: Params, prev: real, raw: real)
    requires p.Valid() && Admissible(p, prev, raw)
    ensures NextAcc(p, prev, raw) == raw
  {
    hide IsSqrt;
  }

  lemma FractionOf(dist: real, dt: real, tau: real)
    requires 0.0 < dt <= tau
    ensures Pace(dist, Fin(tau)) * dt == dist - Left(dist, Share(dt, tau))
    ensures 0.0 < Share(dt, tau) <= 1.0
  {
    DivMul(dt, tau);
    DivMul(dist, tau);
    ShareOf(dist, dt, tau, dt / tau, dist / tau);
    ShareBounds(dt, tau, dt / tau);
  }

  lemma ShareOf(dist: real, dt: real, tau: real, f: real, u: real)
    requires f * tau == dt && u * tau == dist
    ensures u * dt == dist - dist * (1.0 - f)
  {
    MulSwap(u, f, tau);
  }

  lemma ShareBounds(dt: real, tau: real, f: real)
    requires f * tau == dt && 0.0 < dt <= tau
    ensures 0.0 < f <= 1.0
  {
    if f <= 0.0 { MulMono(f, 0.0, tau); }
    if f > 1.0 { MulStrict(1.0, f, tau); }
  }
}
