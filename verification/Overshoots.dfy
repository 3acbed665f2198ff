// Overshoot of the shock limiter: the velocity is limited so that the joint can
// stop within the remaining distance, yet a tick may still carry it past the
// target. When exactly, and from which commands.
module Overshoots {
  import opened Basics
  import opened Reals
  import opened SaturationChain
  import opened JerkRuns

  // The strongest deceleration the limits admit after `prev`, if they set one.
  function LowestAcc(p: Params, prev: real): Option<real>
    requires p.Valid()
  {
    if p.lim.jmax.AtMost? then
      var a := prev - p.lim.jmax.v * p.dt;
      Some(if p.lim.amax.AtMost? && -p.lim.amax.v > a then -p.lim.amax.v else a)
    else if p.lim.amax.AtMost? then Some(-p.lim.amax.v)
    else None
  }

  // The limiter decelerates less than demanded only at that bound.
  lemma AccAgainstLowest(p: Params, prev: real, raw: real)
    requires p.Valid() && Within(prev, p.lim.amax)
    ensures var a, low := NextAcc(p, prev, raw), LowestAcc(p, prev);
            && (low.Some? ==> low.value <= a)
            && (a > raw ==> low.Some? && a == low.value)
  {
    hide IsSqrt;
    if p.lim.jmax.AtMost? {
      MulMono(0.0, p.lim.jmax.v, p.dt);
    }
  }

  // A velocity passes a point `dist` ahead within the tick.
  predicate Passes(p: Params, v: real, dist: real) {
    v * p.dt > dist
  }

  // Even the strongest admissible braking passes a target `dist` ahead.
  predicate TooFast(p: Params, s: Joint, dist: real)
    requires p.Valid()
  {
    LowestAcc(p, s.acc).Some? && Passes(p, NextVel(p, s.vel, LowestAcc(p, s.acc).value), dist)
  }

  // The target is ahead, and the geometric limits either let the joint pass it
  // or begin behind it.
  predicate MustPass(p: Params, s: Joint, target: real)
    requires p.Valid()
  {
    && s.pos <= target
    && match p.geo
       case Free => TooFast(p, s, target - s.pos)
       case Range(lo, hi) => target < lo || (target < hi && TooFast(p, s, target - s.pos))
  }

  lemma NextVelMono(p: Params, vel: real, a: real, b: real)
    requires p.Valid() && a <= b
    ensures NextVel(p, vel, a) <= NextVel(p, vel, b)
  {
    hide IsSqrt, Saturate, NextVel;
    MulMono(a, b, p.dt);
    var x, y := vel + a * p.dt, vel + b * p.dt;
    NextVelIs(p, vel, a, x);
    NextVelIs(p, vel, b, y);
    SaturateMono(x, y, p.lim.vmax);
  }

  lemma SaturateMono(x: real, y: real, b: Bound)
    requires x <= y && (b.AtMost? ==> b.v >= 0.0)
    ensures Saturate(x, b) <= Saturate(y, b)
  {
  }

  lemma PassesMono(p: Params, v: real, w: real, dist: real)
    requires p.Valid() && v <= w && Passes(p, v, dist)
    ensures Passes(p, w, dist)
  {
    MulMono(v, w, p.dt);
  }

  // The demanded velocity never passes the target in one tick.
  lemma DemandStaysShort(p: Params, dist: real)
    requires p.Valid() && dist >= 0.0
    ensures !Passes(p, DesiredVel(p, dist), dist) && Within(DesiredVel(p, dist), p.lim.vmax)
  {
    hide DesiredVel, IsSqrt, Tau, Brakable, Approaches;
    DesiredVelIsFastest(p, dist);
    ApproachStaysShort(DesiredVel(p, dist), dist, Tau(p.dt, p.lim), p.dt);
  }

  lemma ApproachStaysShort(v: real, dist: real, tau: Float, dt: real)
    requires Approaches(v, dist, tau) && dist >= 0.0 && dt > 0.0
    requires tau == PosInf || (tau.Fin? && tau.r >= dt)
    ensures v * dt <= dist
  {
    if tau.Fin? {
      MulMono(dt, tau.r, Abs(v));
      MulMono(v, Abs(v), dt);
    }
  }

  // Where the raw demand leads.
  lemma DemandedVelocity(p: Params, s: Joint, target: real)
    requires p.Valid() && Within(DesiredVel(p, target - s.pos), p.lim.vmax)
    ensures NextVel(p, s.vel, Demand(p, s, target)) == DesiredVel(p, target - s.pos)
  {
    hide IsSqrt, DesiredVel, NextVel, RawAcc;
    NextVelReaches(p, s.vel, DesiredVel(p, target - s.pos));
  }

  lemma VelocityOf(p: Params, s: Joint, target: real)
    requires p.Valid()
    ensures Step(p, s, target).vel == NextVel(p, s.vel, NextAcc(p, s.acc, Demand(p, s, target)))
    ensures Step(p, s, target).pos == NextPos(p, s.pos, Step(p, s, target).vel)
  {
    hide IsSqrt, NextAcc, Demand, NextVel, NextPos;
  }

  lemma PositionPasses(p: Params, pos: real, v: real, target: real)
    requires p.Valid()
    ensures NextPos(p, pos, v) > target <==>
            match p.geo
            case Free => Passes(p, v, target - pos)
            case Range(lo, hi) => target < lo || (target < hi && Passes(p, v, target - pos))
  {
    hide IsSqrt, NextPos;
    NextPosIs(p, pos, v, pos + v * p.dt);
  }

  // The tick's velocity passes a target ahead exactly if the joint is too fast.
  lemma VelocityPasses(p: Params, s: Joint, target: real)
    requires p.Valid() && Bounded(p.lim, s) && target >= s.pos
    ensures Passes(p, Step(p, s, target).vel, target - s.pos) <==> TooFast(p, s, target - s.pos)
  {
    hide IsSqrt, NextAcc, Demand, DesiredVel, Step, LowestAcc, NextVel, NextPos, Passes;
    var dist, raw, low := target - s.pos, Demand(p, s, target), LowestAcc(p, s.acc);
    var a := NextAcc(p, s.acc, raw);
    VelocityOf(p, s, target);
    AccAgainstLowest(p, s.acc, raw);
    DemandStaysShort(p, dist);
    DemandedVelocity(p, s, target);
    if a <= raw {
      NextVelMono(p, s.vel, a, raw);
      if Passes(p, NextVel(p, s.vel, a), dist) {
        PassesMono(p, NextVel(p, s.vel, a), NextVel(p, s.vel, raw), dist);
      }
      if TooFast(p, s, dist) {
        NextVelMono(p, s.vel, low.value, a);
        PassesMono(p, NextVel(p, s.vel, low.value), NextVel(p, s.vel, a), dist);
      }
    }
  }

  lemma OvershootAhead(p: Params, s: Joint, target: real)
    requires p.Valid() && Bounded(p.lim, s) && target >= s.pos
    ensures Step(p, s, target).pos > target <==> MustPass(p, s, target)
  {
    hide IsSqrt, NextAcc, Demand, Step, NextVel, NextPos, Passes, TooFast;
    VelocityOf(p, s, target);
    PositionPasses(p, s.pos, Step(p, s, target).vel, target);
    VelocityPasses(p, s, target);
  }

  // A tick passes its target exactly if, ahead or mirrored, the joint is too
  // fast for the strongest braking its limits admit and the geometric limits
  // let it pass; or if they begin behind the target.
  lemma OvershootExactly(p: Params, s: Joint, target: real)
    requires p.Valid() && Bounded(p.lim, s)
    ensures var q := Step(p, s, target).pos;
            (s.pos <= target && q > target) || (s.pos >= target && q < target) <==>
            MustPass(p, s, target) || MustPass(p.(geo := MirrorGeo(p.geo)), Mirror(s), -target)
  {
    hide IsSqrt, Step, TooFast;
    if target >= s.pos {
      OvershootAhead(p, s, target);
    }
    if target <= s.pos {
      StepIsOdd(p, s, target);
      OvershootAhead(p.(geo := MirrorGeo(p.geo)), Mirror(s), -target);
    }
  }

  // Without acceleration and jerk limits no tick passes a target inside the
  // geometric limits.
  lemma NeverWithoutBraking(p: Params, s: Joint, target: real)
    requires p.Valid() && p.geo.Contains(target) && Bounded(p.lim, s)
    requires p.lim.amax.Unlimited? && p.lim.jmax.Unlimited?
    ensures var q := Step(p, s, target).pos;
            (target >= s.pos ==> q <= target) && (target <= s.pos ==> q >= target)
  {
    hide IsSqrt, Step;
    OvershootExactly(p, s, target);
  }

  // --------------------------------------------------------- A witness

  // One radian per second squared, one tick per second.
  function Slow(sqrt: real -> real): Params {
    Params(sqrt, 1.0, Limits(Unlimited, AtMost(1.0), Unlimited), Free)
  }

  lemma RootSquared(sqrt: real -> real, x: real)
    requires IsSqrt(sqrt) && x >= 0.0
    ensures sqrt(x) >= 0.0 && Square(sqrt(x)) == x
  {
  }

  lemma RootAtLeast(sqrt: real -> real, x: real, c: real)
    requires IsSqrt(sqrt) && x >= 0.0 && Square(c) <= x
    ensures sqrt(x) >= c
  {
    hide Square, IsSqrt;
    RootSquared(sqrt, x);
    if sqrt(x) < c {
      SquareStrict(sqrt(x), c);
    }
  }

  lemma SlowIsValid(sqrt: real -> real)
    requires IsSqrt(sqrt)
    ensures Slow(sqrt).Valid()
  {
  }

  lemma SlowTau(sqrt: real -> real)
    requires Slow(sqrt).Valid()
    ensures Tau(Slow(sqrt).dt, Slow(sqrt).lim) == Fin(1.0)
  {
    hide IsSqrt, Quotient;
  }

  lemma UnitPace(dist: real)
    ensures Pace(dist, Fin(1.0)) == dist
  {
  }

  lemma SlowBraking(sqrt: real -> real, dist: real)
    requires IsSqrt(sqrt) && dist >= 0.0 && Slow(sqrt).Valid()
    ensures SpeedLimit(Slow(sqrt), dist) == AtMost(sqrt(2.0 * dist)) && sqrt(2.0 * dist) >= 0.0
  {
    hide IsSqrt;
    RootSquared(sqrt, 2.0 * dist);
    assert Brakable(Slow(sqrt), dist) == 2.0 * dist;
  }

  lemma SlowLimit(sqrt: real -> real, dist: real)
    requires IsSqrt(sqrt) && dist >= 0.0 && Slow(sqrt).Valid()
    ensures sqrt(2.0 * dist) >= 0.0
    ensures DesiredVel(Slow(sqrt), dist) == Saturate(dist, AtMost(sqrt(2.0 * dist)))
  {
    hide IsSqrt, Saturate, Slow, Pace, Tau, SpeedLimit;
    SlowTau(sqrt);
    UnitPace(dist);
    SlowBraking(sqrt, dist);
  }

  // A velocity below the distance and its square root is demanded.
  lemma SlowDemand(sqrt: real -> real, dist: real, c: real)
    requires IsSqrt(sqrt) && dist >= c >= 0.0 && Square(c) <= 2.0 * dist && Slow(sqrt).Valid()
    ensures DesiredVel(Slow(sqrt), dist) >= c
  {
    hide IsSqrt, DesiredVel, Square;
    SlowLimit(sqrt, dist);
    RootAtLeast(sqrt, 2.0 * dist, c);
  }

  // One unit up, or down, if the demand is at least that far away.
  lemma SlowAcc(sqrt: real -> real, prev: real, wanted: real, vel: real)
    requires Slow(sqrt).Valid()
    ensures wanted >= vel + 1.0 ==> NextAcc(Slow(sqrt), prev, RawAcc(Slow(sqrt), wanted, vel)) == 1.0
    ensures wanted <= vel - 1.0 ==> NextAcc(Slow(sqrt), prev, RawAcc(Slow(sqrt), wanted, vel)) == -1.0
  {
    hide IsSqrt;
    assert RawAcc(Slow(sqrt), wanted, vel) == wanted - vel;
  }

  lemma SlowMove(sqrt: real -> real, s: Joint, a: real)
    requires Slow(sqrt).Valid()
    ensures Integrate(Slow(sqrt), s, a) == Joint(s.pos + (s.vel + a), s.vel + a, a)
  {
    hide IsSqrt, NextVel, NextPos;
    NextVelIs(Slow(sqrt), s.vel, a, s.vel + a);
    NextPosIs(Slow(sqrt), s.pos, s.vel + a, s.pos + (s.vel + a));
  }

  lemma SlowStep(sqrt: real -> real, s: Joint, target: real)
    requires IsSqrt(sqrt) && target - s.pos >= s.vel + 1.0 >= 0.0
    requires Square(s.vel + 1.0) <= 2.0 * (target - s.pos)
    ensures Slow(sqrt).Valid()
    ensures Step(Slow(sqrt), s, target) == Joint(s.pos + (s.vel + 1.0), s.vel + 1.0, 1.0)
  {
    hide IsSqrt, DesiredVel, NextAcc, Integrate, RawAcc, Slow, Square;
    SlowIsValid(sqrt);
    SlowDemand(sqrt, target - s.pos, s.vel + 1.0);
    SlowAcc(sqrt, s.acc, DesiredVel(Slow(sqrt), target - s.pos), s.vel);
    SlowMove(sqrt, s, 1.0);
  }

  lemma SlowStop(sqrt: real -> real, s: Joint)
    requires IsSqrt(sqrt) && s.vel >= 1.0
    ensures Slow(sqrt).Valid()
    ensures Step(Slow(sqrt), s, s.pos) == Joint(s.pos + (s.vel - 1.0), s.vel - 1.0, -1.0)
  {
    hide IsSqrt, DesiredVel, NextAcc, Integrate, RawAcc, Slow;
    SlowIsValid(sqrt);
    SlowRest(sqrt);
    SlowAcc(sqrt, s.acc, DesiredVel(Slow(sqrt), s.pos - s.pos), s.vel);
    SlowMove(sqrt, s, -1.0);
  }

  lemma SlowRest(sqrt: real -> real)
    requires IsSqrt(sqrt) && Slow(sqrt).Valid()
    ensures DesiredVel(Slow(sqrt), 0.0) == 0.0
  {
    hide IsSqrt, DesiredVel;
    SlowLimit(sqrt, 0.0);
  }

  // From rest and towards one fixed target, with only an acceleration limit:
  // three ticks lead to 1, 3 and 4 for the target 3.
  lemma FixedTargetOvershoots(sqrt: real -> real)
    requires IsSqrt(sqrt)
    ensures Slow(sqrt).Valid()
    ensures Run(Slow(sqrt), REST, Hold(3.0, 3))[3].pos == 4.0
  {
    hide Step, IsSqrt, Run;
    SlowStep(sqrt, REST, 3.0);
    var p, ins := Slow(sqrt), Hold(3.0, 3);
    assert p == At(p, Input(3.0, Free));
    RunSteps(p, REST, ins, 0);
    RunSteps(p, REST, ins, 1);
    RunSteps(p, REST, ins, 2);
    SlowStep(sqrt, Joint(1.0, 1.0, 1.0), 3.0);
    SlowStop(sqrt, Joint(3.0, 2.0, 1.0));
  }
}
