// Whole runs of one joint of the shock limiter.
module JerkRuns {
  import opened Reals
  import opened SaturationChain

  // What one joint is given in one tick; geometric limits may differ from tick
  // to tick.
  datatype Input = Input(target: real, geo: Geometry)

  predicate Runnable(ins: seq<Input>) {
    forall k | 0 <= k < |ins| :: ins[k].geo.Valid()
  }

  function At(p: Params, i: Input): Params {
    p.(geo := i.geo)
  }

  // The states before, between and after the ticks.
  function Run(p: Params, s: Joint, ins: seq<Input>): (states: seq<Joint>)
    requires p.Valid() && Runnable(ins)
    ensures |states| == |ins| + 1 && states[0] == s
    decreases |ins|
  {
    if ins == [] then [s]
    else [s] + Run(p, Step(At(p, ins[0]), s, ins[0].target), ins[1..])
  }

  lemma {:induction false} RunSteps(p: Params, s: Joint, ins: seq<Input>, k: nat)
    requires p.Valid() && Runnable(ins) && k < |ins|
    ensures Run(p, s, ins)[k + 1] == Step(At(p, ins[k]), Run(p, s, ins)[k], ins[k].target)
    decreases k
  {
    hide Step, IsSqrt;
    var next := Step(At(p, ins[0]), s, ins[0].target);
    if k > 0 {
      RunSteps(p, next, ins[1..], k - 1);
    }
  }

  // ------------------------------------------------------- Smoothness

  // From rest, or from any state within the limits, every state of every run
  // is within the limits and every tick is smooth.
  lemma {:induction false} RunIsSmooth(p: Params, s: Joint, ins: seq<Input>, k: nat)
    requires p.Valid() && Runnable(ins) && Bounded(p.lim, s) && k <= |ins|
    ensures Bounded(p.lim, Run(p, s, ins)[k])
    ensures k < |ins| ==> SmoothStep(At(p, ins[k]), Run(p, s, ins)[k], Run(p, s, ins)[k + 1])
    decreases k
  {
    hide Step, IsSqrt, Run, SmoothStep, Bounded;
    if k > 0 {
      RunIsSmooth(p, s, ins, k - 1);
      RunSteps(p, s, ins, k - 1);
      StepIsSmooth(At(p, ins[k - 1]), Run(p, s, ins)[k - 1], ins[k - 1].target);
    }
    if k < |ins| {
      RunSteps(p, s, ins, k);
      StepIsSmooth(At(p, ins[k]), Run(p, s, ins)[k], ins[k].target);
    }
  }

  lemma RestIsBounded(lim: Limits)
    requires lim.Valid()
    ensures Bounded(lim, REST)
  {
  }

  predicate AllFree(ins: seq<Input>) {
    forall k | 0 <= k < |ins| :: ins[k].geo.Free?
  }

  lemma Move(p: Params, s: Joint, target: real, q: real)
    requires p.Valid() && q == s.pos + Step(p, s, target).vel * p.dt
    ensures Step(p, s, target).pos == Confined(p.geo, q)
  {
    hide IsSqrt, NextAcc, Demand, NextVel, NextPos, Confined;
    NextPosIs(p, s.pos, Step(p, s, target).vel, q);
  }

  // The emitted curve itself: without geometric limits its second difference
  // respects the acceleration limit, whatever the velocity limit clamps.
  lemma {:induction false} SecondDifference(p: Params, s: Joint, ins: seq<Input>, k: nat)
    requires p.Valid() && Runnable(ins) && AllFree(ins) && Bounded(p.lim, s)
    requires k + 2 <= |ins| && p.lim.amax.AtMost?
    ensures var q := Run(p, s, ins);
            Abs(q[k + 2].pos - 2.0 * q[k + 1].pos + q[k].pos) <= p.lim.amax.v * p.dt * p.dt
  {
    hide Step, IsSqrt, Run, Bounded, Abs, SmoothStep;
    var q := Run(p, s, ins);
    RunSteps(p, s, ins, k);
    RunSteps(p, s, ins, k + 1);
    Move(At(p, ins[k]), q[k], ins[k].target, q[k].pos + q[k + 1].vel * p.dt);
    Move(At(p, ins[k + 1]), q[k + 1], ins[k + 1].target, q[k + 1].pos + q[k + 2].vel * p.dt);
    RunIsSmooth(p, s, ins, k + 1);
    SmoothVel(At(p, ins[k + 1]), q[k + 1], q[k + 2]);
    SecondOfMoves(q[k].pos, q[k + 1].pos, q[k + 2].pos, q[k + 1].vel, q[k + 2].vel, p.dt, p.lim.amax.v);
  }

  // What a smooth tick says about the velocity, and about the acceleration.
  lemma SmoothVel(p: Params, s: Joint, t: Joint)
    requires SmoothStep(p, s, t) && p.lim.amax.AtMost?
    ensures Abs(t.vel - s.vel) <= p.lim.amax.v * p.dt
  {
  }

  lemma SmoothAcc(p: Params, s: Joint, t: Joint)
    requires SmoothStep(p, s, t) && p.lim.jmax.AtMost?
    ensures Abs(t.acc - s.acc) <= p.lim.jmax.v * p.dt
  {
  }

  // Three positions reached by two moves.
  lemma SecondOfMoves(q: real, q1: real, q2: real, v: real, w: real, dt: real, amax: real)
    requires q1 == q + v * dt && q2 == q1 + w * dt
    requires Abs(w - v) <= amax * dt && dt > 0.0
    ensures Abs(q2 - 2.0 * q1 + q) <= amax * dt * dt
  {
    ScaledAbs(w - v, amax * dt, dt);
    assert q2 - 2.0 * q1 + q == (w - v) * dt;
  }

  lemma ScaledAbs(x: real, b: real, dt: real)
    requires Abs(x) <= b && dt > 0.0
    ensures Abs(x * dt) <= b * dt
  {
    ScaledWithin(x, b, dt);
  }

  lemma UnlimitedVel(p: Params, s: Joint, target: real)
    requires p.Valid() && p.lim.vmax.Unlimited?
    ensures Step(p, s, target).vel == s.vel + Step(p, s, target).acc * p.dt
  {
    hide IsSqrt, NextAcc, Demand, NextVel, NextPos;
    var a := Step(p, s, target).acc;
    NextVelIs(p, s.vel, a, s.vel + a * p.dt);
  }

  // With the velocity unlimited as well, its third difference respects the
  // jerk limit.
  lemma {:induction false} ThirdDifference(p: Params, s: Joint, ins: seq<Input>, k: nat)
    requires p.Valid() && Runnable(ins) && AllFree(ins) && Bounded(p.lim, s)
    requires k + 3 <= |ins| && p.lim.vmax.Unlimited? && p.lim.jmax.AtMost?
    ensures var q := Run(p, s, ins);
            Abs(q[k + 3].pos - 3.0 * q[k + 2].pos + 3.0 * q[k + 1].pos - q[k].pos)
            <= p.lim.jmax.v * p.dt * p.dt * p.dt
  {
    hide Step, IsSqrt, Run, Bounded, Abs, SmoothStep;
    var q := Run(p, s, ins);
    FreeTick(p, s, ins, k);
    FreeTick(p, s, ins, k + 1);
    FreeTick(p, s, ins, k + 2);
    RunIsSmooth(p, s, ins, k + 2);
    SmoothAcc(At(p, ins[k + 2]), q[k + 2], q[k + 3]);
    ThirdOfMoves(q[k], q[k + 1], q[k + 2], q[k + 3], p.dt, p.lim.jmax.v);
  }

  lemma FreeTick(p: Params, s: Joint, ins: seq<Input>, k: nat)
    requires p.Valid() && Runnable(ins) && AllFree(ins) && p.lim.vmax.Unlimited? && k < |ins|
    ensures var q := Run(p, s, ins);
            && q[k + 1].vel == q[k].vel + q[k + 1].acc * p.dt
            && q[k + 1].pos == q[k].pos + q[k + 1].vel * p.dt
  {
    hide Step, IsSqrt, Run;
    RunSteps(p, s, ins, k);
    var q := Run(p, s, ins);
    Move(At(p, ins[k]), q[k], ins[k].target, q[k].pos + q[k + 1].vel * p.dt);
    UnlimitedVel(At(p, ins[k]), Run(p, s, ins)[k], ins[k].target);
  }

  // Four positions reached by three moves.
  lemma ThirdOfMoves(s0: Joint, s1: Joint, s2: Joint, s3: Joint, dt: real, jmax: real)
    requires s1.pos == s0.pos + s1.vel * dt
    requires s2.pos == s1.pos + s2.vel * dt && s2.vel == s1.vel + s2.acc * dt
    requires s3.pos == s2.pos + s3.vel * dt && s3.vel == s2.vel + s3.acc * dt
    requires Abs(s3.acc - s2.acc) <= jmax * dt && dt > 0.0
    ensures Abs(s3.pos - 3.0 * s2.pos + 3.0 * s1.pos - s0.pos) <= jmax * dt * dt * dt
  {
    var m1, m2, m3 := s1.vel * dt, s2.vel * dt, s3.vel * dt;
    var change := (s3.acc - s2.acc) * dt * dt;
    MovesDiffer(s1.vel, s2.vel, s3.vel, s2.acc, s3.acc, dt, m1, m2, m3, change);
    ThirdIsChange(s0.pos, s1.pos, s2.pos, s3.pos, m1, m2, m3, change);
    ChangeIsSmall(s3.acc - s2.acc, jmax, dt, change);
  }

  lemma ThirdIsChange(q0: real, q1: real, q2: real, q3: real, m1: real, m2: real, m3: real, change: real)
    requires q1 == q0 + m1 && q2 == q1 + m2 && q3 == q2 + m3 && m3 - 2.0 * m2 + m1 == change
    ensures Abs(q3 - 3.0 * q2 + 3.0 * q1 - q0) == Abs(change)
  {
  }

  lemma ChangeIsSmall(da: real, jmax: real, dt: real, change: real)
    requires Abs(da) <= jmax * dt && dt > 0.0 && change == da * dt * dt
    ensures Abs(change) <= jmax * dt * dt * dt
  {
    ScaledAbs(da, jmax * dt, dt);
    ScaledAbs(da * dt, jmax * dt * dt, dt);
  }

  lemma MovesDiffer(v1: real, v2: real, v3: real, a2: real, a3: real, dt: real, m1: real, m2: real, m3: real,
                    change: real)
    requires v2 == v1 + a2 * dt && v3 == v2 + a3 * dt
    requires m1 == v1 * dt && m2 == v2 * dt && m3 == v3 * dt && change == (a3 - a2) * dt * dt
    ensures m3 - 2.0 * m2 + m1 == change
  {
    Spread(v1, a2, v2, dt, m1, m2);
    Spread(v2, a3, v3, dt, m2, m3);
    Difference(a2, a3, dt);
  }

  lemma Spread(v: real, a: real, w: real, dt: real, m: real, n: real)
    requires w == v + a * dt && m == v * dt && n == w * dt
    ensures n == m + a * dt * dt
  {
  }

  lemma Difference(a: real, b: real, dt: real)
    ensures (b - a) * dt * dt == b * dt * dt - a * dt * dt
  {
  }

  // ------------------------------------------- The limiter as a rate limiter

  // Where acceleration and jerk are unlimited the tick moves at the demanded
  // velocity, whatever the previous one.
  lemma DemandIsMet(p: Params, s: Joint, target: real)
    requires p.Valid() && p.lim.amax.Unlimited? && p.lim.jmax.Unlimited?
    ensures Step(p, s, target).vel == DesiredVel(p, target - s.pos)
    ensures DesiredVel(p, target - s.pos) == Saturate((target - s.pos) / p.dt, p.lim.vmax)
  {
    hide IsSqrt, NextVel, NextPos, RawAcc, DesiredVel, Saturate;
    var wanted := DesiredVel(p, target - s.pos);
    UnlimitedDemand(p, target - s.pos);
    NextVelReaches(p, s.vel, wanted);
    UnlimitedAcc(p, s.acc, RawAcc(p, wanted, s.vel));
  }

  lemma UnlimitedDemand(p: Params, dist: real)
    requires p.Valid() && p.lim.amax.Unlimited? && p.lim.jmax.Unlimited?
    ensures DesiredVel(p, dist) == Saturate(dist / p.dt, p.lim.vmax)
    ensures Within(DesiredVel(p, dist), p.lim.vmax)
  {
    hide IsSqrt;
    assert Tau(p.dt, p.lim) == Fin(p.dt);
  }

  lemma UnlimitedAcc(p: Params, prev: real, raw: real)
    requires p.Valid() && p.lim.amax.Unlimited? && p.lim.jmax.Unlimited?
    ensures NextAcc(p, prev, raw) == raw
  {
    hide IsSqrt;
  }

  // Without limits the chain passes the target through.
  lemma Transparent(p: Params, s: Joint, target: real)
    requires p.Valid() && p.lim == Limits(Unlimited, Unlimited, Unlimited)
    ensures Step(p, s, target).pos == Confined(p.geo, target)
  {
    hide IsSqrt, Step, DesiredVel, Confined;
    var dist := target - s.pos;
    DemandIsMet(p, s, target);
    DivMul(dist, p.dt);
    Move(p, s, target, target);
  }

  predicate OnlyVelocity(p: Params) {
    p.lim.vmax.AtMost? && p.lim.amax.Unlimited? && p.lim.jmax.Unlimited?
  }

  function Reach(p: Params): (r: real)
    requires p.Valid() && p.lim.vmax.AtMost?
    ensures r >= 0.0
  {
    MulMono(0.0, p.lim.vmax.v, p.dt);
    p.lim.vmax.v * p.dt
  }

  // What k ticks can cover.
  function Budget(p: Params, k: nat): (r: real)
    requires p.Valid() && p.lim.vmax.AtMost?
    ensures r >= 0.0
  {
    MulMono(0.0, Reach(p), k as real);
    Reach(p) * k as real
  }

  // The point nearest to the target within a distance of `from`.
  function Towards(from: real, target: real, reach: real): real
    requires reach >= 0.0
  {
    from + Clamp(target - from, -reach, reach)
  }

  lemma ScaledClamp(x: real, b: real, dt: real)
    requires b >= 0.0 && dt > 0.0 && b * dt >= 0.0
    ensures Clamp(x / dt, -b, b) * dt == Clamp(x, -(b * dt), b * dt)
  {
    var u := x / dt;
    DivMul(x, dt);
    if u > b {
      MulStrict(b, u, dt);
    } else if u < -b {
      MulStrict(u, -b, dt);
    } else {
      MulMono(u, b, dt);
      MulMono(-b, u, dt);
    }
  }

  // With only a velocity limit the whole chain is a rate limiter.
  lemma RateLimiterStep(p: Params, s: Joint, target: real)
    requires p.Valid() && OnlyVelocity(p)
    ensures Step(p, s, target).pos == Confined(p.geo, Towards(s.pos, target, Reach(p)))
  {
    hide IsSqrt, Clamp, Step, Confined, DesiredVel;
    DemandIsMet(p, s, target);
    ScaledTowards(s.pos, target, Step(p, s, target).vel, p.lim.vmax.v, p.dt, Reach(p));
    Move(p, s, target, Towards(s.pos, target, Reach(p)));
  }

  lemma ScaledTowards(from: real, target: real, v: real, b: real, dt: real, reach: real)
    requires b >= 0.0 && dt > 0.0 && reach == b * dt && reach >= 0.0
    requires v == Clamp((target - from) / dt, -b, b)
    ensures from + v * dt == Towards(from, target, reach)
  {
    ScaledClamp(target - from, b, dt);
  }

  function Hold(target: real, k: nat): (ins: seq<Input>)
    ensures |ins| == k && Runnable(ins) && AllFree(ins)
    ensures forall j | 0 <= j < k :: ins[j] == Input(target, Free)
  {
    seq(k, _ => Input(target, Free))
  }

  // Towards a fixed target the position after k ticks is known in closed form.
  lemma {:induction false} RateLimiterRun(p: Params, s: Joint, target: real, n: nat, k: nat)
    requires p.Valid() && OnlyVelocity(p) && k <= n
    ensures Run(p, s, Hold(target, n))[k].pos == Towards(s.pos, target, Budget(p, k))
    decreases k
  {
    hide IsSqrt, Step, Run, Reach, Hold, Towards, Budget;
    BudgetGrows(p, k);
    if k > 0 {
      var i := Input(target, Free);
      RateLimiterRun(p, s, target, n, k - 1);
      RunSteps(p, s, Hold(target, n), k - 1);
      SameReach(p, i);
      RateLimiterStep(At(p, i), Run(p, s, Hold(target, n))[k - 1], target);
      TwoStages(s.pos, target, Budget(p, k - 1), Reach(p), Budget(p, k));
    } else {
      assert Towards(s.pos, target, 0.0) == s.pos by { TowardsZero(s.pos, target); }
    }
  }

  lemma SameReach(p: Params, i: Input)
    requires p.Valid() && p.lim.vmax.AtMost? && i.geo.Valid()
    ensures Reach(At(p, i)) == Reach(p)
  {
  }

  lemma BudgetGrows(p: Params, k: nat)
    requires p.Valid() && p.lim.vmax.AtMost?
    ensures Budget(p, 0) == 0.0
    ensures k > 0 ==> Budget(p, k) == Budget(p, k - 1) + Reach(p)
  {
    hide IsSqrt, Reach;
    var r := Reach(p);
    if k > 0 {
      assert k as real == (k - 1) as real + 1.0;
      assert r * ((k - 1) as real + 1.0) == r * (k - 1) as real + r;
    }
  }

  lemma TowardsZero(from: real, target: real)
    ensures Towards(from, target, 0.0) == from
  {
  }

  lemma TwoStages(from: real, target: real, first: real, second: real, total: real)
    requires first >= 0.0 && second >= 0.0 && total == first + second
    ensures Towards(Towards(from, target, first), target, second) == Towards(from, target, total)
  {
  }

  // Hence the target is never overshot, the distance never grows, and the
  // target is reached, and then held, exactly from the first tick on whose
  // accumulated reach covers the distance.
  lemma {:induction false} RateLimiterArrives(p: Params, s: Joint, target: real, n: nat, k: nat)
    requires p.Valid() && OnlyVelocity(p) && k <= n
    ensures var q, dist := Run(p, s, Hold(target, n)), target - s.pos;
            && (dist >= 0.0 ==> s.pos <= q[k].pos <= target)
            && (dist <= 0.0 ==> target <= q[k].pos <= s.pos)
            && (k < n ==> Abs(target - q[k + 1].pos) <= Abs(target - q[k].pos))
            && (q[k].pos == target <==> Abs(dist) <= Budget(p, k))
  {
    hide IsSqrt, Step, Run, Reach, Budget;
    RateLimiterRun(p, s, target, n, k);
    if k < n {
      RateLimiterRun(p, s, target, n, k + 1);
      BudgetGrows(p, k + 1);
    }
  }

  // ------------------------------------------------------------- Symmetry

  function Mirror(s: Joint): Joint {
    Joint(-s.pos, -s.vel, -s.acc)
  }

  function MirrorGeo(g: Geometry): Geometry {
    if g.Range? then Range(-g.hi, -g.lo) else Free
  }

  function MirrorInput(i: Input): Input {
    Input(-i.target, MirrorGeo(i.geo))
  }

  function MirrorInputs(ins: seq<Input>): (r: seq<Input>)
    requires Runnable(ins)
    ensures |r| == |ins| && Runnable(r)
    ensures forall k | 0 <= k < |ins| :: r[k] == MirrorInput(ins[k])
  {
    seq(|ins|, k requires 0 <= k < |ins| => MirrorInput(ins[k]))
  }

  lemma NegDiv(x: real, y: real, d: real)
    requires d > 0.0 && y == -x
    ensures y / d == -(x / d)
  {
    DivMul(x, d);
    DivMul(y, d);
    NegMul(x / d, d);
    SameFactor(y / d, -(x / d), d);
  }

  lemma PaceIsOdd(dist: real, tau: Float)
    requires tau == PosInf || (tau.Fin? && tau.r > 0.0)
    ensures Pace(-dist, tau) == -Pace(dist, tau)
  {
    if tau.Fin? {
      NegDiv(dist, -dist, tau.r);
    }
  }

  lemma SpeedLimitIsEven(p: Params, g: Geometry, dist: real)
    requires p.Valid() && g.Valid()
    ensures SpeedLimit(p.(geo := g), -dist) == SpeedLimit(p, dist)
  {
    hide IsSqrt, Brakable;
    if p.lim.amax.AtMost? {
      BrakableIsEven(p, g, dist);
    }
  }

  lemma BrakableIsEven(p: Params, g: Geometry, dist: real)
    requires p.Valid() && g.Valid() && p.lim.amax.AtMost?
    ensures Brakable(p.(geo := g), -dist) == Brakable(p, dist)
  {
    hide IsSqrt;
    var x, y := Abs(dist), Abs(-dist);
    assert x == y;
  }

  lemma DesiredVelIsOdd(p: Params, g: Geometry, dist: real)
    requires p.Valid() && g.Valid()
    ensures DesiredVel(p.(geo := g), -dist) == -DesiredVel(p, dist)
  {
    hide IsSqrt, Tau, Pace, SpeedLimit, Saturate;
    var tau := Tau(p.dt, p.lim);
    PaceIsOdd(dist, tau);
    SpeedLimitIsEven(p, g, dist);
    SaturateIsOdd(Pace(dist, tau), Pace(-dist, tau), SpeedLimit(p, dist));
  }

  lemma SaturateIsOdd(x: real, y: real, b: Bound)
    requires (b.AtMost? ==> b.v >= 0.0) && y == -x
    ensures Saturate(y, b) == -Saturate(x, b)
  {
  }

  lemma LimitJerkIsOdd(p: Params, g: Geometry, prev: real, x: real, y: real)
    requires p.Valid() && g.Valid() && y == -x
    ensures LimitJerk(p.(geo := g), -prev, y) == -LimitJerk(p, prev, x)
  {
    hide IsSqrt;
    if p.lim.jmax.AtMost? {
      MulMono(0.0, p.lim.jmax.v, p.dt);
    }
  }

  lemma NextAccIsOdd(p: Params, g: Geometry, prev: real, raw: real)
    requires p.Valid() && g.Valid()
    ensures NextAcc(p.(geo := g), -prev, -raw) == -NextAcc(p, prev, raw)
  {
    hide IsSqrt, Saturate, LimitJerk;
    var x, y := Saturate(raw, p.lim.amax), Saturate(-raw, p.lim.amax);
    SaturateIsOdd(raw, -raw, p.lim.amax);
    LimitJerkIsOdd(p, g, prev, x, y);
    SaturateIsOdd(LimitJerk(p, prev, x), LimitJerk(p.(geo := g), -prev, y), p.lim.amax);
  }

  lemma NegMul(a: real, b: real)
    ensures -a * b == -(a * b)
  {
  }

  lemma NextVelIsOdd(p: Params, g: Geometry, vel: real, a: real)
    requires p.Valid() && g.Valid()
    ensures NextVel(p.(geo := g), -vel, -a) == -NextVel(p, vel, a)
  {
    hide IsSqrt, NextVel, Saturate;
    var x := vel + a * p.dt;
    NegMul(a, p.dt);
    NextVelIs(p, vel, a, x);
    NextVelIs(p.(geo := g), -vel, -a, -x);
    SaturateIsOdd(x, -x, p.lim.vmax);
  }

  lemma NextPosIsOdd(p: Params, pos: real, v: real)
    requires p.Valid()
    ensures NextPos(p.(geo := MirrorGeo(p.geo)), -pos, -v) == -NextPos(p, pos, v)
  {
    hide IsSqrt, NextPos, Confined;
    var q := pos + v * p.dt;
    NegMul(v, p.dt);
    NextPosIs(p, pos, v, q);
    NextPosIs(p.(geo := MirrorGeo(p.geo)), -pos, -v, -q);
    ConfinedIsOdd(p.geo, q);
  }

  lemma ConfinedIsOdd(geo: Geometry, q: real)
    requires geo.Valid()
    ensures Confined(MirrorGeo(geo), -q) == -Confined(geo, q)
  {
  }

  lemma IntegrateIsOdd(p: Params, s: Joint, a: real)
    requires p.Valid()
    ensures Integrate(p.(geo := MirrorGeo(p.geo)), Mirror(s), -a) == Mirror(Integrate(p, s, a))
  {
    hide IsSqrt, NextVel, NextPos;
    NextVelIsOdd(p, MirrorGeo(p.geo), s.vel, a);
    NextPosIsOdd(p, s.pos, NextVel(p, s.vel, a));
  }

  lemma RawAccProduct(p: Params, wanted: real, vel: real, dt: real)
    requires p.Valid() && dt == p.dt
    ensures RawAcc(p, wanted, vel) * dt == wanted - vel
  {
    hide IsSqrt;
    DivMul(wanted - vel, dt);
  }

  lemma RawAccIsOdd(p: Params, q: Params, wanted: real, vel: real, x: real, y: real)
    requires p.Valid() && q.Valid() && p.dt == q.dt && x == -wanted && y == -vel
    ensures RawAcc(q, x, y) == -RawAcc(p, wanted, vel)
  {
    hide IsSqrt, RawAcc;
    var a, b, dt := RawAcc(p, wanted, vel), RawAcc(q, x, y), p.dt;
    RawAccProduct(p, wanted, vel, dt);
    RawAccProduct(q, x, y, dt);
    NegMul(a, dt);
    SameFactor(b, -a, dt);
  }

  lemma StepIsOdd(p: Params, s: Joint, target: real)
    requires p.Valid()
    ensures Step(p.(geo := MirrorGeo(p.geo)), Mirror(s), -target) == Mirror(Step(p, s, target))
  {
    hide IsSqrt, DesiredVel, NextAcc, Integrate, RawAcc;
    var g, dist := MirrorGeo(p.geo), target - s.pos;
    DesiredVelIsOdd(p, g, dist);
    assert -target - Mirror(s).pos == -dist;
    RawAccIsOdd(p, p.(geo := g), DesiredVel(p, dist), s.vel, DesiredVel(p.(geo := g), -dist), -s.vel);
    assert Demand(p.(geo := g), Mirror(s), -target) == -Demand(p, s, target);
    NextAccIsOdd(p, g, s.acc, Demand(p, s, target));
    IntegrateIsOdd(p, s, NextAcc(p, s.acc, Demand(p, s, target)));
  }

  // Negating all targets and reflecting all geometric limits negates the
  // whole trajectory.
  lemma {:induction false} RunIsOdd(p: Params, s: Joint, ins: seq<Input>, k: nat)
    requires p.Valid() && Runnable(ins) && k <= |ins|
    ensures Run(p, Mirror(s), MirrorInputs(ins))[k] == Mirror(Run(p, s, ins)[k])
    decreases k
  {
    hide IsSqrt, Step, Run, Mirror;
    if k > 0 {
      var i := ins[k - 1];
      RunIsOdd(p, s, ins, k - 1);
      RunSteps(p, s, ins, k - 1);
      RunSteps(p, Mirror(s), MirrorInputs(ins), k - 1);
      StepIsOdd(At(p, i), Run(p, s, ins)[k - 1], i.target);
      assert At(p, MirrorInput(i)) == At(p, i).(geo := MirrorGeo(i.geo));
    }
  }
}
