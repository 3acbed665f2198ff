// The shock limiter object: per-joint state and tolerances in fixed arrays,
// updated in place every tick.
module JerkLimiters {
  import opened Basics
  import opened Reals
  import opened SaturationChain
  import opened JerkRuns
  import A = Approaches

  // What stays fixed between two calls of SetLimits.
  datatype Config = Config(sqrt: real -> real, dt: real, lim: seq<Limits>) {
    ghost predicate Valid() {
      IsSqrt(sqrt) && dt > 0.0 && |lim| == MAX_JOINTS && forall i | 0 <= i < |lim| :: lim[i].Valid()
    }

    function ForJoint(i: nat, geo: Geometry): Params
      requires i < |lim|
    {
      Params(sqrt, dt, lim[i], geo)
    }
  }

  // One command as the limiter receives it: targets, number of active joints
  // and the configured geometric limits.
  datatype Command = Command(targets: seq<real>, len: nat, limits: seq<(real, real)>) {
    predicate Valid() {
      |targets| == MAX_JOINTS && Ordered(limits)
    }

    predicate Drives(i: nat) {
      i < Min(len, MAX_JOINTS)
    }

    function InputOf(i: nat): Input
      requires i < |targets|
    {
      Input(targets[i], GeometryOf(limits, i))
    }
  }

  predicate Ordered(limits: seq<(real, real)>) {
    forall i | 0 <= i < |limits| :: limits[i].0 <= limits[i].1
  }

  function GeometryOf(limits: seq<(real, real)>, i: nat): (g: Geometry)
    ensures Ordered(limits) ==> g.Valid()
  {
    if i < |limits| then Range(limits[i].0, limits[i].1) else Free
  }

  function StepJoint(c: Config, i: nat, s: Joint, cmd: Command): Joint
    requires c.Valid() && cmd.Valid() && i < MAX_JOINTS
  {
    if cmd.Drives(i) then Step(c.ForJoint(i, GeometryOf(cmd.limits, i)), s, cmd.targets[i]) else s
  }

  // All joints after one command.
  function Tick(c: Config, states: seq<Joint>, cmd: Command): (r: seq<Joint>)
    requires c.Valid() && cmd.Valid() && |states| == MAX_JOINTS
    ensures |r| == MAX_JOINTS
    ensures forall i | 0 <= i < MAX_JOINTS :: r[i] == StepJoint(c, i, states[i], cmd)
  {
    seq(MAX_JOINTS, i requires 0 <= i < MAX_JOINTS => StepJoint(c, i, states[i], cmd))
  }

  // The limits a command brings for a joint.
  function LimitsOf(cmd: Command, i: nat): (g: Geometry)
    requires cmd.Valid()
    ensures g.Valid()
    ensures if i < |cmd.limits| then g.Range? && (g.lo, g.hi) == cmd.limits[i] else g.Free?
  {
    GeometryOf(cmd.limits, i)
  }

  // One command moves each joint it drives by one tick towards its own target,
  // under its own tolerances and limits ...
  lemma JointTicks(c: Config, states: seq<Joint>, cmd: Command, i: nat, rise: real, ramp: real)
    requires c.Valid() && cmd.Valid() && |states| == MAX_JOINTS && i < MAX_JOINTS && i < cmd.len
    requires Within(states[i].acc, c.lim[i].amax) && A.Moves(c.lim[i]) && A.Times(c.lim[i], rise, ramp)
    ensures var p := Params(c.sqrt, c.dt, c.lim[i], LimitsOf(cmd, i));
            A.TicksTowards(p, states[i], cmd.targets[i], rise, ramp, Tick(c, states, cmd)[i])
  {
    hide IsSqrt, Step, A.TicksTowards, A.Moves, A.Times;
    A.StepIsTick(Params(c.sqrt, c.dt, c.lim[i], LimitsOf(cmd, i)), states[i], cmd.targets[i], rise, ramp);
  }

  // ... and leaves the others alone.
  lemma JointRests(c: Config, states: seq<Joint>, cmd: Command, i: nat)
    requires c.Valid() && cmd.Valid() && |states| == MAX_JOINTS && cmd.len <= i < MAX_JOINTS
    ensures Tick(c, states, cmd)[i] == states[i]
  {
    hide IsSqrt, Step;
  }

  predicate AllValid(cmds: seq<Command>) {
    forall k | 0 <= k < |cmds| :: cmds[k].Valid()
  }

  function RunAll(c: Config, states: seq<Joint>, cmds: seq<Command>): (r: seq<Joint>)
    requires c.Valid() && AllValid(cmds) && |states| == MAX_JOINTS
    ensures |r| == MAX_JOINTS
    decreases |cmds|
  {
    if cmds == [] then states else RunAll(c, Tick(c, states, cmds[0]), cmds[1..])
  }

  // What joint i gets to see: its target and limits in the ticks that drive it.
  function InputsOf(i: nat, cmds: seq<Command>): (ins: seq<Input>)
    requires AllValid(cmds) && i < MAX_JOINTS
    ensures Runnable(ins)
  {
    if cmds == [] then []
    else (if cmds[0].Drives(i) then [cmds[0].InputOf(i)] else []) + InputsOf(i, cmds[1..])
  }

  function Last(states: seq<Joint>): Joint
    requires states != []
  {
    states[|states| - 1]
  }

  // Every joint runs alone: its trajectory is the single-joint run over the
  // inputs of the ticks that drive it.
  lemma {:induction false} JointsAreIndependent(c: Config, states: seq<Joint>, cmds: seq<Command>, i: nat)
    requires c.Valid() && AllValid(cmds) && |states| == MAX_JOINTS && i < MAX_JOINTS
    ensures RunAll(c, states, cmds)[i] == Last(Run(c.ForJoint(i, Free), states[i], InputsOf(i, cmds)))
    decreases |cmds|
  {
    hide IsSqrt, Step;
    if cmds != [] {
      var p, rest := c.ForJoint(i, Free), InputsOf(i, cmds[1..]);
      JointsAreIndependent(c, Tick(c, states, cmds[0]), cmds[1..], i);
      if cmds[0].Drives(i) {
        var input := cmds[0].InputOf(i);
        assert At(p, input) == c.ForJoint(i, input.geo);
        assert InputsOf(i, cmds)[0] == input && InputsOf(i, cmds)[1..] == rest;
      } else {
        assert InputsOf(i, cmds) == rest;
      }
    }
  }

  // Hence two arms agree on a joint whenever its limits, its state and what it
  // gets to see agree, whatever the other joints do.
  lemma {:induction false} SameInputsSameJoint(c: Config, d: Config, states: seq<Joint>, others: seq<Joint>,
                            cmds: seq<Command>, dmds: seq<Command>, i: nat)
    requires c.Valid() && d.Valid() && c.sqrt == d.sqrt && c.dt == d.dt
    requires AllValid(cmds) && AllValid(dmds) && |states| == |others| == MAX_JOINTS && i < MAX_JOINTS
    requires c.lim[i] == d.lim[i] && states[i] == others[i] && InputsOf(i, cmds) == InputsOf(i, dmds)
    ensures RunAll(c, states, cmds)[i] == RunAll(d, others, dmds)[i]
  {
    hide IsSqrt, Run, RunAll, InputsOf;
    JointsAreIndependent(c, states, cmds, i);
    JointsAreIndependent(d, others, dmds, i);
    assert c.ForJoint(i, Free) == d.ForJoint(i, Free);
  }

  // ------------------------------------------------------------ The object

  // The chain of one joint, stage by stage.
  method LimitVelocity(p: Params, dist: real) returns (v: real)
    requires p.Valid()
    ensures v == DesiredVel(p, dist)
  {
    hide Brakable, IsSqrt, Quotient, Sum, AtLeast, Pace;
    var lim := p.lim;
    var fromVel := if lim.vmax.AtMost? && lim.amax.AtMost? then Quotient(lim.vmax.v, lim.amax.v) else Fin(0.0);
    var fromJerk := if lim.amax.AtMost? && lim.jmax.AtMost? then Quotient(lim.amax.v, lim.jmax.v) else Fin(0.0);
    var tau := AtLeast(Sum(fromVel, fromJerk), p.dt);
    assert tau == Tau(p.dt, p.lim);
    v := Pace(dist, tau);
    var limit := p.lim.vmax;
    if p.lim.amax.AtMost? {
      var stop := p.sqrt(Brakable(p, dist));
      limit := if limit.AtMost? && limit.v < stop then limit else AtMost(stop);
    }
    assert limit == SpeedLimit(p, dist);
    if limit.AtMost? {
      v := Clamp(v, -limit.v, limit.v);
    }
  }

  method LimitAcceleration(p: Params, prev: real, raw: real) returns (a: real)
    requires p.Valid()
    ensures a == NextAcc(p, prev, raw)
  {
    a := raw;
    if p.lim.amax.AtMost? {
      a := Clamp(a, -p.lim.amax.v, p.lim.amax.v);
    }
    if p.lim.jmax.AtMost? {
      var step := p.lim.jmax.v * p.dt;
      assert step >= 0.0 by { MulMono(0.0, p.lim.jmax.v, p.dt); }
      a := Clamp(a - prev, -step, step) + prev;
    }
    if p.lim.amax.AtMost? {
      a := Clamp(a, -p.lim.amax.v, p.lim.amax.v);
    }
  }

  method LimitJoint(p: Params, s: Joint, target: real) returns (t: Joint)
    requires p.Valid()
    ensures t == Step(p, s, target)
  {
    hide IsSqrt, DesiredVel, NextAcc, Clamp, RawAcc, NextVel, NextPos;
    var wanted := LimitVelocity(p, target - s.pos);
    var a := LimitAcceleration(p, s.acc, RawAcc(p, wanted, s.vel));
    var v := s.vel + a * p.dt;
    NextVelIs(p, s.vel, a, v);
    if p.lim.vmax.AtMost? {
      v := Clamp(v, -p.lim.vmax.v, p.lim.vmax.v);
    }
    var q := s.pos + v * p.dt;
    NextPosIs(p, s.pos, v, q);
    if p.geo.Range? {
      q := Clamp(q, p.geo.lo, p.geo.hi);
    }
    t := Joint(q, v, a);
  }

  // Tolerances the chain can clamp to.
  predicate Usable(vel: seq<Bound>, acc: seq<Bound>, jerk: seq<Bound>) {
    && (forall i | 0 <= i < |vel| :: vel[i].AtMost? ==> vel[i].v >= 0.0)
    && (forall i | 0 <= i < |acc| :: acc[i].AtMost? ==> acc[i].v >= 0.0)
    && (forall i | 0 <= i < |jerk| :: jerk[i].AtMost? ==> jerk[i].v >= 0.0)
  }

  class JerkLimiter {
    const sqrt: real -> real
    const dt: real
    const prevPos: array<real>
    const prevVel: array<real>
    const prevAcc: array<real>
    const maxVel: array<Bound>
    const maxAcc: array<Bound>
    const maxJerk: array<Bound>

    ghost function Repr(): set<object> {
      {this, prevPos, prevVel, prevAcc, maxVel, maxAcc, maxJerk}
    }

    ghost predicate Shape() {
      && prevPos.Length == prevVel.Length == prevAcc.Length == MAX_JOINTS
      && maxVel.Length == maxAcc.Length == maxJerk.Length == MAX_JOINTS
      && prevPos != prevVel && prevPos != prevAcc && prevVel != prevAcc
      && maxVel != maxAcc && maxVel != maxJerk && maxAcc != maxJerk
    }

    ghost predicate Valid()
      reads maxVel, maxAcc, maxJerk
    {
      Shape() && Settings().Valid()
    }

    ghost function Settings(): Config
      requires Shape()
      reads maxVel, maxAcc, maxJerk
    {
      Config(sqrt, dt, seq(MAX_JOINTS, i requires 0 <= i < MAX_JOINTS && Shape() reads maxVel, maxAcc, maxJerk =>
        Limits(maxVel[i], maxAcc[i], maxJerk[i])))
    }

    ghost function States(): (r: seq<Joint>)
      requires Shape()
      reads prevPos, prevVel, prevAcc
      ensures |r| == MAX_JOINTS
    {
      seq(MAX_JOINTS, i requires 0 <= i < MAX_JOINTS && Shape() reads prevPos, prevVel, prevAcc =>
        Joint(prevPos[i], prevVel[i], prevAcc[i]))
    }

    constructor (sqrt: real -> real, dt: real)
      requires IsSqrt(sqrt)
      ensures Valid() && fresh(Repr())
      ensures Settings().sqrt == sqrt && Settings().dt == if dt > 0.0 then dt else 0.01
      ensures forall i | 0 <= i < MAX_JOINTS :: States()[i] == REST
      ensures forall i | 0 <= i < MAX_JOINTS :: Settings().lim[i] == Limits(Unlimited, Unlimited, Unlimited)
    {
      this.sqrt := sqrt;
      this.dt := if dt > 0.0 then dt else 0.01;
      prevPos := new real[MAX_JOINTS](_ => 0.0);
      prevVel := new real[MAX_JOINTS](_ => 0.0);
      prevAcc := new real[MAX_JOINTS](_ => 0.0);
      maxVel := new Bound[MAX_JOINTS](_ => Unlimited);
      maxAcc := new Bound[MAX_JOINTS](_ => Unlimited);
      maxJerk := new Bound[MAX_JOINTS](_ => Unlimited);
    }

    // Tolerances of the leading joints, as given; the others keep theirs. A
    // limiter stays usable if the new tolerances are.
    method SetLimits(vel: seq<Bound>, acc: seq<Bound>, jerk: seq<Bound>)
      requires Shape()
      modifies maxVel, maxAcc, maxJerk
      ensures States() == old(States())
      ensures Settings().sqrt == old(Settings().sqrt) && Settings().dt == old(Settings().dt)
      ensures forall i | 0 <= i < MAX_JOINTS :: Settings().lim[i] == Limits(
          if i < |vel| then vel[i] else old(Settings().lim[i].vmax),
          if i < |acc| then acc[i] else old(Settings().lim[i].amax),
          if i < |jerk| then jerk[i] else old(Settings().lim[i].jmax))
      ensures old(Valid()) && Usable(vel, acc, jerk) ==> Valid()
    {
      hide IsSqrt;
      CopyLimit(maxVel, vel);
      CopyLimit(maxAcc, acc);
      CopyLimit(maxJerk, jerk);
      if old(Valid()) && Usable(vel, acc, jerk) {
        forall i | 0 <= i < MAX_JOINTS
          ensures Settings().lim[i].Valid()
        {
          assert old(Settings().lim[i]).Valid();
        }
      }
    }

    static method CopyLimit(dst: array<Bound>, src: seq<Bound>)
      modifies dst
      ensures forall i | 0 <= i < dst.Length :: dst[i] == if i < |src| then src[i] else old(dst[i])
    {
      var n := Min(|src|, dst.Length);
      for i := 0 to n
        invariant forall j | 0 <= j < dst.Length :: dst[j] == if j < i then src[j] else old(dst[j])
      {
        dst[i] := src[i];
      }
    }

    // One joint of the command.
    method LimitAt(command: array<real>, i: nat, geo: Geometry)
      requires Valid() && command !in Repr() && command.Length == MAX_JOINTS && i < MAX_JOINTS && geo.Valid()
      modifies command, prevPos, prevVel, prevAcc
      ensures Valid() && Settings() == old(Settings())
      ensures var t := Step(old(Settings()).ForJoint(i, geo), old(States())[i], old(command[..])[i]);
              States() == old(States())[i := t] && command[..] == old(command[..])[i := t.pos]
    {
      hide IsSqrt, Step;
      ghost var before := States();
      var p := Params(sqrt, dt, Limits(maxVel[i], maxAcc[i], maxJerk[i]), geo);
      assert p == Settings().ForJoint(i, geo);
      assert Settings().lim[i].Valid();
      var t := LimitJoint(p, Joint(prevPos[i], prevVel[i], prevAcc[i]), command[i]);
      command[i] := t.pos;
      prevPos[i], prevVel[i], prevAcc[i] := t.pos, t.vel, t.acc;
      assert States() == before[i := t];
    }

    // Smooths a command in place and remembers the smoothed state.
    method Limit(command: array<real>, len: nat, limits: seq<(real, real)>)
      requires Valid() && command !in Repr() && command.Length == MAX_JOINTS && Ordered(limits)
      modifies command, prevPos, prevVel, prevAcc
      ensures Valid() && Settings() == old(Settings())
      ensures States() == Tick(old(Settings()), old(States()), Command(old(command[..]), len, limits))
      ensures forall i | 0 <= i < MAX_JOINTS ::
          command[i] == if i < len then States()[i].pos else old(command[i])
    {
      hide IsSqrt, Step, Settings, States;
      ghost var config, before := Settings(), States();
      ghost var cmd := Command(command[..], len, limits);
      var n := Min(len, MAX_JOINTS);
      for i := 0 to n
        invariant Valid() && Settings() == config
        invariant forall j | 0 <= j < MAX_JOINTS ::
            States()[j] == if j < i then StepJoint(config, j, before[j], cmd) else before[j]
        invariant forall j | 0 <= j < MAX_JOINTS ::
            command[..][j] == if j < i then States()[j].pos else cmd.targets[j]
      {
        LimitAt(command, i, GeometryOf(limits, i));
      }
      assert States() == Tick(config, before, cmd);
    }
  }
}
