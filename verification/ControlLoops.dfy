// The frame of the 100 Hz control loop: slot, sanitizer, wire.
module ControlLoops {
  import opened Basics
  import opened Reals
  import opened CommandVectors
  import opened VectorSanitizers
  import opened Registers
  import opened LatestCommands
  import Watchdogs

  // What the loop carries from frame to frame.
  datatype Loop = Loop(last: seq<Word>, lastValid: CommandVector) {
    predicate Valid() {
      |last| == MAX_JOINTS && lastValid.Valid()
    }

    function Published(): seq<Byte>
      requires Valid()
    {
      EncodeWords(lastValid.Active())
    }
  }

  predicate Acceptable(arrival: Option<CommandVector>) {
    arrival.Some? ==> arrival.value.Valid()
  }

  function Frame(s: Setup, l: Loop, arrival: Option<CommandVector>): (r: Loop)
    requires l.Valid() && Acceptable(arrival)
    ensures r.Valid()
  {
    var cmd := if arrival.Some? then arrival.value else l.lastValid;
    Loop(Remembered(s, l.last, cmd), Sanitized(s, l.last, cmd))
  }

  predicate AllAcceptable(arrivals: seq<Option<CommandVector>>) {
    forall k | 0 <= k < |arrivals| :: Acceptable(arrivals[k])
  }

  function Initial(jointCount: nat): (l: Loop)
    ensures l.Valid()
  {
    Loop(Zeroed(), Zeros(jointCount))
  }

  // The loop after a frame for each arrival; None is an empty slot.
  function Frames(s: Setup, jointCount: nat, arrivals: seq<Option<CommandVector>>): (l: Loop)
    requires AllAcceptable(arrivals)
    ensures l.Valid()
  {
    if arrivals == [] then Initial(jointCount)
    else Frame(s, Frames(s, jointCount, arrivals[..|arrivals| - 1]), arrivals[|arrivals| - 1])
  }

  // The commands that did arrive.
  function Arrived(arrivals: seq<Option<CommandVector>>): (cmds: seq<CommandVector>)
    requires AllAcceptable(arrivals)
    ensures AllValid(cmds)
  {
    if arrivals == [] then []
    else
      var a := arrivals[|arrivals| - 1];
      Arrived(arrivals[..|arrivals| - 1]) + if a.Some? then [a.value] else []
  }

  lemma RecentSnoc(value: Word -> Float, i: nat, cmds: seq<CommandVector>, cmd: CommandVector)
    requires AllValid(cmds) && cmd.Valid() && i < MAX_JOINTS
    ensures AllValid(cmds + [cmd])
    ensures Recent(value, i, cmds + [cmd]) ==
            if i < cmd.len && Finite(value(cmd.targets[i])) then cmd.targets[i] else Recent(value, i, cmds)
  {
    assert (cmds + [cmd])[..|cmds|] == cmds;
  }

  // A frame on one joint.
  lemma FrameOnJoint(s: Setup, l: Loop, arrival: Option<CommandVector>, i: nat)
    requires s.Valid() && l.Valid() && Acceptable(arrival) && i < MAX_JOINTS
    ensures var cmd := if arrival.Some? then arrival.value else l.lastValid;
            var r := Frame(s, l, arrival);
            && r.lastValid.len == cmd.len
            && (i < cmd.len ==> && r.last[i] == r.lastValid.targets[i] == s.Safe(i, l.last[i], cmd.targets[i])
                                && s.Clamped(i, r.last[i]) == r.last[i])
            && (i >= cmd.len ==> r.last[i] == l.last[i] && r.lastValid.targets[i] == cmd.targets[i])
  {
    var cmd := if arrival.Some? then arrival.value else l.lastValid;
    ClampIdempotent(s, i, if Finite(s.value(cmd.targets[i])) then cmd.targets[i] else l.last[i]);
  }

  // What is remembered of a joint is, up to clamping, the most recent finite
  // value that arrived for it; re-reading the last command adds nothing.
  lemma {:induction false} FramesRemember(s: Setup, jointCount: nat, arrivals: seq<Option<CommandVector>>, i: nat)
    requires s.Valid() && AllAcceptable(arrivals) && i < MAX_JOINTS
    ensures var l := Frames(s, jointCount, arrivals);
            && s.Clamped(i, l.last[i]) == s.Clamped(i, Recent(s.value, i, Arrived(arrivals)))
            && (i < l.lastValid.len ==> l.lastValid.targets[i] == l.last[i])
            && (i < l.lastValid.len && arrivals != [] ==> s.Clamped(i, l.last[i]) == l.last[i])
  {
    hide Frame, Recent;
    if arrivals == [] {
      assert Recent(s.value, i, []) == ZERO by { RecentOfNone(s.value, i); }
    } else {
      var n := |arrivals| - 1;
      var l, a := Frames(s, jointCount, arrivals[..n]), arrivals[n];
      FramesRemember(s, jointCount, arrivals[..n], i);
      FrameOnJoint(s, l, a, i);
      if a.Some? {
        RecentSnoc(s.value, i, Arrived(arrivals[..n]), a.value);
        if i < a.value.len {
          ClampIdempotent(s, i, if Finite(s.value(a.value.targets[i])) then a.value.targets[i] else l.last[i]);
        }
      } else {
        assert Arrived(arrivals) == Arrived(arrivals[..n]);
        ClampIdempotent(s, i, l.last[i]);
      }
    }
  }

  lemma RecentOfNone(value: Word -> Float, i: nat)
    requires i < MAX_JOINTS
    ensures Recent(value, i, []) == ZERO
  {
  }

  // Every frame publishes, for every joint, the clamp of the most recent finite
  // value that arrived for it, or of zero.
  lemma {:induction false} FramePublishesRecent(s: Setup, jointCount: nat, arrivals: seq<Option<CommandVector>>, i: nat)
    requires s.Valid() && AllAcceptable(arrivals) && arrivals != []
    requires i < Frames(s, jointCount, arrivals).lastValid.len
    ensures Frames(s, jointCount, arrivals).lastValid.targets[i]
            == s.Clamped(i, Recent(s.value, i, Arrived(arrivals)))
    ensures IsClamp(s, i, Recent(s.value, i, Arrived(arrivals)), Frames(s, jointCount, arrivals).lastValid.targets[i])
  {
    hide Frames, Recent, IsClamp;
    FramesRemember(s, jointCount, arrivals, i);
    HistoryIsRecent(s, Arrived(arrivals), i);
    ClampedIsNearest(s, i, Recent(s.value, i, Arrived(arrivals)));
  }

  // From the second frame on an empty slot republishes the previous bytes
  // exactly.
  lemma {:induction false} EmptySlotRepeats(s: Setup, jointCount: nat, arrivals: seq<Option<CommandVector>>)
    requires s.Valid() && AllAcceptable(arrivals) && arrivals != []
    ensures AllAcceptable(arrivals + [None])
    ensures Frames(s, jointCount, arrivals + [None]) == Frames(s, jointCount, arrivals)
    ensures Frames(s, jointCount, arrivals + [None]).Published() == Frames(s, jointCount, arrivals).Published()
  {
    hide Recent, Frame;
    assert (arrivals + [None])[..|arrivals|] == arrivals;
    var l := Frames(s, jointCount, arrivals);
    var r := Frame(s, l, None);
    assert r == Frames(s, jointCount, arrivals + [None]);
    forall i | 0 <= i < MAX_JOINTS
      ensures r.last[i] == l.last[i] && r.lastValid.targets[i] == l.lastValid.targets[i]
    {
      FramesRemember(s, jointCount, arrivals, i);
      FrameOnJoint(s, l, None, i);
    }
    assert r.last == l.last && r.lastValid.targets == l.lastValid.targets;
    FrameOnJoint(s, l, None, 0);
  }

  // The very first frame repeats the initial zeros exactly when the limits of
  // every driven joint contain zero.
  lemma FirstEmptyFrame(s: Setup, jointCount: nat)
    requires s.Valid()
    ensures Frame(s, Initial(jointCount), None).lastValid == Zeros(jointCount) <==>
            forall i | 0 <= i < Min(jointCount, MAX_JOINTS) :: s.Clamped(i, ZERO) == ZERO
  {
    hide Frame;
    var r, n := Frame(s, Initial(jointCount), None), Min(jointCount, MAX_JOINTS);
    FrameOnJoint(s, Initial(jointCount), None, 0);
    forall i | 0 <= i < MAX_JOINTS
      ensures r.lastValid.targets[i] == if i < n then s.Clamped(i, ZERO) else ZERO
    {
      FrameOnJoint(s, Initial(jointCount), None, i);
    }
    if forall i | 0 <= i < n :: s.Clamped(i, ZERO) == ZERO {
      assert r.lastValid.targets == Zeros(jointCount).targets;
    } else {
      var i :| 0 <= i < n && s.Clamped(i, ZERO) != ZERO;
      assert r.lastValid.targets[i] != Zeros(jointCount).targets[i];
    }
  }

  // The buffer always has room for the whole command.
  method Serialize(cmd: CommandVector) returns (payload: seq<Byte>)
    requires cmd.Valid()
    ensures payload == EncodeWords(cmd.Active())
  {
    hide EncodeWords;
    var buf := new Byte[MAX_JOINTS * 4](_ => 0);
    var n := WriteTo(cmd, buf);
    payload := buf[..n];
  }

  // ------------------------------------------------------------ The object

  class RealTimeControlLoop {
    const setup: Setup
    const jointCount: nat
    const buffer: LatestCommand<CommandVector>
    const sanitizer: VectorSanitizer
    const heartbeat: Watchdogs.Heartbeat
    var lastValid: CommandVector
    ghost var arrivals: seq<Option<CommandVector>>

    ghost predicate Valid()
      reads this, buffer, sanitizer.lastSafe
    {
      && setup.Valid() && sanitizer.Valid() && buffer.Valid() && AllAcceptable(arrivals)
      && Loop(sanitizer.lastSafe[..], lastValid) == Frames(setup, jointCount, arrivals)
    }

    constructor (setup: Setup, jointCount: nat, buffer: LatestCommand<CommandVector>, heartbeat: Watchdogs.Heartbeat)
      requires setup.Valid() && buffer.Valid()
      ensures Valid() && arrivals == [] && fresh(sanitizer) && fresh(sanitizer.lastSafe)
      ensures this.setup == setup && this.jointCount == jointCount
      ensures this.buffer == buffer && this.heartbeat == heartbeat
    {
      this.setup, this.jointCount, this.buffer, this.heartbeat := setup, jointCount, buffer, heartbeat;
      sanitizer := new VectorSanitizer();
      lastValid := Zeros(jointCount);
      arrivals := [];
    }

    // One tick: slot, sanitizer, heartbeat, wire.
    method Tick(now: nat) returns (payload: seq<Byte>)
      requires Valid() && Acceptable(Content(buffer.log))
      modifies `lastValid, `arrivals, buffer, sanitizer.lastSafe, heartbeat
      ensures Valid() && heartbeat.lastPing == now
      ensures arrivals == old(arrivals) + [old(Content(buffer.log))]
      ensures payload == Frames(setup, jointCount, arrivals).Published()
    {
      hide Frame, Remembered, Sanitized, Zeros, Zeroed, EncodeWords, Legal;
      ghost var before := Frames(setup, jointCount, arrivals);
      ghost var arrival := Content(buffer.log);
      arrivals := arrivals + [arrival];
      assert arrivals[..|arrivals| - 1] == old(arrivals);
      assert Frames(setup, jointCount, arrivals) == Frame(setup, before, arrival);

      var cmd := buffer.TakeOr(lastValid, 0);
      var actuators := new Word[MAX_JOINTS](i requires 0 <= i < MAX_JOINTS => cmd.targets[i]);
      assert actuators[..] == cmd.targets;
      sanitizer.SanitizeAndClamp(actuators, cmd.len, setup);
      lastValid := CommandVector(actuators[..], cmd.len);
      assert Loop(sanitizer.lastSafe[..], lastValid) == Frame(setup, before, arrival) by {
        FrameOf(setup, before, arrival);
      }

      heartbeat.Ping(now);

      payload := Serialize(lastValid);
    }
  }

  lemma FrameOf(s: Setup, l: Loop, arrival: Option<CommandVector>)
    requires l.Valid() && Acceptable(arrival)
    ensures var cmd := if arrival.Some? then arrival.value else l.lastValid;
            && CommandVector(cmd.targets, cmd.len) == cmd
            && Frame(s, l, arrival) == Loop(Remembered(s, l.last, cmd), Sanitized(s, l.last, cmd))
  {
  }
}
