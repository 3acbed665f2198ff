// The stateful half of the XGO codec: quantised registers, the telemetry
// snapshot, command encoding and the poll schedule.
module XgoRegisters {
  import opened Basics
  import opened Reals
  import opened Streaming
  import opened XgoFrames
  import opened XgoScanner
  import opened XgoStreams

  const MODE_WRITE: Byte := 0x00
  const MODE_READ: Byte := 0x02
  const REG_BATTERY: Byte := 0x01
  const REG_VX: Byte := 0x30
  const REG_ACTION: Byte := 0x3E
  const REG_MOTOR_ANGLE: Byte := 0x50
  const REG_ROLL: Byte := 0x62
  const REG_PITCH: Byte := 0x63
  const REG_YAW: Byte := 0x64
  const LEG_MOTORS: nat := 12
  const SNAPSHOT_LEN: nat := 16

  // The f32 nearest to pi.
  const PI: real := 3.1415927410125732421875

  // Mechanical range of a joint in degrees: knee, thigh, hip.
  function RangeMin(joint: nat): real {
    if joint % 3 == 2 then -30.0 else -70.0
  }

  function RangeMax(joint: nat): real {
    if joint % 3 == 0 then 50.0 else if joint % 3 == 1 then 90.0 else 30.0
  }

  function DegToRad(deg: real): real {
    deg * PI / 180.0
  }

  function RadToDeg(rad: real): real {
    rad * 180.0 / PI
  }

  // -------------------------------------------------------------- Quantiser

  lemma ScaleInside(value: real, min: real, max: real)
    requires min < value < max
    ensures 0.0 < (255.0 / (max - min)) * (value - min) < 255.0
  {
    var w, s := max - min, 255.0 / (max - min);
    DivMul(255.0, w);
    assert s > 0.0;
    MulStrict(value - min, w, s);
  }

  function ToByte(value: real, min: real, max: real): Byte
    requires min < max
  {
    if value >= max then 255
    else if value <= min then 0
    else
      ScaleInside(value, min, max);
      ((255.0 / (max - min)) * (value - min)).Floor
  }

  function FromByte(raw: Byte, min: real, max: real): real {
    raw as real / 255.0 * (max - min) + min
  }

  // Scaling a fraction of the range back to 0..255.
  lemma ScaleBack(part: real, w: real)
    requires w > 0.0
    ensures (255.0 / w) * (part * w) == 255.0 * part
  {
    MulSwap(255.0 / w, part, w);
    DivMul(255.0, w);
  }

  // Every byte survives the way through its physical value.
  lemma QuantiserInverse(k: Byte, min: real, max: real)
    requires min < max
    ensures ToByte(FromByte(k, min, max), min, max) == k
  {
    var w, part, value := max - min, k as real / 255.0, FromByte(k, min, max);
    ScaleBack(part, w);
    assert value - min == part * w;
    if k < 255 {
      MulStrict(part, 1.0, w);
      assert value < max;
    }
    if k > 0 {
      MulStrict(0.0, part, w);
      assert value > min;
    }
  }

  lemma RoundDown(part: real)
    ensures var k := (255.0 * part).Floor as real / 255.0;
            k <= part < k + 1.0 / 255.0
  {
  }

  // Inside the range the byte is the part of the range covered, rounded down.
  lemma ByteOfPart(value: real, min: real, max: real, part: real)
    requires min < value < max && value - min == part * (max - min)
    ensures var k := ToByte(value, min, max) as real / 255.0;
            k <= part < k + 1.0 / 255.0
  {
    ScaleInside(value, min, max);
    ScaleBack(part, max - min);
    RoundDown(part);
  }

  // Rounding the part down loses less than one step.
  lemma RoundedPart(k: Byte, part: real, min: real, w: real)
    requires w > 0.0 && k as real / 255.0 <= part < k as real / 255.0 + 1.0 / 255.0
    ensures part * w + min - w / 255.0 < FromByte(k, min, min + w) <= part * w + min
  {
    var x := k as real / 255.0;
    MulMono(x, part, w);
    MulStrict(part, x + 1.0 / 255.0, w);
  }

  // The decoded value lies at most one step below the clamped input.
  lemma QuantiserError(value: real, min: real, max: real)
    requires min < max
    ensures var back, c := FromByte(ToByte(value, min, max), min, max), Clamp(value, min, max);
            c - (max - min) / 255.0 < back <= c
  {
    hide FromByte;
    var w := max - min;
    if min < value < max {
      hide ToByte;
      var part := (value - min) / w;
      DivMul(value - min, w);
      ByteOfPart(value, min, max, part);
      RoundedPart(ToByte(value, min, max), part, min, w);
    } else {
      EndsAreExact(min, max);
    }
  }

  lemma EndsAreExact(min: real, max: real)
    ensures FromByte(0, min, max) == min && FromByte(255, min, max) == max
  {
  }

  lemma QuantiserMonotone(u: real, v: real, min: real, max: real)
    requires min < max && u <= v
    ensures ToByte(u, min, max) <= ToByte(v, min, max)
  {
    if min < u && v < max {
      ScaleInside(u, min, max);
      ScaleInside(v, min, max);
      var s := 255.0 / (max - min);
      DivMul(255.0, max - min);
      assert s > 0.0;
      MulMono(u - min, v - min, s);
    }
  }

  // ------------------------------------------------------------- Snapshot

  // The f32 in four little-endian bytes.
  type Reader = seq<Byte> -> Float

  function DataOf(frame: seq<Byte>): seq<Byte>
    requires |frame| >= MIN_LEN
  {
    frame[5..|frame| - 3]
  }

  // The value an answered register read writes into a slot, if any.
  function Writes(read: Reader, joints: nat, frame: seq<Byte>, slot: nat): Option<real>
    requires |frame| >= MIN_LEN
  {
    var addr, data := frame[4], DataOf(frame);
    var base: nat := (addr - REG_MOTOR_ANGLE) % 256;
    if base < LEG_MOTORS then
      if base <= slot < Min(joints, LEG_MOTORS) && slot - base < |data| then
        Some(DegToRad(FromByte(data[slot - base], RangeMin(slot), RangeMax(slot))))
      else None
    else if addr in {REG_ROLL, REG_PITCH, REG_YAW} && |data| >= 4 then
      var raw := read(data[..4]);
      if slot == LEG_MOTORS + (addr - REG_ROLL) && raw.Fin? then Some(DegToRad(raw.r)) else None
    else if addr == REG_BATTERY && slot == LEG_MOTORS + 3 then Some(data[0] as real * 0.1)
    else None
  }

  // A snapshot after one answer: only the slots the answer writes change.
  function Merge(read: Reader, joints: nat, s: seq<real>, frame: seq<Byte>): (t: seq<real>)
    requires |frame| >= MIN_LEN
    ensures |t| == |s|
  {
    seq(|s|, i requires 0 <= i < |s| =>
      match Writes(read, joints, frame, i)
      case Some(v) => v
      case None => s[i])
  }

  // ------------------------------------------------- One answer, by register

  // A motor angle in radians: one byte spans the mechanical range, which is
  // -70 to 50 degrees for a knee, -70 to 90 for a thigh, -30 to 30 for a hip.
  predicate AngleOf(joint: nat, raw: Byte, rad: real) {
    var k := raw as real;
    if joint % 3 == 0 then rad * 45900.0 == (120.0 * k - 17850.0) * PI
    else if joint % 3 == 1 then rad * 45900.0 == (160.0 * k - 17850.0) * PI
    else rad * 45900.0 == (60.0 * k - 7650.0) * PI
  }

  lemma AngleDecodes(joint: nat, raw: Byte)
    ensures AngleOf(joint, raw, DegToRad(FromByte(raw, RangeMin(joint), RangeMax(joint))))
  {
    var k := raw as real;
    if joint % 3 == 0 {
      assert FromByte(raw, -70.0, 50.0) == k / 255.0 * 120.0 - 70.0;
    } else if joint % 3 == 1 {
      assert FromByte(raw, -70.0, 90.0) == k / 255.0 * 160.0 - 70.0;
    } else {
      assert FromByte(raw, -30.0, 30.0) == k / 255.0 * 60.0 - 30.0;
    }
  }

  predicate SameBut(s: seq<real>, t: seq<real>, slot: nat) {
    |t| == |s| && forall i | 0 <= i < |s| && i != slot :: t[i] == s[i]
  }

  // Register 0x50 + base holds the angles from joint `base` on, a byte each.
  predicate MotorsAnswered(joints: nat, base: nat, data: seq<Byte>, s: seq<real>, t: seq<real>) {
    && |t| == |s|
    && forall i | 0 <= i < |s| ::
        if base <= i < base + |data| && i < 12 && i < joints then AngleOf(i, data[i - base], t[i]) else t[i] == s[i]
  }

  // An attitude register holds degrees; what is no number is ignored.
  predicate AttitudeAnswered(read: Reader, data: seq<Byte>, slot: nat, s: seq<real>, t: seq<real>)
    requires slot < |s|
  {
    if |data| >= 4 && read(data[..4]).Fin?
    then SameBut(s, t, slot) && t[slot] * 180.0 == read(data[..4]).r * PI
    else t == s
  }

  // The battery register holds tenths of a volt.
  predicate BatteryAnswered(data: seq<Byte>, s: seq<real>, t: seq<real>)
    requires 15 < |s| && data != []
  {
    SameBut(s, t, 15) && t[15] * 10.0 == data[0] as real
  }

  // What an answer to a read of register `addr` does to the snapshot.
  predicate Answered(read: Reader, joints: nat, addr: Byte, data: seq<Byte>, s: seq<real>, t: seq<real>)
    requires |s| == MAX_JOINTS && data != []
  {
    if 0x50 <= addr < 0x5C then MotorsAnswered(joints, addr - 0x50, data, s, t)
    else if addr == 0x62 then AttitudeAnswered(read, data, 12, s, t)
    else if addr == 0x63 then AttitudeAnswered(read, data, 13, s, t)
    else if addr == 0x64 then AttitudeAnswered(read, data, 14, s, t)
    else if addr == 0x01 then BatteryAnswered(data, s, t)
    else t == s
  }

  lemma MotorsMerged(read: Reader, joints: nat, s: seq<real>, frame: seq<Byte>)
    requires |frame| >= MIN_LEN && |s| == MAX_JOINTS && 0x50 <= frame[4] < 0x5C
    ensures MotorsAnswered(joints, frame[4] - 0x50, DataOf(frame), s, Merge(read, joints, s, frame))
  {
    hide DegToRad, FromByte, AngleOf;
    var base, data, t := frame[4] - 0x50, DataOf(frame), Merge(read, joints, s, frame);
    forall i | 0 <= i < |s|
      ensures if base <= i < base + |data| && i < 12 && i < joints then AngleOf(i, data[i - base], t[i])
              else t[i] == s[i]
    {
      if base <= i < base + |data| && i < 12 && i < joints {
        AngleDecodes(i, data[i - base]);
      }
    }
  }

  lemma AttitudeMerged(read: Reader, joints: nat, s: seq<real>, frame: seq<Byte>, slot: nat)
    requires |frame| >= MIN_LEN && |s| == MAX_JOINTS && 0x62 <= frame[4] <= 0x64 && slot == frame[4] - 0x56
    ensures AttitudeAnswered(read, DataOf(frame), slot, s, Merge(read, joints, s, frame))
  {
  }

  lemma OthersMerged(read: Reader, joints: nat, s: seq<real>, frame: seq<Byte>)
    requires |frame| >= MIN_LEN && |s| == MAX_JOINTS && !(0x50 <= frame[4] < 0x5C) && !(0x62 <= frame[4] <= 0x64)
    ensures Answered(read, joints, frame[4], DataOf(frame), s, Merge(read, joints, s, frame))
  {
  }

  // One answer does to the snapshot what its register says, and nothing else.
  lemma MergeAnswers(read: Reader, joints: nat, s: seq<real>, frame: seq<Byte>)
    requires |frame| >= MIN_LEN && |s| == MAX_JOINTS
    ensures Answered(read, joints, frame[4], DataOf(frame), s, Merge(read, joints, s, frame))
  {
    hide Merge, MotorsAnswered, AttitudeAnswered;
    if 0x50 <= frame[4] < 0x5C {
      MotorsMerged(read, joints, s, frame);
    } else if 0x62 <= frame[4] <= 0x64 {
      AttitudeMerged(read, joints, s, frame, frame[4] - 0x56);
    } else {
      OthersMerged(read, joints, s, frame);
    }
  }

  predicate AllFrames(frames: seq<seq<Byte>>) {
    forall f <- frames :: |f| >= MIN_LEN
  }

  function MergeAll(read: Reader, joints: nat, s: seq<real>, frames: seq<seq<Byte>>): (t: seq<real>)
    requires AllFrames(frames)
    ensures |t| == |s|
    decreases |frames|
  {
    if frames == [] then s
    else
      assert frames[0] in frames;
      MergeAll(read, joints, Merge(read, joints, s, frames[0]), frames[1..])
  }

  // What is published after each answer: the whole snapshot, 16 slots of it.
  function Publications(read: Reader, joints: nat, s: seq<real>, frames: seq<seq<Byte>>): seq<seq<real>>
    requires AllFrames(frames) && |s| == MAX_JOINTS
    decreases |frames|
  {
    if frames == [] then []
    else
      assert frames[0] in frames;
      var t := Merge(read, joints, s, frames[0]);
      [t[..SNAPSHOT_LEN]] + Publications(read, joints, t, frames[1..])
  }

  // One publication an answer: the snapshot it leads to.
  lemma {:induction false} PublicationAt(read: Reader, joints: nat, s: seq<real>, frames: seq<seq<Byte>>, i: nat)
    requires AllFrames(frames) && |s| == MAX_JOINTS && i < |frames|
    ensures |Publications(read, joints, s, frames)| == |frames|
    ensures AllFrames(frames[..i + 1])
    ensures Publications(read, joints, s, frames)[i] == MergeAll(read, joints, s, frames[..i + 1])[..16]
    decreases |frames|
  {
    hide Merge;
    assert frames[0] in frames;
    var t := Merge(read, joints, s, frames[0]);
    assert frames[..i + 1][0] == frames[0];
    if i == 0 {
      assert frames[..1][1..] == [];
      if |frames| > 1 {
        PublicationAt(read, joints, t, frames[1..], 0);
      }
    } else {
      PublicationAt(read, joints, t, frames[1..], i - 1);
      assert frames[..i + 1][1..] == frames[1..][..i];
    }
  }

  // The last answer that wrote a slot decides its value.
  function LastWrite(read: Reader, joints: nat, frames: seq<seq<Byte>>, slot: nat, initial: real): real
    requires AllFrames(frames)
    decreases |frames|
  {
    if frames == [] then initial
    else
      var last := frames[|frames| - 1];
      match Writes(read, joints, last, slot)
      case Some(v) => v
      case None => LastWrite(read, joints, frames[..|frames| - 1], slot, initial)
  }

  lemma {:induction false} LastWriteCons(read: Reader, joints: nat, frames: seq<seq<Byte>>, slot: nat, initial: real)
    requires AllFrames(frames) && frames != []
    ensures LastWrite(read, joints, frames, slot, initial) ==
            LastWrite(read, joints, frames[1..], slot,
              match Writes(read, joints, frames[0], slot)
              case Some(v) => v
              case None => initial)
    decreases |frames|
  {
    if |frames| > 1 {
      assert frames[1..][|frames| - 2] == frames[|frames| - 1];
      assert frames[1..][..|frames| - 2] == frames[..|frames| - 1][1..];
      LastWriteCons(read, joints, frames[..|frames| - 1], slot, initial);
    }
  }

  // After any run of answers every slot holds its last write, or its initial
  // value if there was none.
  lemma {:induction false} SnapshotIsLastWrite(read: Reader, joints: nat, s: seq<real>, frames: seq<seq<Byte>>,
                                               slot: nat)
    requires AllFrames(frames) && slot < |s|
    ensures MergeAll(read, joints, s, frames)[slot] == LastWrite(read, joints, frames, slot, s[slot])
    decreases |frames|
  {
    if frames != [] {
      assert frames[0] in frames;
      SnapshotIsLastWrite(read, joints, Merge(read, joints, s, frames[0]), frames[1..], slot);
      LastWriteCons(read, joints, frames, slot, s[slot]);
    }
  }

  // Joint slots within the mechanical range, battery within one byte of tenths
  // of a volt, unused slots zero.
  predicate InRange(s: seq<real>) {
    && |s| == MAX_JOINTS
    && (forall i :: 0 <= i < LEG_MOTORS ==> DegToRad(RangeMin(i)) <= s[i] <= DegToRad(RangeMax(i)))
    && 0.0 <= s[LEG_MOTORS + 3] <= 25.5
    && (forall i :: SNAPSHOT_LEN <= i < MAX_JOINTS ==> s[i] == 0.0)
  }

  lemma FromByteInRange(raw: Byte, min: real, max: real)
    requires min < max
    ensures min <= FromByte(raw, min, max) <= max
  {
    var part, w := raw as real / 255.0, max - min;
    MulMono(0.0, part, w);
    MulMono(part, 1.0, w);
    assert FromByte(raw, min, max) == part * w + min;
  }

  lemma WriteInRange(read: Reader, joints: nat, frame: seq<Byte>, slot: nat)
    requires |frame| >= MIN_LEN
    ensures match Writes(read, joints, frame, slot)
            case None => true
            case Some(v) =>
              && (slot < LEG_MOTORS ==> DegToRad(RangeMin(slot)) <= v <= DegToRad(RangeMax(slot)))
              && (slot == LEG_MOTORS + 3 ==> 0.0 <= v <= 25.5)
              && slot < SNAPSHOT_LEN
  {
    var base: nat := (frame[4] - REG_MOTOR_ANGLE) % 256;
    if base < LEG_MOTORS && base <= slot < Min(joints, LEG_MOTORS) && slot - base < |DataOf(frame)| {
      FromByteInRange(DataOf(frame)[slot - base], RangeMin(slot), RangeMax(slot));
    }
  }

  lemma MergeInRange(read: Reader, joints: nat, s: seq<real>, frame: seq<Byte>)
    requires |frame| >= MIN_LEN && InRange(s)
    ensures InRange(Merge(read, joints, s, frame))
  {
    hide Writes;
    var t := Merge(read, joints, s, frame);
    forall i | 0 <= i < LEG_MOTORS ensures DegToRad(RangeMin(i)) <= t[i] <= DegToRad(RangeMax(i)) {
      WriteInRange(read, joints, frame, i);
    }
    WriteInRange(read, joints, frame, LEG_MOTORS + 3);
    forall i | SNAPSHOT_LEN <= i < MAX_JOINTS ensures t[i] == 0.0 {
      WriteInRange(read, joints, frame, i);
    }
  }

  // The ranges hold after every run that starts from the zero snapshot.
  lemma {:induction false} SnapshotInRange(read: Reader, joints: nat, s: seq<real>, frames: seq<seq<Byte>>)
    requires AllFrames(frames) && InRange(s)
    ensures InRange(MergeAll(read, joints, s, frames))
    decreases |frames|
  {
    if frames != [] {
      assert frames[0] in frames;
      MergeInRange(read, joints, s, frames[0]);
      SnapshotInRange(read, joints, Merge(read, joints, s, frames[0]), frames[1..]);
    }
  }

  lemma ZeroInRange(s: seq<real>)
    requires |s| == MAX_JOINTS && forall i :: 0 <= i < MAX_JOINTS ==> s[i] == 0.0
    ensures InRange(s)
  {
  }

  // ---------------------------------------------------------- Poll schedule

  function PollRegister(phase: nat): Byte {
    match phase % 5
    case 0 => REG_MOTOR_ANGLE
    case 1 => REG_ROLL
    case 2 => REG_PITCH
    case 3 => REG_YAW
    case _ => REG_BATTERY
  }

  // Bytes a poll asks for.
  function PollLength(phase: nat): Byte {
    match phase % 5
    case 0 => LEG_MOTORS
    case 4 => 1
    case _ => 4
  }

  // The register polled j requests after the counter stood at c; the counter
  // is one byte.
  function Polled(c: Byte, j: nat): Byte {
    PollRegister((c + j) % 256)
  }

  // Five polls in turn: what a poll asks for depends on its phase only.
  lemma PhaseDecides(c: Byte)
    ensures PollRegister(c % 5) == Polled(c, 0) && PollLength(c % 5) == PollLength(c)
  {
  }

  // The registers take turns.
  lemma PollsInTurn(c: Byte)
    ensures Polled(c, 0) == [0x50, 0x62, 0x63, 0x64, 0x01][c % 5]
  {
  }

  // Each register is asked for as many bytes as its answer is decoded from: one
  // a motor, four of an f32, one of the battery.
  lemma PollAsksForAll(c: Byte)
    ensures Polled(c, 0) == 0x50 <==> PollLength(c) == 12
    ensures Polled(c, 0) in {0x62, 0x63, 0x64} <==> PollLength(c) == 4
    ensures Polled(c, 0) == 0x01 <==> PollLength(c) == 1
  {
  }

  const TELEMETRY: set<Byte> := {REG_MOTOR_ANGLE, REG_ROLL, REG_PITCH, REG_YAW, REG_BATTERY}

  // The n polls from counter c on ask for every telemetry register.
  predicate Covers(c: Byte, n: nat) {
    forall r | r in TELEMETRY :: exists j | 0 <= j < n :: Polled(c, j) == r
  }

  lemma RegisterPhase(r: Byte) returns (p: nat)
    requires r in TELEMETRY
    ensures p < 5 && forall v: nat :: v % 5 == p <==> PollRegister(v) == r
  {
    p := if r == REG_MOTOR_ANGLE then 0 else if r == REG_ROLL then 1 else if r == REG_PITCH then 2
         else if r == REG_YAW then 3 else 4;
  }

  // Phase p comes up within five polls if the counter does not wrap ...
  lemma PhaseWithinFive(c: Byte, p: nat) returns (j: nat)
    requires p < 5 && c + 4 < 256
    ensures j < 5 && (c + j) % 256 % 5 == p
  {
    var d := c % 5;
    j := if p >= d then p - d else p + 5 - d;
    assert (c + j) % 5 == p;
  }

  // ... and within six in any case: the counter wraps right behind phase 0.
  lemma PhaseWithinSix(c: Byte, p: nat) returns (j: nat)
    requires p < 5
    ensures j < 6 && (c + j) % 256 % 5 == p
  {
    if c + 4 < 256 {
      j := PhaseWithinFive(c, p);
    } else if p <= c - 251 {
      j := 256 - c + p;
      assert (c + j) % 256 == p;
    } else {
      j := 250 + p - c;
      assert (c + j) % 256 == 250 + p;
    }
  }

  // Every six consecutive polls ask for all five registers ...
  lemma SixPollsCover(c: Byte)
    ensures Covers(c, 6)
  {
    forall r | r in TELEMETRY ensures exists j | 0 <= j < 6 :: Polled(c, j) == r {
      var p := RegisterPhase(r);
      var j := PhaseWithinSix(c, p);
      assert Polled(c, j) == r;
    }
  }

  // ... but five do so exactly when the counter does not wrap among them, 256
  // not being a multiple of 5.
  lemma FivePollsCoverExactly(c: Byte)
    ensures Covers(c, 5) <==> c + 4 < 256
  {
    if c + 4 < 256 {
      forall r | r in TELEMETRY ensures exists j | 0 <= j < 5 :: Polled(c, j) == r {
        var p := RegisterPhase(r);
        var j := PhaseWithinFive(c, p);
        assert Polled(c, j) == r;
      }
    } else {
      var missing := PollRegister(c - 251);
      var p := RegisterPhase(missing);
      forall j | 0 <= j < 5 ensures Polled(c, j) != missing {
        var v := (c + j) % 256;
        assert v == if c + j < 256 then c + j else c + j - 256;
        assert v % 5 != p;
      }
      assert missing in TELEMETRY;
    }
  }

  // --------------------------------------------------------------- Encoding

  // Quantised joint targets (radians) of the first n joints.
  function JointBytes(targets: seq<real>, n: nat): (data: seq<Byte>)
    requires n <= |targets|
    ensures |data| == n
  {
    seq(n, i requires 0 <= i < n => ToByte(RadToDeg(targets[i]), RangeMin(i), RangeMax(i)))
  }

  function VelocityBytes(targets: seq<real>): seq<Byte>
    requires |targets| == MAX_JOINTS
  {
    [ToByte(targets[LEG_MOTORS] * 100.0, -25.0, 25.0),
     ToByte(targets[LEG_MOTORS + 1] * 100.0, -18.0, 18.0),
     ToByte(RadToDeg(targets[LEG_MOTORS + 2]), -100.0, 100.0)]
  }

  // Register writes of a command, in order.
  function CommandFrames(targets: seq<real>, len: nat): (frames: seq<seq<Byte>>)
    requires |targets| == MAX_JOINTS && len <= MAX_JOINTS
  {
    (if len > 0 then [FrameBytes(MODE_WRITE, REG_MOTOR_ANGLE, JointBytes(targets, Min(len, LEG_MOTORS)))] else []) +
    (if len >= LEG_MOTORS + 3 then [FrameBytes(MODE_WRITE, REG_VX, VelocityBytes(targets))] else []) +
    (if len >= LEG_MOTORS + 4 then
      [FrameBytes(MODE_WRITE, REG_ACTION, [Clamp(targets[LEG_MOTORS + 3], 0.0, 255.0).Floor])] else [])
  }

  // The frames that fit, each tried against the room left by the earlier ones.
  function Fit(frames: seq<seq<Byte>>, room: nat): (fitting: seq<seq<Byte>>)
    ensures |Flatten(fitting)| <= room
    decreases |frames|
  {
    if frames == [] then []
    else if |frames[0]| <= room then [frames[0]] + Fit(frames[1..], room - |frames[0]|)
    else Fit(frames[1..], room)
  }

  lemma {:induction false} FitSelects(frames: seq<seq<Byte>>, room: nat, f: seq<Byte>)
    requires f in Fit(frames, room)
    ensures f in frames
    decreases |frames|
  {
    if f != frames[0] || |frames[0]| > room {
      FitSelects(frames[1..], if |frames[0]| <= room then room - |frames[0]| else room, f);
    }
  }

  // A frame is left out only if it does not fit: all are there exactly if they
  // fit together.
  lemma {:induction false} FitExactly(frames: seq<seq<Byte>>, room: nat)
    ensures Fit(frames, room) == frames <==> |Flatten(frames)| <= room
    ensures forall i | 0 <= i < |frames| :: frames[i] !in Fit(frames, room) ==> |Flatten(frames[..i + 1])| > room
    decreases |frames|
  {
    if frames != [] {
      var f, rest := frames[0], frames[1..];
      FitExactly(rest, if |f| <= room then room - |f| else room);
      forall i | 0 <= i < |frames|
        ensures frames[i] !in Fit(frames, room) ==> |Flatten(frames[..i + 1])| > room
      {
        assert frames[..i + 1][1..] == rest[..i];
        assert Flatten(frames[..i + 1]) == f + Flatten(rest[..i]);
        if i > 0 {
          assert rest[i - 1] == frames[i];
        }
      }
      if |f| > room {
        FitShort(rest, room);
      }
    }
  }

  lemma {:induction false} FitShort(frames: seq<seq<Byte>>, room: nat)
    ensures |Fit(frames, room)| <= |frames|
    decreases |frames|
  {
    if frames != [] {
      FitShort(frames[1..], if |frames[0]| <= room then room - |frames[0]| else room);
    }
  }

  lemma CommandFramesAreFrames(targets: seq<real>, len: nat)
    requires |targets| == MAX_JOINTS && len <= MAX_JOINTS
    ensures forall f <- CommandFrames(targets, len) :: IsFrame(f)
  {
    hide IsFrame, FrameBytes;
    if len > 0 {
      FrameBytesIsFrame(MODE_WRITE, REG_MOTOR_ANGLE, JointBytes(targets, Min(len, LEG_MOTORS)));
    }
    FrameBytesIsFrame(MODE_WRITE, REG_VX, VelocityBytes(targets));
    FrameBytesIsFrame(MODE_WRITE, REG_ACTION, [Clamp(targets[LEG_MOTORS + 3], 0.0, 255.0).Floor]);
  }

  // Whatever the buffer size, an encoded command consists of whole frames: the
  // receiver finds exactly those, and no byte is left over.
  lemma EncodedCommandScans(targets: seq<real>, len: nat, room: nat)
    requires |targets| == MAX_JOINTS && len <= MAX_JOINTS
    ensures Progressing(Xgo())
    ensures var fitting := Fit(CommandFrames(targets, len), room);
            Drain(Xgo(), Flatten(fitting)) == Drained(fitting, [])
  {
    var frames := CommandFrames(targets, len);
    CommandFramesAreFrames(targets, len);
    forall f | f in Fit(frames, room) ensures IsFrame(f) {
      FitSelects(frames, room, f);
    }
    FrameStreamRoundTrip(Fit(frames, room));
  }

  lemma ScaleAngles(deg: real, rad: real)
    ensures RadToDeg(DegToRad(deg)) == deg && DegToRad(RadToDeg(rad)) == rad
    ensures rad <= DegToRad(deg) <==> RadToDeg(rad) <= deg
    ensures rad >= DegToRad(deg) <==> RadToDeg(rad) >= deg
  {
  }

  // Joint targets fed back as a motor-angle answer decode to within one
  // quantisation step below the target clamped to the joint's range.
  lemma EncodedJointDecodes(read: Reader, joints: nat, targets: seq<real>, n: nat, mode: Byte, i: nat)
    requires |targets| == MAX_JOINTS && i < n <= LEG_MOTORS && i < joints
    ensures var lo, hi := DegToRad(RangeMin(i)), DegToRad(RangeMax(i));
            var v := Writes(read, joints, FrameBytes(mode, REG_MOTOR_ANGLE, JointBytes(targets, n)), i);
            v.Some? && lo < hi && Clamp(targets[i], lo, hi) - (hi - lo) / 255.0 < v.value <= Clamp(targets[i], lo, hi)
  {
    hide ChecksumOf, ToByte, FromByte, DegToRad, RadToDeg;
    var data, min, max := JointBytes(targets, n), RangeMin(i), RangeMax(i);
    var f := FrameBytes(mode, REG_MOTOR_ANGLE, data);
    assert DataOf(f) == data && f[4] == REG_MOTOR_ANGLE;
    QuantisedAngle(targets[i], min, max);
  }

  // The quantiser's error bound, in radians.
  lemma QuantisedAngle(rad: real, min: real, max: real)
    requires min < max
    ensures var lo, hi, back := DegToRad(min), DegToRad(max), FromByte(ToByte(RadToDeg(rad), min, max), min, max);
            lo < hi && Clamp(rad, lo, hi) - (hi - lo) / 255.0 < DegToRad(back) <= Clamp(rad, lo, hi)
  {
    hide ToByte, FromByte;
    var deg := RadToDeg(rad);
    QuantiserError(deg, min, max);
    ScaleAngles(min, rad);
    ScaleAngles(max, rad);
    assert DegToRad(Clamp(deg, min, max)) == Clamp(rad, DegToRad(min), DegToRad(max));
  }

  // The gait registers hold the commanded speeds (cm/s and degrees/s) clamped to
  // the gait limits, to within one quantisation step.
  lemma VelocityDecodes(targets: seq<real>)
    requires |targets| == MAX_JOINTS
    ensures var v := VelocityBytes(targets);
            var vx, vy, yaw := FromByte(v[0], -25.0, 25.0), FromByte(v[1], -18.0, 18.0), FromByte(v[2], -100.0, 100.0);
            && |v| == 3
            && -50.0 / 255.0 < vx - Clamp(100.0 * targets[12], -25.0, 25.0) <= 0.0
            && -36.0 / 255.0 < vy - Clamp(100.0 * targets[13], -18.0, 18.0) <= 0.0
            && -200.0 / 255.0 < yaw - Clamp(RadToDeg(targets[14]), -100.0, 100.0) <= 0.0
  {
    hide ToByte, FromByte;
    QuantiserError(targets[12] * 100.0, -25.0, 25.0);
    QuantiserError(targets[13] * 100.0, -18.0, 18.0);
    QuantiserError(RadToDeg(targets[14]), -100.0, 100.0);
  }

  // A byte stands for a value within a range, to within one step below it.
  predicate Encodes(raw: Byte, value: real, min: real, max: real)
    requires min <= max
  {
    Clamp(value, min, max) - (max - min) / 255.0 < FromByte(raw, min, max) <= Clamp(value, min, max)
  }

  // A register write.
  predicate WritesTo(frame: seq<Byte>, addr: Byte, count: nat) {
    IsFrame(frame) && frame[3] == 0x00 && frame[4] == addr && |DataOf(frame)| == count
  }

  predicate AnglesWritten(frame: seq<Byte>, targets: seq<real>, n: nat)
    requires n <= |targets|
  {
    && WritesTo(frame, 0x50, n)
    && forall i | 0 <= i < n :: Encodes(DataOf(frame)[i], RadToDeg(targets[i]), RangeMin(i), RangeMax(i))
  }

  predicate GaitWritten(frame: seq<Byte>, vx: real, vy: real, yaw: real) {
    && WritesTo(frame, 0x30, 3)
    && Encodes(DataOf(frame)[0], 100.0 * vx, -25.0, 25.0)
    && Encodes(DataOf(frame)[1], 100.0 * vy, -18.0, 18.0)
    && Encodes(DataOf(frame)[2], RadToDeg(yaw), -100.0, 100.0)
  }

  predicate ActionWritten(frame: seq<Byte>, action: real) {
    && WritesTo(frame, 0x3E, 1)
    && DataOf(frame)[0] as real <= Clamp(action, 0.0, 255.0) < DataOf(frame)[0] as real + 1.0
  }

  // What goes to which register: the angles of up to twelve joints, in degrees,
  // to 0x50; from 15 targets on the gait speeds to 0x30, in centimetres and
  // degrees per second; from 16 on the action, rounded down, to 0x3E.
  lemma CommandRegisters(targets: seq<real>, len: nat)
    requires |targets| == MAX_JOINTS && len <= MAX_JOINTS
    ensures var fs := CommandFrames(targets, len);
            && |fs| == (if len == 0 then 0 else if len < 15 then 1 else if len == 15 then 2 else 3)
            && (len > 0 ==> AnglesWritten(fs[0], targets, Min(len, 12)))
            && (len >= 15 ==> GaitWritten(fs[1], targets[12], targets[13], targets[14]))
            && (len >= 16 ==> ActionWritten(fs[2], targets[15]))
  {
    hide FrameBytes, AnglesWritten, GaitWritten, ActionWritten;
    if len > 0 {
      JointWrite(targets, Min(len, LEG_MOTORS));
    }
    GaitWrite(targets);
    ActionWrite(targets[15]);
  }

  lemma FrameOf(mode: Byte, addr: Byte, data: seq<Byte>)
    requires 1 <= |data| <= MAX_LEN - OVERHEAD
    ensures var f := FrameBytes(mode, addr, data);
            IsFrame(f) && f[3] == mode && f[4] == addr && DataOf(f) == data
  {
    FrameBytesIsFrame(mode, addr, data);
  }

  lemma JointWrite(targets: seq<real>, n: nat)
    requires |targets| == MAX_JOINTS && 1 <= n <= LEG_MOTORS
    ensures AnglesWritten(FrameBytes(MODE_WRITE, REG_MOTOR_ANGLE, JointBytes(targets, n)), targets, n)
  {
    hide IsFrame, FrameBytes, ToByte, FromByte, RadToDeg;
    FrameOf(MODE_WRITE, REG_MOTOR_ANGLE, JointBytes(targets, n));
    forall i | 0 <= i < n
      ensures Encodes(JointBytes(targets, n)[i], RadToDeg(targets[i]), RangeMin(i), RangeMax(i))
    {
      QuantiserError(RadToDeg(targets[i]), RangeMin(i), RangeMax(i));
    }
  }

  lemma GaitWrite(targets: seq<real>)
    requires |targets| == MAX_JOINTS
    ensures GaitWritten(FrameBytes(MODE_WRITE, REG_VX, VelocityBytes(targets)), targets[12], targets[13], targets[14])
  {
    hide IsFrame, FrameBytes, ToByte, FromByte, RadToDeg;
    FrameOf(MODE_WRITE, REG_VX, VelocityBytes(targets));
    QuantiserError(targets[12] * 100.0, -25.0, 25.0);
    QuantiserError(targets[13] * 100.0, -18.0, 18.0);
    QuantiserError(RadToDeg(targets[14]), -100.0, 100.0);
  }

  lemma ActionWrite(action: real)
    ensures ActionWritten(FrameBytes(MODE_WRITE, REG_ACTION, [Clamp(action, 0.0, 255.0).Floor]), action)
  {
    hide IsFrame, FrameBytes;
    FrameOf(MODE_WRITE, REG_ACTION, [Clamp(action, 0.0, 255.0).Floor]);
  }

  // An output buffer while the frames in `todo` are still to be tried.
  predicate Encoding(now: seq<Byte>, before: seq<Byte>, written: nat, done: seq<seq<Byte>>, todo: seq<seq<Byte>>,
                     fitting: seq<seq<Byte>>)
  {
    && written == |Flatten(done)| && written <= |before|
    && now == Flatten(done) + before[written..]
    && done + Fit(todo, |before| - written) == fitting
  }

  // One frame behind what is written, if there is room for it ...
  lemma EncodingFits(now: seq<Byte>, next: seq<Byte>, before: seq<Byte>, off: nat, done: seq<seq<Byte>>,
                     todo: seq<seq<Byte>>, fitting: seq<seq<Byte>>)
    requires Encoding(now, before, off, done, todo, fitting) && todo != [] && off + |todo[0]| <= |before| == |now|
    requires next == now[..off] + todo[0] + now[off + |todo[0]|..]
    ensures Encoding(next, before, off + |todo[0]|, done + [todo[0]], todo[1..], fitting)
  {
    hide Flatten;
    var f, room := todo[0], |before| - off;
    FlattenSnoc(done, f);
    assert now[..off] == Flatten(done);
    assert now[off + |f|..] == before[off + |f|..];
    assert done + [f] + Fit(todo[1..], room - |f|) == done + ([f] + Fit(todo[1..], room - |f|));
  }

  // ... and nothing at all otherwise.
  lemma EncodingSkips(now: seq<Byte>, before: seq<Byte>, off: nat, done: seq<seq<Byte>>, todo: seq<seq<Byte>>,
                      fitting: seq<seq<Byte>>)
    requires Encoding(now, before, off, done, todo, fitting) && todo != [] && off + |todo[0]| > |before|
    ensures Encoding(now, before, off, done, todo[1..], fitting)
  {
    hide Flatten;
  }

  // Appends one frame if it fits.
  method PushNext(out: array<Byte>, off: nat, mode: Byte, addr: Byte, data: seq<Byte>, ghost before: seq<Byte>,
                  ghost done: seq<seq<Byte>>, ghost todo: seq<seq<Byte>>, ghost fitting: seq<seq<Byte>>)
    returns (written: nat, ghost done': seq<seq<Byte>>)
    requires |data| + OVERHEAD < 256 && todo != [] && todo[0] == FrameBytes(mode, addr, data)
    requires |before| == out.Length && Encoding(out[..], before, off, done, todo, fitting)
    modifies out
    ensures Encoding(out[..], before, written, done', todo[1..], fitting)
  {
    hide FrameBytes, Flatten, Fit;
    ghost var now := out[..];
    assert off <= out.Length;
    hide Encoding;
    var k := PushFrame(out, off, mode, addr, data);
    written := off + k;
    if k > 0 {
      done' := done + [todo[0]];
      EncodingFits(now, out[..], before, off, done, todo, fitting);
    } else {
      done' := done;
      EncodingSkips(now, before, off, done, todo, fitting);
    }
  }

  // ------------------------------------------------------------- The codec

  class XgoUart {
    var pollPhase: Byte
    const snapshot: array<real>
    const read: Reader

    predicate Valid() {
      snapshot.Length == MAX_JOINTS
    }

    constructor (read: Reader)
      ensures Valid() && fresh(snapshot)
      ensures this.read == read && pollPhase == 0 && InRange(snapshot[..])
      ensures forall k | 0 <= k < MAX_JOINTS :: snapshot[k] == 0.0
    {
      this.read := read;
      pollPhase := 0;
      snapshot := new real[MAX_JOINTS](_ => 0.0);
      new;
      ZeroInRange(snapshot[..]);
    }

    // Consecutive joint angles from joint `base` on.
    method StoreAngles(data: seq<Byte>, base: nat, motors: nat)
      requires Valid() && motors <= LEG_MOTORS
      modifies snapshot
      ensures forall k | 0 <= k < MAX_JOINTS :: snapshot[k] ==
                if base <= k < motors && k - base < |data|
                then DegToRad(FromByte(data[k - base], RangeMin(k), RangeMax(k)))
                else old(snapshot[k])
    {
      var i := 0;
      while i < |data| && base + i < motors
        invariant 0 <= i <= |data|
        invariant forall k | 0 <= k < MAX_JOINTS :: snapshot[k] ==
                    if base <= k < motors && k - base < i
                    then DegToRad(FromByte(data[k - base], RangeMin(k), RangeMax(k)))
                    else old(snapshot[k])
      {
        snapshot[base + i] := DegToRad(FromByte(data[i], RangeMin(base + i), RangeMax(base + i)));
        i := i + 1;
      }
    }

    // The slots an answered register read sets.
    method StoreAnswer(ghost frame: seq<Byte>, addr: Byte, data: seq<Byte>, joints: nat)
      requires Valid() && |frame| >= MIN_LEN && frame[4] == addr && DataOf(frame) == data
      modifies snapshot
      ensures snapshot[..] == Merge(read, joints, old(snapshot[..]), frame)
    {
      hide FromByte, DegToRad;
      var base: nat := (addr - REG_MOTOR_ANGLE) % 256;
      if base < LEG_MOTORS {
        StoreAngles(data, base, Min(joints, LEG_MOTORS));
      } else if (addr == REG_ROLL || addr == REG_PITCH || addr == REG_YAW) && |data| >= 4 {
        var raw := read(data[..4]);
        if raw.Fin? {
          var slot :=
            if addr == REG_ROLL then LEG_MOTORS
            else if addr == REG_PITCH then LEG_MOTORS + 1
            else LEG_MOTORS + 2;
          snapshot[slot] := DegToRad(raw.r);
        }
      } else if addr == REG_BATTERY && data != [] {
        snapshot[LEG_MOTORS + 3] := data[0] as real * 0.1;
      }
      assert snapshot[..] == Merge(read, joints, old(snapshot[..]), frame);
    }

    method DecodeTelemetry(acc: seq<Byte>, joints: nat) returns (r: Option<Decoded<real>>)
      requires Valid()
      modifies snapshot
      ensures match ScanFrame(acc)
              case Frame(len, addr, dataLen) =>
                && snapshot[..] == Merge(read, joints, old(snapshot[..]), acc[..len])
                && Answered(read, joints, acc[4], acc[5..len - 3], old(snapshot[..]), snapshot[..])
                && r == Some(Decoded(len, snapshot[..], SNAPSHOT_LEN))
              case Garbage(skip) =>
                && snapshot[..] == old(snapshot[..])
                && r == Some(Decoded(skip, snapshot[..], 0))
              case Incomplete => snapshot[..] == old(snapshot[..]) && r == None
    {
      hide ScanFrame, Merge, Answered;
      match ScanFrame(acc)
      case Incomplete =>
        r := None;
      case Garbage(skip) =>
        r := Some(Decoded(skip, snapshot[..], 0));
      case Frame(len, addr, dataLen) =>
        ScanFindsFrame(acc);
        var data := acc[5..5 + dataLen];
        assert DataOf(acc[..len]) == data && acc[..len][4] == addr;
        MergeAnswers(read, joints, snapshot[..], acc[..len]);
        StoreAnswer(acc[..len], addr, data, joints);
        r := Some(Decoded(len, snapshot[..], SNAPSHOT_LEN));
    }

    method PollRequest(out: array<Byte>) returns (written: nat)
      modifies this`pollPhase, out
      ensures pollPhase == (old(pollPhase) + 1) % 256
      ensures written == if out.Length >= MIN_LEN then MIN_LEN else 0
      ensures out[..] == if out.Length >= MIN_LEN
                         then FrameBytes(MODE_READ, Polled(old(pollPhase), 0), [PollLength(old(pollPhase))])
                              + old(out[..])[MIN_LEN..]
                         else old(out[..])
    {
      hide FrameBytes, PollRegister, PollLength, Polled;
      var phase := pollPhase % 5;
      PhaseDecides(pollPhase);
      pollPhase := (pollPhase + 1) % 256;
      written := PushFrame(out, 0, MODE_READ, PollRegister(phase), [PollLength(phase)]);
    }

    method EncodeCommand(targets: seq<real>, len: nat, out: array<Byte>) returns (written: nat)
      requires |targets| == MAX_JOINTS && len <= MAX_JOINTS
      modifies out
      ensures var fitting := Fit(CommandFrames(targets, len), out.Length);
              written == |Flatten(fitting)| && out[..] == Flatten(fitting) + old(out[..])[written..]
    {
      hide FrameBytes, ToByte, Encoding, Fit;
      ghost var before, all := out[..], CommandFrames(targets, len);
      ghost var done, todo, fitting := [], all, Fit(all, out.Length);
      EncodingStarts(before, todo);
      written := 0;
      if len > 0 {
        var payload := JointBytes(targets, Min(len, LEG_MOTORS));
        written, done := PushNext(out, written, MODE_WRITE, REG_MOTOR_ANGLE, payload, before, done, todo, fitting);
        todo := todo[1..];
      }
      if len >= LEG_MOTORS + 3 {
        var payload := VelocityBytes(targets);
        written, done := PushNext(out, written, MODE_WRITE, REG_VX, payload, before, done, todo, fitting);
        todo := todo[1..];
      }
      if len >= LEG_MOTORS + 4 {
        var payload: seq<Byte> := [Clamp(targets[LEG_MOTORS + 3], 0.0, 255.0).Floor];
        written, done := PushNext(out, written, MODE_WRITE, REG_ACTION, payload, before, done, todo, fitting);
        todo := todo[1..];
      }
      assert |todo| == 0;
      EncodingEnds(out[..], before, written, done, todo, fitting);
    }
  }

  lemma EncodingStarts(before: seq<Byte>, todo: seq<seq<Byte>>)
    ensures Encoding(before, before, 0, [], todo, Fit(todo, |before|))
  {
    assert [] + before[0..] == before;
    assert [] + Fit(todo, |before|) == Fit(todo, |before|);
  }

  lemma EncodingEnds(now: seq<Byte>, before: seq<Byte>, written: nat, done: seq<seq<Byte>>,
                     todo: seq<seq<Byte>>, fitting: seq<seq<Byte>>)
    requires Encoding(now, before, written, done, todo, fitting) && todo == []
    ensures written == |Flatten(fitting)| <= |before| && now == Flatten(fitting) + before[written..]
  {
    assert done + [] == done;
  }

  // One serial connection to the robot: the drain loop over the codec, guarded
  // against the empty buffer on which the code would flush zero bytes for ever.
  class XgoConnection {
    const codec: XgoUart
    const joints: nat
    var acc: seq<Byte>
    var frames: nat
    var published: seq<seq<real>>

    constructor (codec: XgoUart, joints: nat)
      ensures this.codec == codec && this.joints == joints && acc == [] && frames == 0 && published == []
    {
      this.codec, this.joints := codec, joints;
      acc, frames, published := [], 0, [];
    }

    method DrainFrames()
      requires codec.Valid()
      modifies this, codec.snapshot
      ensures Progressing(Xgo())
      ensures var found := Drain(Xgo(), old(acc));
              && acc == found.residue && AllFrames(found.telemetry)
              && codec.snapshot[..] == MergeAll(codec.read, joints, old(codec.snapshot[..]), found.telemetry)
              && published == old(published)
                              + Publications(codec.read, joints, old(codec.snapshot[..]), found.telemetry)
              && frames == old(frames) + |found.telemetry|
    {
      hide ScanFrame, Merge, Drain, MergeAll, Publications;
      XgoProgresses();
      DrainedFrames(acc);
      ghost var goal := RunFrom(codec.read, joints, acc, codec.snapshot[..], published, frames);
      var more := true;
      while acc != [] && more
        invariant !more ==> Next(acc).None?
        invariant RunFrom(codec.read, joints, acc, codec.snapshot[..], published, frames) == goal
        decreases |acc|, more
      {
        ghost var s := codec.snapshot[..];
        RunStep(codec.read, joints, acc, s, published, frames);
        var decoded := codec.DecodeTelemetry(acc, joints);
        if decoded.None? {
          more := false;
        } else {
          var m := decoded.value;
          if m.n > 0 {
            published := published + [m.values[..m.n]];
            frames := frames + 1;
          }
          acc := acc[m.consumed..];
        }
      }
      RunStep(codec.read, joints, acc, codec.snapshot[..], published, frames);
    }

    // A connection that delivers the given chunks, one read at a time.
    method ReadAll(chunks: seq<seq<Byte>>)
      requires codec.Valid()
      modifies this, codec.snapshot
      ensures Progressing(Xgo())
      ensures var found := Feed(Xgo(), old(acc), chunks);
              && acc == found.residue && AllFrames(found.telemetry)
              && codec.snapshot[..] == MergeAll(codec.read, joints, old(codec.snapshot[..]), found.telemetry)
              && published == old(published)
                              + Publications(codec.read, joints, old(codec.snapshot[..]), found.telemetry)
              && frames == old(frames) + |found.telemetry|
    {
      hide Drain, Feed, MergeAll, Publications, AllFrames, Merge;
      XgoProgresses();
      FedFrames(acc, chunks);
      ghost var goal := Fed(codec.read, joints, acc, codec.snapshot[..], published, frames, chunks);
      var i := 0;
      assert chunks[0..] == chunks;
      while i < |chunks|
        invariant 0 <= i <= |chunks|
        invariant Fed(codec.read, joints, acc, codec.snapshot[..], published, frames, chunks[i..]) == goal
      {
        ghost var s := codec.snapshot[..];
        assert chunks[i..][0] == chunks[i] && chunks[i..][1..] == chunks[i + 1..];
        FedStep(codec.read, joints, acc, s, published, frames, chunks[i..]);
        acc := acc + chunks[i];
        DrainFrames();
        i := i + 1;
      }
      FedStep(codec.read, joints, acc, codec.snapshot[..], published, frames, chunks[i..]);
    }
  }

  // Everything a drain leaves behind, from a given intermediate state.
  datatype Outcome = Outcome(acc: seq<Byte>, snapshot: seq<real>, published: seq<seq<real>>, frames: nat)

  function Gathered(read: Reader, joints: nat, s: seq<real>, published: seq<seq<real>>, frames: nat,
                    found: Drained<Byte>): (o: Outcome)
    requires |s| == MAX_JOINTS && AllFrames(found.telemetry)
    ensures |o.snapshot| == MAX_JOINTS
  {
    Outcome(found.residue, MergeAll(read, joints, s, found.telemetry),
            published + Publications(read, joints, s, found.telemetry), frames + |found.telemetry|)
  }

  ghost function RunFrom(read: Reader, joints: nat, acc: seq<Byte>, s: seq<real>, published: seq<seq<real>>,
                         frames: nat): (o: Outcome)
    requires |s| == MAX_JOINTS
    ensures |o.snapshot| == MAX_JOINTS
  {
    DrainedFrames(acc);
    Gathered(read, joints, s, published, frames, Drain(Xgo(), acc))
  }

  lemma DrainedFrames(acc: seq<Byte>)
    ensures Progressing(Xgo()) && AllFrames(Drain(Xgo(), acc).telemetry)
  {
    ScannerRefinesNaive(acc);
    NaiveFrames(acc);
  }

  lemma {:induction false} NaiveFrames(acc: seq<Byte>)
    ensures AllFrames(NaiveScan(acc).telemetry)
    decreases |acc|
  {
    if acc != [] && !Pending(acc) {
      NaiveFrames(if StartsFrame(acc) then acc[acc[2]..] else acc[1..]);
    }
  }

  lemma RunStep(read: Reader, joints: nat, acc: seq<Byte>, s: seq<real>, published: seq<seq<real>>, frames: nat)
    requires |s| == MAX_JOINTS
    ensures Next(acc).None? ==> RunFrom(read, joints, acc, s, published, frames) == Outcome(acc, s, published, frames)
    ensures acc != [] && ScanFrame(acc).Garbage? ==>
              RunFrom(read, joints, acc, s, published, frames) ==
              RunFrom(read, joints, acc[ScanFrame(acc).skip..], s, published, frames)
    ensures ScanFrame(acc).Frame? ==>
              var f := acc[..ScanFrame(acc).len];
              var t := Merge(read, joints, s, f);
              RunFrom(read, joints, acc, s, published, frames) ==
              RunFrom(read, joints, acc[|f|..], t, published + [t[..SNAPSHOT_LEN]], frames + 1)
  {
    hide ScanFrame, Merge;
    XgoProgresses();
    var d := Xgo();
    if Next(acc).None? {
      assert Drain(d, acc) == Drained([], acc);
    } else if ScanFrame(acc).Garbage? {
      var rest := acc[ScanFrame(acc).skip..];
      assert [] + Drain(d, rest).telemetry == Drain(d, rest).telemetry;
    } else {
      var f := acc[..ScanFrame(acc).len];
      var rest := Drain(d, acc[|f|..]);
      DrainedFrames(acc[|f|..]);
      assert f[..|f|] == f;
      assert Drain(d, acc) == Then(Drained([f], []), rest);
      GatheredOne(read, joints, s, published, frames, f);
      hide Gathered, Drain;
      GatheredThen(read, joints, s, published, frames, Drained([f], []), rest);
    }
  }

  lemma GatheredOne(read: Reader, joints: nat, s: seq<real>, published: seq<seq<real>>, frames: nat, f: seq<Byte>)
    requires |s| == MAX_JOINTS && |f| >= MIN_LEN
    ensures AllFrames([f])
    ensures var t := Merge(read, joints, s, f);
            Gathered(read, joints, s, published, frames, Drained([f], [])) ==
            Outcome([], t, published + [t[..SNAPSHOT_LEN]], frames + 1)
  {
    hide Merge;
    var t := Merge(read, joints, s, f);
    assert [f][0] == f && [f][1..] == [];
    assert MergeAll(read, joints, t, []) == t && Publications(read, joints, t, []) == [];
    assert Publications(read, joints, s, [f]) == [t[..SNAPSHOT_LEN]];
  }

  // ------------------------------------------------- Several reads in a row

  lemma {:induction false} FedFrames(acc: seq<Byte>, chunks: seq<seq<Byte>>)
    ensures Progressing(Xgo()) && AllFrames(Feed(Xgo(), acc, chunks).telemetry)
    decreases |chunks|
  {
    hide Drain;
    XgoProgresses();
    if chunks != [] {
      DrainedFrames(acc + chunks[0]);
      FedFrames(Drain(Xgo(), acc + chunks[0]).residue, chunks[1..]);
    }
  }

  lemma {:induction false} MergeAllAppend(read: Reader, joints: nat, s: seq<real>, xs: seq<seq<Byte>>,
                                          ys: seq<seq<Byte>>)
    requires AllFrames(xs) && AllFrames(ys)
    ensures AllFrames(xs + ys)
    ensures MergeAll(read, joints, s, xs + ys) == MergeAll(read, joints, MergeAll(read, joints, s, xs), ys)
    decreases |xs|
  {
    hide Merge;
    if xs == [] {
      assert xs + ys == ys;
    } else {
      assert xs[0] in xs;
      assert (xs + ys)[1..] == xs[1..] + ys;
      MergeAllAppend(read, joints, Merge(read, joints, s, xs[0]), xs[1..], ys);
    }
  }

  lemma MergeAllOfNone(read: Reader, joints: nat, s: seq<real>)
    ensures MergeAll(read, joints, s, []) == s
  {
  }

  lemma MergeAllCons(read: Reader, joints: nat, s: seq<real>, frames: seq<seq<Byte>>)
    requires AllFrames(frames) && frames != []
    ensures frames[0] in frames
    ensures MergeAll(read, joints, s, frames) == MergeAll(read, joints, Merge(read, joints, s, frames[0]), frames[1..])
  {
    hide Merge;
  }

  lemma Grouped(x: seq<seq<real>>, y: seq<seq<real>>, z: seq<seq<real>>)
    ensures x + (y + z) == (x + y) + z
  {
  }

  lemma {:induction false} PublicationsAppend(read: Reader, joints: nat, s: seq<real>, xs: seq<seq<Byte>>,
                                              ys: seq<seq<Byte>>)
    requires AllFrames(xs) && AllFrames(ys) && |s| == MAX_JOINTS
    ensures AllFrames(xs + ys)
    ensures Publications(read, joints, s, xs + ys) ==
            Publications(read, joints, s, xs) + Publications(read, joints, MergeAll(read, joints, s, xs), ys)
    decreases |xs|
  {
    hide Merge, MergeAll;
    if xs == [] {
      assert xs + ys == ys;
      MergeAllOfNone(read, joints, s);
    } else {
      var t := Merge(read, joints, s, xs[0]);
      assert (xs + ys)[0] == xs[0] && (xs + ys)[1..] == xs[1..] + ys;
      PublicationsAppend(read, joints, t, xs[1..], ys);
      MergeAllCons(read, joints, s, xs);
      Grouped([t[..SNAPSHOT_LEN]], Publications(read, joints, t, xs[1..]),
              Publications(read, joints, MergeAll(read, joints, s, xs), ys));
    }
  }

  // Gathering in two parts.
  lemma GatheredThen(read: Reader, joints: nat, s: seq<real>, published: seq<seq<real>>, frames: nat,
                     x: Drained<Byte>, y: Drained<Byte>)
    requires |s| == MAX_JOINTS && AllFrames(x.telemetry) && AllFrames(y.telemetry)
    ensures AllFrames(Then(x, y).telemetry)
    ensures var o := Gathered(read, joints, s, published, frames, x);
            Gathered(read, joints, s, published, frames, Then(x, y)) ==
            Gathered(read, joints, o.snapshot, o.published, o.frames, y)
  {
    hide MergeAll, Publications;
    MergeAllAppend(read, joints, s, x.telemetry, y.telemetry);
    PublicationsAppend(read, joints, s, x.telemetry, y.telemetry);
    var first := Publications(read, joints, s, x.telemetry);
    var later := Publications(read, joints, MergeAll(read, joints, s, x.telemetry), y.telemetry);
    assert published + (first + later) == (published + first) + later;
  }

  // Everything a run of reads leaves behind, from a given intermediate state.
  ghost function Fed(read: Reader, joints: nat, acc: seq<Byte>, s: seq<real>, published: seq<seq<real>>,
                     frames: nat, chunks: seq<seq<Byte>>): Outcome
    requires |s| == MAX_JOINTS
  {
    FedFrames(acc, chunks);
    Gathered(read, joints, s, published, frames, Feed(Xgo(), acc, chunks))
  }

  lemma FedStep(read: Reader, joints: nat, acc: seq<Byte>, s: seq<real>, published: seq<seq<real>>, frames: nat,
                chunks: seq<seq<Byte>>)
    requires |s| == MAX_JOINTS
    ensures chunks == [] ==> Fed(read, joints, acc, s, published, frames, chunks) == Outcome(acc, s, published, frames)
    ensures chunks != [] ==>
              var r := RunFrom(read, joints, acc + chunks[0], s, published, frames);
              Fed(read, joints, acc, s, published, frames, chunks) ==
              Fed(read, joints, r.acc, r.snapshot, r.published, r.frames, chunks[1..])
  {
    if chunks == [] {
      assert published + [] == published;
    } else {
      hide Drain, Gathered, AllFrames;
      XgoProgresses();
      var first := Drain(Xgo(), acc + chunks[0]);
      DrainedFrames(acc + chunks[0]);
      FedFrames(first.residue, chunks[1..]);
      GatheredKeepsResidue(read, joints, s, published, frames, first);
      GatheredThen(read, joints, s, published, frames, first, Feed(Xgo(), first.residue, chunks[1..]));
    }
  }

  lemma GatheredKeepsResidue(read: Reader, joints: nat, s: seq<real>, published: seq<seq<real>>, frames: nat,
                             found: Drained<Byte>)
    requires |s| == MAX_JOINTS && AllFrames(found.telemetry)
    ensures Gathered(read, joints, s, published, frames, found).acc == found.residue
  {
  }

  // After any run of byte buffers from the start: every slot holds its last
  // write among the answers found, zero if there is none, and the ranges hold.
  lemma RunOfReads(read: Reader, joints: nat, zero: seq<real>, chunks: seq<seq<Byte>>, slot: nat)
    requires |zero| == MAX_JOINTS && forall i :: 0 <= i < MAX_JOINTS ==> zero[i] == 0.0
    requires slot < MAX_JOINTS
    ensures Progressing(Xgo()) && AllFrames(Feed(Xgo(), [], chunks).telemetry)
    ensures var found := Feed(Xgo(), [], chunks).telemetry;
            var s := MergeAll(read, joints, zero, found);
            s[slot] == LastWrite(read, joints, found, slot, 0.0) && InRange(s)
  {
    hide MergeAll, LastWrite, Feed;
    FedFrames([], chunks);
    ZeroInRange(zero);
    SnapshotIsLastWrite(read, joints, zero, Feed(Xgo(), [], chunks).telemetry, slot);
    SnapshotInRange(read, joints, zero, Feed(Xgo(), [], chunks).telemetry);
  }
}
