// Fixed-size and length-prefixed telemetry: the generic f32 frames, the
// Universal Robots real-time client and the Franka robot state.
module BinaryDecoders {
  import opened Basics
  import opened CommandVectors
  import opened Streaming

  function Padded(values: seq<Word>): (all: seq<Word>)
    requires |values| <= MAX_JOINTS
    ensures |all| == MAX_JOINTS
  {
    values + seq(MAX_JOINTS - |values|, _ => ZERO)
  }

  // ---------------------------------------------------------------- Generic

  function GenericDecode(jointCount: nat, acc: seq<Byte>): Option<Decoded<Word>> {
    var size := 4 * jointCount;
    if size == 0 || |acc| < size then None
    else
      var n := Min(jointCount, MAX_JOINTS);
      Some(Decoded(size, Padded(DecodeWords(acc, n)), n))
  }

  function Generic(jointCount: nat): Decoder<Word> {
    acc => GenericDecode(jointCount, acc)
  }

  method DecodeGeneric(acc: seq<Byte>, jointCount: nat) returns (r: Option<Decoded<Word>>)
    ensures r == GenericDecode(jointCount, acc)
  {
    var size := jointCount * 4;
    if size == 0 || |acc| < size {
      return None;
    }
    var n := Min(jointCount, MAX_JOINTS);
    var values := new Word[MAX_JOINTS](_ => ZERO);
    for i := 0 to n
      invariant forall k :: 0 <= k < i ==> values[k] == WordAt(acc, 4 * k)
      invariant forall k :: i <= k < MAX_JOINTS ==> values[k] == ZERO
    {
      values[i] := WordAt(acc, i * 4);
    }
    assert values[..] == Padded(DecodeWords(acc, n));
    return Some(Decoded(size, values[..], n));
  }

  lemma GenericIsStable(jointCount: nat)
    ensures Progressing(Generic(jointCount)) && Stable(Generic(jointCount))
  {
    var d := Generic(jointCount);
    forall acc ensures ProgressesOn(d, acc) {
    }
    forall acc, more ensures StableOn(d, acc, more) {
      if d(acc).Some? {
        var n := Min(jointCount, MAX_JOINTS);
        assert DecodeWords(acc + more, n) == DecodeWords(acc, n);
      }
    }
  }

  // Any split of a byte stream gives the telemetry of the whole stream.
  lemma GenericChunking(jointCount: nat, chunks: seq<seq<Byte>>)
    ensures Progressing(Generic(jointCount))
    ensures Feed(Generic(jointCount), [], chunks) == Drain(Generic(jointCount), Flatten(chunks))
  {
    hide GenericDecode, Drain, Feed, Flatten;
    GenericIsStable(jointCount);
    NothingGeneric(jointCount);
    ChunkingIndependence(Generic(jointCount), [], chunks);
    assert [] + Flatten(chunks) == Flatten(chunks);
  }

  // The native wire format of the command vectors, one after the other.
  function CommandStream(commands: seq<seq<Word>>): seq<Byte> {
    if commands == [] then [] else EncodeWords(commands[0]) + CommandStream(commands[1..])
  }

  // The words of each command that fit a state vector.
  function Fronts(commands: seq<seq<Word>>, jointCount: nat): (fronts: seq<seq<Word>>)
    requires forall c <- commands :: |c| == jointCount
    ensures |fronts| == |commands|
  {
    seq(|commands|, i requires 0 <= i < |commands| =>
      assert |commands[i]| == jointCount; commands[i][..Min(jointCount, MAX_JOINTS)])
  }

  // Commands serialised one after the other come back as the same telemetry,
  // in order, with nothing left over: the first 32 words of each.
  lemma {:induction false} GenericRoundTrip(jointCount: nat, commands: seq<seq<Word>>)
    requires 1 <= jointCount
    requires forall c <- commands :: |c| == jointCount
    ensures Progressing(Generic(jointCount))
    ensures Drain(Generic(jointCount), CommandStream(commands)) == Drained(Fronts(commands, jointCount), [])
    decreases |commands|
  {
    hide GenericDecode, Fronts, EncodeWords;
    GenericIsStable(jointCount);
    if commands == [] {
      NothingGeneric(jointCount);
      assert |Fronts(commands, jointCount)| == 0;
    } else {
      var d, c, rest := Generic(jointCount), commands[0], commands[1..];
      var acc := CommandStream(commands);
      assert |c| == jointCount;
      GenericFront(c, CommandStream(rest));
      assert acc[4 * jointCount..] == CommandStream(rest);
      GenericRoundTrip(jointCount, rest);
      FrontsCons(commands, jointCount);
    }
  }

  lemma FrontsCons(commands: seq<seq<Word>>, jointCount: nat)
    requires commands != [] && forall c <- commands :: |c| == jointCount
    ensures |commands[0]| == jointCount
    ensures [commands[0][..Min(jointCount, MAX_JOINTS)]] + Fronts(commands[1..], jointCount) ==
            Fronts(commands, jointCount)
  {
    assert |commands[0]| == jointCount;
  }

  // Up to 32 joints nothing is cut off.
  lemma FrontsAreWhole(commands: seq<seq<Word>>, jointCount: nat)
    requires jointCount <= MAX_JOINTS && forall c <- commands :: |c| == jointCount
    ensures Fronts(commands, jointCount) == commands
  {
    forall i | 0 <= i < |commands| ensures Fronts(commands, jointCount)[i] == commands[i] {
      var c := commands[i];
      assert |c| == jointCount == Min(jointCount, MAX_JOINTS) && c[..|c|] == c;
    }
  }

  lemma NothingGeneric(jointCount: nat)
    ensures GenericDecode(jointCount, []).None?
  {
  }

  lemma GenericFront(c: seq<Word>, more: seq<Byte>)
    requires c != []
    ensures var r, n := GenericDecode(|c|, EncodeWords(c) + more), Min(|c|, MAX_JOINTS);
            && r.Some? && r.value.consumed == 4 * |c|
            && r.value.n == n <= |r.value.values| && r.value.values[..n] == c[..n]
  {
    var acc, n := EncodeWords(c) + more, Min(|c|, MAX_JOINTS);
    DecodeEncode(c, more);
    assert DecodeWords(acc, n) == DecodeWords(acc, |c|)[..n];
    assert Padded(c[..n])[..n] == c[..n];
  }

  // -------------------------------------------------------- Length-prefixed

  // How many joints the brand reports, and where in the body they start.
  datatype Layout = Layout(joints: nat, offset: nat)

  const UR := Layout(6, 248)
  const FCI := Layout(7, 8)

  function BigEndian(acc: seq<Byte>): nat
    requires |acc| >= 4
  {
    var b0: int, b1: int, b2: int, b3: int := acc[0], acc[1], acc[2], acc[3];
    ((b0 * 256 + b1) * 256 + b2) * 256 + b3
  }

  function Reported(layout: Layout, jointCount: nat): nat {
    Min(Min(jointCount, layout.joints), MAX_JOINTS)
  }

  // Smallest announced size that holds all reported joints.
  function NeededSize(layout: Layout, jointCount: nat): nat {
    4 + layout.offset + 8 * Reported(layout, jointCount)
  }

  // The reported f64 fields of a packet, each narrowed to an f32 word.
  function Joints(layout: Layout, narrow: seq<Byte> -> Word, packet: seq<Byte>, n: nat): (ws: seq<Word>)
    requires 4 + layout.offset + 8 * n <= |packet|
    ensures |ws| == n
  {
    seq(n, i requires 0 <= i < n => narrow(packet[4 + layout.offset + 8 * i..4 + layout.offset + 8 * i + 8]))
  }

  function PrefixedDecode(layout: Layout, narrow: seq<Byte> -> Word, jointCount: nat, acc: seq<Byte>)
    : Option<Decoded<Word>>
  {
    if |acc| < 4 then None
    else
      var size := BigEndian(acc);
      if size < 4 || |acc| < size then None
      else if size < NeededSize(layout, jointCount) then None
      else
        var n := Reported(layout, jointCount);
        Some(Decoded(size, Padded(Joints(layout, narrow, acc, n)), n))
  }

  function Prefixed(layout: Layout, narrow: seq<Byte> -> Word, jointCount: nat): Decoder<Word> {
    acc => PrefixedDecode(layout, narrow, jointCount, acc)
  }

  lemma BodySlice(acc: seq<Byte>, size: nat, off: nat)
    requires 4 + off + 8 <= size <= |acc|
    ensures acc[4..size][off..off + 8] == acc[4 + off..4 + off + 8]
  {
    var x, y := acc[4..size][off..off + 8], acc[4 + off..4 + off + 8];
    assert forall k | 0 <= k < 8 :: x[k] == y[k];
  }

  method DecodePrefixed(layout: Layout, narrow: seq<Byte> -> Word, acc: seq<Byte>, jointCount: nat)
    returns (r: Option<Decoded<Word>>)
    ensures r == PrefixedDecode(layout, narrow, jointCount, acc)
  {
    if |acc| < 4 {
      return None;
    }
    var size := BigEndian(acc);
    if size < 4 || |acc| < size {
      return None;
    }
    var body := acc[4..size];
    var n := Min(Min(jointCount, layout.joints), MAX_JOINTS);
    if |body| < layout.offset + n * 8 {
      return None;
    }
    var values := new Word[MAX_JOINTS](_ => ZERO);
    for i := 0 to n
      invariant forall k :: 0 <= k < i ==> values[k] == Joints(layout, narrow, acc, n)[k]
      invariant forall k :: i <= k < MAX_JOINTS ==> values[k] == ZERO
    {
      var off := layout.offset + i * 8;
      BodySlice(acc, size, off);
      values[i] := narrow(body[off..off + 8]);
    }
    assert values[..] == Padded(Joints(layout, narrow, acc, n));
    return Some(Decoded(size, values[..], n));
  }

  method DecodeUniversalRobots(narrow: seq<Byte> -> Word, acc: seq<Byte>, jointCount: nat)
    returns (r: Option<Decoded<Word>>)
    ensures r == PrefixedDecode(UR, narrow, jointCount, acc)
  {
    r := DecodePrefixed(UR, narrow, acc, jointCount);
  }

  method DecodeFranka(narrow: seq<Byte> -> Word, acc: seq<Byte>, jointCount: nat)
    returns (r: Option<Decoded<Word>>)
    ensures r == PrefixedDecode(FCI, narrow, jointCount, acc)
  {
    r := DecodePrefixed(FCI, narrow, acc, jointCount);
  }

  lemma JointsIgnoreTail(layout: Layout, narrow: seq<Byte> -> Word, packet: seq<Byte>, more: seq<Byte>, n: nat)
    requires 4 + layout.offset + 8 * n <= |packet|
    ensures Joints(layout, narrow, packet + more, n) == Joints(layout, narrow, packet, n)
  {
    forall i | 0 <= i < n
      ensures Joints(layout, narrow, packet + more, n)[i] == Joints(layout, narrow, packet, n)[i]
    {
      var off := 4 + layout.offset + 8 * i;
      assert (packet + more)[off..off + 8] == packet[off..off + 8];
    }
  }

  lemma PrefixedIsStable(layout: Layout, narrow: seq<Byte> -> Word, jointCount: nat)
    ensures Progressing(Prefixed(layout, narrow, jointCount))
    ensures Stable(Prefixed(layout, narrow, jointCount))
  {
    var d := Prefixed(layout, narrow, jointCount);
    forall acc ensures ProgressesOn(d, acc) {
    }
    forall acc, more ensures StableOn(d, acc, more) {
      if d(acc).Some? {
        assert BigEndian(acc + more) == BigEndian(acc);
        JointsIgnoreTail(layout, narrow, acc, more, Reported(layout, jointCount));
      }
    }
  }

  lemma PrefixedChunking(layout: Layout, narrow: seq<Byte> -> Word, jointCount: nat, chunks: seq<seq<Byte>>)
    ensures Progressing(Prefixed(layout, narrow, jointCount))
    ensures Feed(Prefixed(layout, narrow, jointCount), [], chunks) ==
            Drain(Prefixed(layout, narrow, jointCount), Flatten(chunks))
  {
    PrefixedIsStable(layout, narrow, jointCount);
    ChunkingIndependence(Prefixed(layout, narrow, jointCount), [], chunks);
    assert [] + Flatten(chunks) == Flatten(chunks);
  }

  // A packet that announces its own size and is large enough.
  predicate IsPacket(layout: Layout, jointCount: nat, p: seq<Byte>) {
    |p| >= 4 && BigEndian(p) == |p| && |p| >= NeededSize(layout, jointCount)
  }

  function Reports(layout: Layout, narrow: seq<Byte> -> Word, jointCount: nat, packets: seq<seq<Byte>>): seq<seq<Word>>
    requires forall p <- packets :: IsPacket(layout, jointCount, p)
  {
    if packets == [] then []
    else
      assert IsPacket(layout, jointCount, packets[0]);
      [Joints(layout, narrow, packets[0], Reported(layout, jointCount))] +
      Reports(layout, narrow, jointCount, packets[1..])
  }

  // A stream of whole packets yields every packet's joints, in order.
  lemma {:induction false} PacketStream(layout: Layout, narrow: seq<Byte> -> Word, jointCount: nat,
                                        packets: seq<seq<Byte>>)
    requires 1 <= jointCount && 1 <= layout.joints
    requires forall p <- packets :: IsPacket(layout, jointCount, p)
    ensures Progressing(Prefixed(layout, narrow, jointCount))
    ensures Drain(Prefixed(layout, narrow, jointCount), Flatten(packets)) ==
            Drained(Reports(layout, narrow, jointCount, packets), [])
    decreases |packets|
  {
    PrefixedIsStable(layout, narrow, jointCount);
    if packets != [] {
      var d, n := Prefixed(layout, narrow, jointCount), Reported(layout, jointCount);
      var p, rest := packets[0], packets[1..];
      var acc := Flatten(packets);
      assert IsPacket(layout, jointCount, p);
      assert BigEndian(acc) == |p|;
      JointsIgnoreTail(layout, narrow, p, Flatten(rest), n);
      assert ProgressesOn(d, acc);
      assert Padded(Joints(layout, narrow, p, n))[..n] == Joints(layout, narrow, p, n);
      assert acc[|p|..] == Flatten(rest);
      PacketStream(layout, narrow, jointCount, rest);
    }
  }

  // ------------------------------------------------- Packets as written

  // Four bytes are the digits of a number, most significant first.
  predicate Announces(size: seq<Byte>, n: int)
    requires |size| >= 4
  {
    var b0: int, b1: int, b2: int, b3: int := size[0], size[1], size[2], size[3];
    n == 0x1000000 * b0 + 0x10000 * b1 + 0x100 * b2 + b3
  }

  // What a robot sends: its size, most significant byte first, what precedes
  // the joints, the joints, and what follows them.
  datatype Packet = Packet(size: seq<Byte>, head: seq<Byte>, joints: seq<Word>, tail: seq<Byte>) {
    function Bytes(widen: Word -> seq<Byte>): seq<Byte> {
      size + (head + (Widened(widen, joints) + tail))
    }

    predicate WellFormed(widen: Word -> seq<Byte>, headLength: nat, count: nat) {
      && |size| == 4 && |head| == headLength && |joints| == count
      && Announces(size, |Bytes(widen)|)
    }
  }

  function Widened(widen: Word -> seq<Byte>, ws: seq<Word>): seq<Byte> {
    if ws == [] then [] else widen(ws[0]) + Widened(widen, ws[1..])
  }

  // Narrowing undoes widening a word to eight bytes.
  ghost predicate Inverse(narrow: seq<Byte> -> Word, widen: Word -> seq<Byte>) {
    forall w :: |widen(w)| == 8 && narrow(widen(w)) == w
  }

  lemma {:induction false} WidenedAt(narrow: seq<Byte> -> Word, widen: Word -> seq<Byte>, ws: seq<Word>,
                                     before: seq<Byte>, after: seq<Byte>, i: nat)
    requires Inverse(narrow, widen) && i < |ws|
    ensures var all, off := before + (Widened(widen, ws) + after), |before| + 8 * i;
            |Widened(widen, ws)| == 8 * |ws| && off + 8 <= |all| && narrow(all[off..off + 8]) == ws[i]
    decreases |ws|
  {
    var w, rest := widen(ws[0]), Widened(widen, ws[1..]);
    assert |w| == 8 && narrow(w) == ws[0];
    var all := before + (Widened(widen, ws) + after);
    assert all == (before + w) + (rest + after);
    WidenedLength(narrow, widen, ws);
    if i == 0 {
      assert all[|before|..|before| + 8] == w;
    } else {
      WidenedAt(narrow, widen, ws[1..], before + w, after, i - 1);
    }
  }

  lemma {:induction false} WidenedLength(narrow: seq<Byte> -> Word, widen: Word -> seq<Byte>, ws: seq<Word>)
    requires Inverse(narrow, widen)
    ensures |Widened(widen, ws)| == 8 * |ws|
  {
    if ws != [] {
      assert |widen(ws[0])| == 8;
      WidenedLength(narrow, widen, ws[1..]);
    }
  }

  lemma SizeDigits(acc: seq<Byte>)
    requires |acc| >= 4
    ensures Announces(acc, BigEndian(acc))
    ensures forall n :: Announces(acc, n) ==> n == BigEndian(acc)
  {
  }

  // Such a packet is one the decoder takes, and its joints are those written.
  lemma WrittenPacket(layout: Layout, narrow: seq<Byte> -> Word, widen: Word -> seq<Byte>, jointCount: nat, p: Packet)
    requires Inverse(narrow, widen) && p.WellFormed(widen, layout.offset, Reported(layout, jointCount))
    ensures IsPacket(layout, jointCount, p.Bytes(widen))
    ensures Joints(layout, narrow, p.Bytes(widen), Reported(layout, jointCount)) == p.joints
  {
    hide Inverse;
    var n, bytes := Reported(layout, jointCount), p.Bytes(widen);
    WidenedLength(narrow, widen, p.joints);
    assert bytes[..4] == p.size;
    SizeDigits(bytes);
    assert bytes == (p.size + p.head) + (Widened(widen, p.joints) + p.tail);
    forall i | 0 <= i < n
      ensures Joints(layout, narrow, bytes, n)[i] == p.joints[i]
    {
      WidenedAt(narrow, widen, p.joints, p.size + p.head, p.tail, i);
    }
  }

  function PacketBytes(widen: Word -> seq<Byte>, packets: seq<Packet>): (all: seq<seq<Byte>>)
    ensures |all| == |packets|
  {
    seq(|packets|, i requires 0 <= i < |packets| => packets[i].Bytes(widen))
  }

  function JointsOf(packets: seq<Packet>): (all: seq<seq<Word>>)
    ensures |all| == |packets|
  {
    seq(|packets|, i requires 0 <= i < |packets| => packets[i].joints)
  }

  lemma {:induction false} ReportsAt(layout: Layout, narrow: seq<Byte> -> Word, jointCount: nat,
                                     packets: seq<seq<Byte>>, i: nat)
    requires i < |packets| && forall p <- packets :: IsPacket(layout, jointCount, p)
    ensures |Reports(layout, narrow, jointCount, packets)| == |packets| && IsPacket(layout, jointCount, packets[i])
    ensures Reports(layout, narrow, jointCount, packets)[i] ==
            Joints(layout, narrow, packets[i], Reported(layout, jointCount))
    decreases |packets|
  {
    hide IsPacket, Joints;
    if i > 0 {
      ReportsAt(layout, narrow, jointCount, packets[1..], i - 1);
    } else if |packets| > 1 {
      ReportsAt(layout, narrow, jointCount, packets[1..], 0);
    }
  }

  lemma {:induction false} WrittenStream(layout: Layout, narrow: seq<Byte> -> Word, widen: Word -> seq<Byte>,
                                         jointCount: nat, packets: seq<Packet>)
    requires Inverse(narrow, widen) && 1 <= jointCount && 1 <= layout.joints
    requires forall p <- packets :: p.WellFormed(widen, layout.offset, Reported(layout, jointCount))
    ensures Progressing(Prefixed(layout, narrow, jointCount))
    ensures Drain(Prefixed(layout, narrow, jointCount), Flatten(PacketBytes(widen, packets))) ==
            Drained(JointsOf(packets), [])
  {
    hide Inverse, Joints, IsPacket, Drain, Flatten;
    var all := PacketBytes(widen, packets);
    forall i | 0 <= i < |all|
      ensures IsPacket(layout, jointCount, all[i])
    {
      assert packets[i] in packets;
      WrittenPacket(layout, narrow, widen, jointCount, packets[i]);
    }
    PacketStream(layout, narrow, jointCount, all);
    var reports := Reports(layout, narrow, jointCount, all);
    if all == [] {
      assert packets == [];
    } else {
      ReportsAt(layout, narrow, jointCount, all, 0);
      forall i | 0 <= i < |all| ensures reports[i] == packets[i].joints {
        assert packets[i] in packets;
        ReportsAt(layout, narrow, jointCount, all, i);
        WrittenPacket(layout, narrow, widen, jointCount, packets[i]);
      }
    }
    assert reports == JointsOf(packets);
  }

  // Any sequence of packets a UR controller writes, six joints behind 248 bytes
  // of body, comes back as exactly the joints written, in order ...
  lemma UniversalRobotsRoundTrip(narrow: seq<Byte> -> Word, widen: Word -> seq<Byte>, jointCount: nat,
                                 packets: seq<Packet>)
    requires Inverse(narrow, widen) && 1 <= jointCount
    requires forall p <- packets :: p.WellFormed(widen, 248, Min(jointCount, 6))
    ensures Progressing(Prefixed(UR, narrow, jointCount))
    ensures Drain(Prefixed(UR, narrow, jointCount), Flatten(PacketBytes(widen, packets))) ==
            Drained(JointsOf(packets), [])
  {
    hide Inverse, Drain, Flatten;
    WrittenStream(UR, narrow, widen, jointCount, packets);
  }

  // ... and so do those of a Franka arm, seven joints behind 8 bytes.
  lemma FrankaRoundTrip(narrow: seq<Byte> -> Word, widen: Word -> seq<Byte>, jointCount: nat, packets: seq<Packet>)
    requires Inverse(narrow, widen) && 1 <= jointCount
    requires forall p <- packets :: p.WellFormed(widen, 8, Min(jointCount, 7))
    ensures Progressing(Prefixed(FCI, narrow, jointCount))
    ensures Drain(Prefixed(FCI, narrow, jointCount), Flatten(PacketBytes(widen, packets))) ==
            Drained(JointsOf(packets), [])
  {
    hide Inverse, Drain, Flatten;
    WrittenStream(FCI, narrow, widen, jointCount, packets);
  }

  // The decoder waits for more bytes in two different ways. Once the four size
  // bytes are buffered, some continuation completes the message if and only if
  // the announced size can hold the reported joints ...
  lemma PrefixedCompletes(layout: Layout, narrow: seq<Byte> -> Word, jointCount: nat, acc: seq<Byte>)
    requires |acc| >= 4
    ensures (exists more :: PrefixedDecode(layout, narrow, jointCount, acc + more).Some?) <==>
            BigEndian(acc) >= NeededSize(layout, jointCount)
  {
    forall more ensures BigEndian(acc + more) == BigEndian(acc) {
    }
    if BigEndian(acc) >= NeededSize(layout, jointCount) {
      var more: seq<Byte> := seq(BigEndian(acc), _ => 0);
      assert PrefixedDecode(layout, narrow, jointCount, acc + more).Some?;
    }
  }

  // ... and otherwise the connection never publishes again: every later byte
  // is kept behind the bad header.
  lemma PrefixedStall(layout: Layout, narrow: seq<Byte> -> Word, jointCount: nat, acc: seq<Byte>,
                      chunks: seq<seq<Byte>>)
    requires |acc| >= 4 && BigEndian(acc) < NeededSize(layout, jointCount)
    ensures Progressing(Prefixed(layout, narrow, jointCount))
    ensures Feed(Prefixed(layout, narrow, jointCount), acc, chunks) == Drained([], acc + Flatten(chunks))
  {
    var d := Prefixed(layout, narrow, jointCount);
    PrefixedIsStable(layout, narrow, jointCount);
    assert BigEndian(acc + Flatten(chunks)) == BigEndian(acc);
    ChunkingIndependence(d, acc, chunks);
  }
}
