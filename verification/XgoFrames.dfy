// The XGO register frame: 0x55 0x00 LEN MODE ADDR data CHK 0x00 0xAA.
module XgoFrames {
  import opened Basics

  const HEADER0: Byte := 0x55
  const HEADER1: Byte := 0x00
  const TAIL0: Byte := 0x00
  const TAIL1: Byte := 0xAA
  const OVERHEAD: nat := 8
  const MIN_LEN: nat := 9
  const MAX_LEN: nat := 64

  newtype U16 = x: int | 0 <= x < 0x1_0000

  function Sum(data: seq<Byte>): (s: nat)
    ensures s <= 255 * |data|
  {
    if data == [] then 0 else Sum(data[..|data| - 1]) + data[|data| - 1]
  }

  function ChecksumOf(len: Byte, mode: Byte, addr: Byte, data: seq<Byte>): Byte {
    255 - (len + mode + addr + Sum(data)) % 256
  }

  // The sum is kept in 16 bits. A frame has at most 247 data bytes (its length
  // is itself a byte), so the additions never overflow.
  method Checksum(len: Byte, mode: Byte, addr: Byte, data: seq<Byte>) returns (chk: Byte)
    requires |data| + OVERHEAD < 256
    ensures chk == ChecksumOf(len, mode, addr, data)
  {
    var sum: U16 := len as U16 + mode as U16 + addr as U16;
    for i := 0 to |data|
      invariant sum as int == len + mode + addr + Sum(data[..i])
    {
      assert data[..i + 1][..i] == data[..i];
      sum := sum + data[i] as U16;
    }
    assert data[..|data|] == data;
    chk := (255 - (sum % 256)) as int;
  }

  function FrameBytes(mode: Byte, addr: Byte, data: seq<Byte>): (f: seq<Byte>)
    requires |data| + OVERHEAD < 256
    ensures |f| == |data| + OVERHEAD
  {
    var len: Byte := |data| + OVERHEAD;
    [HEADER0, HEADER1, len, mode, addr] + data + [ChecksumOf(len, mode, addr, data), TAIL0, TAIL1]
  }

  // A frame the receiver accepts: 1 to 56 data bytes.
  predicate IsFrame(f: seq<Byte>) {
    MIN_LEN <= |f| <= MAX_LEN && f == FrameBytes(f[3], f[4], f[5..|f| - 3])
  }

  lemma FrameBytesIsFrame(mode: Byte, addr: Byte, data: seq<Byte>)
    requires 1 <= |data| <= MAX_LEN - OVERHEAD
    ensures IsFrame(FrameBytes(mode, addr, data))
    ensures FrameBytes(mode, addr, data)[5..|data| + 5] == data
  {
    var f := FrameBytes(mode, addr, data);
    assert f[5..|f| - 3] == data;
  }

  lemma {:induction false} SumAppend(a: seq<Byte>, b: seq<Byte>)
    ensures Sum(a + b) == Sum(a) + Sum(b)
    decreases |b|
  {
    if b == [] {
      assert a + b == a;
    } else {
      var n := |b| - 1;
      assert (a + b)[..|a| + n] == a + b[..n];
      SumAppend(a, b[..n]);
    }
  }

  lemma SumOfOne(b: Byte)
    ensures Sum([b]) == b
  {
    assert [b][..0] == [];
  }

  lemma SumOfHead(a: Byte, b: Byte, c: Byte)
    ensures Sum([a, b, c]) == a + b + c
  {
    SumOfOne(a);
    SumOfOne(b);
    SumOfOne(c);
    SumAppend([a], [b]);
    SumAppend([a, b], [c]);
    assert [a] + [b] == [a, b] && [a, b] + [c] == [a, b, c];
  }

  // The checksum complements the sum: everything from the length to the
  // checksum adds up to 255, modulo 256.
  lemma FrameSum(f: seq<Byte>)
    requires IsFrame(f)
    ensures Sum(f[2..|f| - 2]) % 256 == 255
  {
    hide Sum;
    var n := |f|;
    var data, chk := f[5..n - 3], f[n - 3];
    FrameChecks(f);
    SumOfHead(f[2], f[3], f[4]);
    SumOfOne(chk);
    SumAppend([f[2], f[3], f[4]], data);
    SumAppend([f[2], f[3], f[4]] + data, [chk]);
    assert f[2..n - 2] == [f[2], f[3], f[4]] + data + [chk];
    Complements(f[2] + f[3] + f[4] + Sum(data));
  }

  lemma Complements(s: nat)
    ensures (s + (255 - s % 256)) % 256 == 255
  {
    assert s + (255 - s % 256) == 256 * (s / 256) + 255;
  }

  // What the receiver checks on a complete buffer is exactly being a frame.
  lemma FrameChecks(f: seq<Byte>)
    requires MIN_LEN <= |f| <= MAX_LEN
    ensures IsFrame(f) <==>
            && f[0] == HEADER0 && f[1] == HEADER1 && f[2] == |f|
            && f[|f| - 3] == ChecksumOf(f[2], f[3], f[4], f[5..|f| - 3])
            && f[|f| - 2] == TAIL0 && f[|f| - 1] == TAIL1
  {
    var n, data := |f|, f[5..|f| - 3];
    assert f == f[..5] + data + f[n - 3..];
    assert f[..5] == [f[0], f[1], f[2], f[3], f[4]];
    assert f[n - 3..] == [f[n - 3], f[n - 2], f[n - 1]];
    var g := FrameBytes(f[3], f[4], data);
    if IsFrame(f) {
      assert f[2] == g[2] && f[n - 3] == g[n - 3] && f[n - 2] == g[n - 2] && f[n - 1] == g[n - 1];
    }
  }

  // A buffer with some bytes overwritten.
  function Spliced(s: seq<Byte>, at: nat, x: seq<Byte>): (r: seq<Byte>)
    requires at + |x| <= |s|
    ensures |r| == |s|
  {
    s[..at] + x + s[at + |x|..]
  }

  lemma SplicedTwice(s: seq<Byte>, at: nat, x: seq<Byte>, y: seq<Byte>)
    requires at + |x| + |y| <= |s|
    ensures Spliced(Spliced(s, at, x), at + |x|, y) == Spliced(s, at, x + y)
  {
    var r := Spliced(s, at, x);
    assert r[..at + |x|] == s[..at] + x;
    assert r[at + |x| + |y|..] == s[at + |x| + |y|..];
  }

  method CopyInto(out: array<Byte>, at: nat, data: seq<Byte>)
    requires at + |data| <= out.Length
    modifies out
    ensures out[..] == Spliced(old(out[..]), at, data)
  {
    forall i | 0 <= i < |data| {
      out[at + i] := data[i];
    }
  }

  method PushFrame(out: array<Byte>, off: nat, mode: Byte, addr: Byte, data: seq<Byte>) returns (written: nat)
    requires off <= out.Length
    modifies out
    ensures written == if |data| + OVERHEAD < 256 && off + |data| + OVERHEAD <= out.Length then |data| + OVERHEAD else 0
    ensures written == 0 ==> out[..] == old(out[..])
    ensures written > 0 ==>
              out[..] == old(out[..])[..off] + FrameBytes(mode, addr, data) + old(out[..])[off + written..]
  {
    hide ChecksumOf, Spliced;
    var total := |data| + OVERHEAD;
    if out.Length - off < total || total > 255 {
      return 0;
    }
    ghost var before := out[..];
    var len: Byte := total;
    var chk := Checksum(len, mode, addr, data);
    var head, tail := [HEADER0, HEADER1, len, mode, addr], [chk, TAIL0, TAIL1];
    CopyInto(out, off, head);
    CopyInto(out, off + 5, data);
    SplicedTwice(before, off, head, data);
    CopyInto(out, off + 5 + |data|, tail);
    SplicedTwice(before, off, head + data, tail);
    written := total;
    SplicedIs(before, off, FrameBytes(mode, addr, data));
  }

  lemma SplicedIs(s: seq<Byte>, at: nat, x: seq<Byte>)
    requires at + |x| <= |s|
    ensures Spliced(s, at, x) == s[..at] + x + s[at + |x|..]
  {
  }

  lemma {:induction false} SumUpdate(data: seq<Byte>, i: nat, b: Byte)
    requires i < |data|
    ensures Sum(data[i := b]) == Sum(data) - data[i] + b
    decreases |data|
  {
    var last := |data| - 1;
    if i == last {
      assert data[i := b][..last] == data[..last];
    } else {
      assert data[i := b][..last] == data[..last][i := b];
      SumUpdate(data[..last], i, b);
    }
  }

  lemma CloseSumsDiffer(s: nat, t: nat)
    requires s != t && -256 < s - t < 256
    ensures s % 256 != t % 256
  {
  }

  // Changing any one byte behind LEN destroys a frame.
  lemma CorruptionDetected(f: seq<Byte>, i: nat, b: Byte)
    requires IsFrame(f) && 3 <= i < |f| && b != f[i]
    ensures !IsFrame(f[i := b])
  {
    hide IsFrame, Sum;
    var g, n := f[i := b], |f|;
    assert MIN_LEN <= n <= MAX_LEN by { FrameIsShort(f); }
    var data, data' := f[5..n - 3], g[5..n - 3];
    FrameChecks(f);
    FrameChecks(g);
    if 5 <= i < n - 3 {
      assert data' == data[i - 5 := b];
      SumUpdate(data, i - 5, b);
    } else {
      assert data' == data;
    }
    var s, t := f[2] + f[3] + f[4] + Sum(data), g[2] + g[3] + g[4] + Sum(data');
    if i < n - 3 {
      CloseSumsDiffer(s, t);
    }
  }

  lemma FrameIsShort(f: seq<Byte>)
    requires IsFrame(f)
    ensures MIN_LEN <= |f| <= MAX_LEN
  {
  }
}
