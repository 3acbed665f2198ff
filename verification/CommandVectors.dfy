// The fixed-size command vector and its wire format. A serialised f32 is an
// opaque word of four bytes, least significant first; no arithmetic is done
// on it here.
module CommandVectors {
  import opened Basics

  datatype Word = Word(b0: Byte, b1: Byte, b2: Byte, b3: Byte)

  const ZERO := Word(0, 0, 0, 0)

  // `targets` always holds MAX_JOINTS words, `len` of them active.
  datatype CommandVector = CommandVector(targets: seq<Word>, len: nat) {
    predicate Valid() {
      |targets| == MAX_JOINTS && len <= MAX_JOINTS
    }

    function Active(): seq<Word>
      requires Valid()
    {
      targets[..len]
    }
  }

  function Zeros(jointCount: nat): (v: CommandVector)
    ensures v.Valid() && v.len == Min(jointCount, MAX_JOINTS) && forall w <- v.targets :: w == ZERO
  {
    CommandVector(seq(MAX_JOINTS, _ => ZERO), Min(jointCount, MAX_JOINTS))
  }

  // Little-endian bytes of a word, and back.
  function WordBytes(w: Word): (b: seq<Byte>)
    ensures |b| == 4
  {
    [w.b0, w.b1, w.b2, w.b3]
  }

  function WordAt(b: seq<Byte>, off: nat): Word
    requires off + 4 <= |b|
  {
    Word(b[off], b[off + 1], b[off + 2], b[off + 3])
  }

  function EncodeWords(ws: seq<Word>): (b: seq<Byte>)
    ensures |b| == 4 * |ws|
  {
    if ws == [] then [] else EncodeWords(ws[..|ws| - 1]) + WordBytes(ws[|ws| - 1])
  }

  function DecodeWords(b: seq<Byte>, n: nat): (ws: seq<Word>)
    requires 4 * n <= |b|
    ensures |ws| == n
  {
    seq(n, i requires 0 <= i < n => WordAt(b, 4 * i))
  }

  lemma {:induction false} EncodedWordAt(ws: seq<Word>, i: nat)
    requires i < |ws|
    ensures WordAt(EncodeWords(ws), 4 * i) == ws[i]
  {
    if i < |ws| - 1 {
      EncodedWordAt(ws[..|ws| - 1], i);
    }
  }

  // On the wire the least significant byte of a word comes first.
  lemma BytesOfWord(ws: seq<Word>, i: nat)
    requires i < |ws|
    ensures EncodeWords(ws)[4 * i..4 * i + 4] == [ws[i].b0, ws[i].b1, ws[i].b2, ws[i].b3]
  {
    EncodedWordAt(ws, i);
    var b := EncodeWords(ws);
    assert WordAt(b, 4 * i) == ws[i];
  }

  // Decoding undoes encoding, whatever follows on the wire ...
  lemma DecodeEncode(ws: seq<Word>, more: seq<Byte>)
    ensures DecodeWords(EncodeWords(ws) + more, |ws|) == ws
  {
    var b := EncodeWords(ws);
    forall i | 0 <= i < |ws|
      ensures WordAt(b + more, 4 * i) == ws[i]
    {
      EncodedWordAt(ws, i);
    }
  }

  // ... and encoding undoes decoding.
  lemma {:induction false} EncodeDecode(b: seq<Byte>, n: nat)
    requires 4 * n <= |b|
    ensures EncodeWords(DecodeWords(b, n)) == b[..4 * n]
  {
    if n > 0 {
      assert DecodeWords(b, n)[..n - 1] == DecodeWords(b, n - 1);
      EncodeDecode(b, n - 1);
      assert b[..4 * n] == b[..4 * (n - 1)] + b[4 * (n - 1)..4 * (n - 1) + 4];
    }
  }

  // Meaning of a command payload: whole words only, at most MAX_JOINTS.
  function Parsed(bytes: seq<Byte>): (v: CommandVector)
    ensures v.Valid()
  {
    var n := Min(|bytes| / 4, MAX_JOINTS);
    CommandVector(DecodeWords(bytes, n) + seq(MAX_JOINTS - n, _ => ZERO), n)
  }

  method FromBytes(bytes: seq<Byte>) returns (v: CommandVector)
    ensures v == Parsed(bytes)
  {
    var targets := new Word[MAX_JOINTS](_ => ZERO);
    var n := 0;
    while n < MAX_JOINTS && 4 * n + 4 <= |bytes|
      invariant 0 <= n <= MAX_JOINTS && 4 * n <= |bytes|
      invariant forall i :: 0 <= i < n ==> targets[i] == WordAt(bytes, 4 * i)
      invariant forall i :: n <= i < MAX_JOINTS ==> targets[i] == ZERO
    {
      targets[n] := WordAt(bytes, 4 * n);
      n := n + 1;
    }
    v := CommandVector(targets[..], n);
    assert v.targets == Parsed(bytes).targets;
  }

  // A buffer whose front has been overwritten with the first words.
  function Written(before: seq<Byte>, ws: seq<Word>, i: nat): (after: seq<Byte>)
    requires i <= |ws| && 4 * i <= |before|
    ensures |after| == |before|
  {
    EncodeWords(ws[..i]) + before[4 * i..]
  }

  function Overwritten(b: seq<Byte>, off: nat, w: Word): (after: seq<Byte>)
    requires off + 4 <= |b|
    ensures |after| == |b|
  {
    b[..off] + WordBytes(w) + b[off + 4..]
  }

  lemma WrittenNone(before: seq<Byte>, ws: seq<Word>)
    ensures Written(before, ws, 0) == before
  {
  }

  lemma WrittenNext(before: seq<Byte>, ws: seq<Word>, i: nat)
    requires i < |ws| && 4 * i + 4 <= |before|
    ensures Overwritten(Written(before, ws, i), 4 * i, ws[i]) == Written(before, ws, i + 1)
  {
    assert ws[..i + 1][..i] == ws[..i];
    assert Written(before, ws, i)[..4 * i] == EncodeWords(ws[..i]);
    assert Written(before, ws, i)[4 * i + 4..] == before[4 * i + 4..];
  }

  method WriteWord(w: Word, out: array<Byte>, off: nat)
    requires off + 4 <= out.Length
    modifies out
    ensures out[..] == Overwritten(old(out[..]), off, w)
  {
    out[off], out[off + 1], out[off + 2], out[off + 3] := w.b0, w.b1, w.b2, w.b3;
  }

  method WriteTo(v: CommandVector, out: array<Byte>) returns (written: nat)
    requires v.Valid()
    modifies out
    ensures written == 4 * Min(v.len, out.Length / 4)
    ensures out[..] == EncodeWords(v.targets[..written / 4]) + old(out[..])[written..]
  {
    hide EncodeWords, Overwritten, Written;
    ghost var before := out[..];
    var n := Min(v.len, out.Length / 4);
    WrittenNone(before, v.targets);
    written := 0;
    for i := 0 to n
      invariant written == 4 * i && out[..] == Written(before, v.targets, i)
    {
      WrittenNext(before, v.targets, i);
      WriteWord(v.targets[i], out, written);
      written := written + 4;
    }
    WrittenIs(before, v.targets, n);
  }

  lemma WrittenIs(before: seq<Byte>, ws: seq<Word>, i: nat)
    requires i <= |ws| && 4 * i <= |before|
    ensures Written(before, ws, i) == EncodeWords(ws[..i]) + before[4 * i..]
  {
  }

  // A command crosses the wire unchanged ...
  lemma CommandRoundTrip(v: CommandVector)
    requires v.Valid()
    ensures Parsed(EncodeWords(v.Active())).len == v.len
    ensures Parsed(EncodeWords(v.Active())).Active() == v.Active()
  {
    DecodeEncode(v.Active(), []);
    assert EncodeWords(v.Active()) + [] == EncodeWords(v.Active());
  }

  // ... and a payload loses exactly its partial word and what exceeds
  // MAX_JOINTS words.
  lemma PayloadRoundTrip(bytes: seq<Byte>)
    ensures EncodeWords(Parsed(bytes).Active()) == bytes[..4 * Min(|bytes| / 4, MAX_JOINTS)]
  {
    var n := Min(|bytes| / 4, MAX_JOINTS);
    EncodeDecode(bytes, n);
    assert Parsed(bytes).Active() == DecodeWords(bytes, n);
  }
}
