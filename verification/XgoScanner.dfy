// The resynchronising receive side of the XGO register bus.
module XgoScanner {
  import opened Basics
  import opened ByteSearch
  import opened Streaming
  import opened XgoFrames

  datatype Scan = Frame(len: nat, addr: Byte, dataLen: nat) | Incomplete | Garbage(skip: nat)

  const HEADER: seq<Byte> := [HEADER0, HEADER1]

  // Number of bytes up to and including the last `b`; all of them if there is
  // none.
  function PastLast(s: seq<Byte>, b: Byte): (n: nat)
    ensures n <= |s| && (s != [] ==> n >= 1)
  {
    if b !in s then |s| else if s[|s| - 1] == b then |s| else PastLast(s[..|s| - 1], b)
  }

  function ScanFrame(acc: seq<Byte>): (r: Scan)
    ensures r.Frame? ==> MIN_LEN <= r.len <= |acc|
    ensures r.Garbage? ==> r.skip <= |acc| && (acc != [] ==> r.skip >= 1)
  {
    match FindFrom(if acc == [] then [] else acc[..|acc| - 1], HEADER, 0)
    case None => Garbage(PastLast(acc, HEADER0))
    case Some(start) =>
      if start > 0 then Garbage(start)
      else
        var len: nat := acc[2];
        if !(MIN_LEN <= len <= MAX_LEN) then Garbage(2)
        else if |acc| < len then Incomplete
        else
          var dataLen := len - OVERHEAD;
          if acc[len - 2] != TAIL0 || acc[len - 1] != TAIL1 then Garbage(2)
          else if ChecksumOf(acc[2], acc[3], acc[4], acc[5..5 + dataLen]) != acc[5 + dataLen] then Garbage(2)
          else Frame(len, acc[4], dataLen)
  }

  // ------------------------------------------------------- Buffer predicates

  // A header pair with its length byte.
  predicate HasHeader(acc: seq<Byte>) {
    |acc| >= 3 && acc[0] == HEADER0 && acc[1] == HEADER1
  }

  predicate StartsFrame(acc: seq<Byte>) {
    |acc| >= 3 && MIN_LEN <= acc[2] <= |acc| && IsFrame(acc[..acc[2]])
  }

  // The front of a frame that is not buffered yet.
  predicate Pending(acc: seq<Byte>) {
    HasHeader(acc) && MIN_LEN <= acc[2] <= MAX_LEN && |acc| < acc[2]
  }

  // The first one or two bytes of a frame, and nothing else.
  predicate ShortHeader(acc: seq<Byte>) {
    acc == [HEADER0] || acc == [HEADER0, HEADER1]
  }

  // A position the scanner may step over.
  predicate Skippable(acc: seq<Byte>) {
    !StartsFrame(acc) && !Pending(acc)
  }

  lemma FrameHasHeader(acc: seq<Byte>)
    requires StartsFrame(acc)
    ensures HasHeader(acc) && acc[2] <= MAX_LEN
  {
    FrameChecks(acc[..acc[2]]);
  }

  // ---------------------------------------------------------- What a scan does

  // No header pair inside the window the code searches.
  lemma NoHeaderBefore(acc: seq<Byte>, p: nat)
    requires acc != [] && p < |acc| && !MatchesAt(acc[..|acc| - 1], HEADER, p)
    ensures !HasHeader(acc[p..])
  {
    var w := acc[..|acc| - 1];
    assert p + 3 <= |acc| ==> w[p..p + 2] == [acc[p], acc[p + 1]];
  }

  // A frame is reported exactly when one starts at the front, with its own
  // length and register.
  lemma ScanFindsFrame(acc: seq<Byte>)
    ensures ScanFrame(acc).Frame? <==> StartsFrame(acc)
    ensures StartsFrame(acc) ==> ScanFrame(acc) == Frame(acc[2], acc[4], acc[2] - OVERHEAD)
  {
    ScanAtHeader(acc);
    if |acc| >= 3 && MIN_LEN <= acc[2] <= Min(MAX_LEN, |acc|) {
      var f := acc[..acc[2]];
      assert f[5..|f| - 3] == acc[5..acc[2] - 3];
      FrameChecks(f);
    } else if StartsFrame(acc) {
      FrameHasHeader(acc);
    }
  }

  // The header search succeeds at the front exactly when a header is there.
  lemma ScanAtHeader(acc: seq<Byte>)
    ensures HasHeader(acc) <==> acc != [] && FindFrom(acc[..|acc| - 1], HEADER, 0) == Some(0)
  {
    if acc != [] {
      var w := acc[..|acc| - 1];
      assert |acc| >= 3 ==> w[0..2] == [acc[0], acc[1]];
      assert HasHeader(acc) <==> MatchesAt(w, HEADER, 0);
      FindIsFirst(w, HEADER, 0);
    }
  }

  // The scanner waits exactly when the front of a frame is buffered.
  lemma ScanWaits(acc: seq<Byte>)
    ensures ScanFrame(acc).Incomplete? <==> Pending(acc)
  {
    ScanAtHeader(acc);
  }

  // A skip never jumps over the start of a frame, complete or pending.
  lemma SkipIsSafe(acc: seq<Byte>, p: nat)
    requires ScanFrame(acc).Garbage? && p < ScanFrame(acc).skip
    ensures Skippable(acc[p..])
  {
    var w := acc[..|acc| - 1];
    ScanAtHeader(acc);
    if HasHeader(acc) {
      ScanFindsFrame(acc);
      assert acc[0..] == acc;
      assert p == 1 ==> acc[p..][0] == acc[1];
    } else {
      FindIsFirst(w, HEADER, 0);
      NoHeaderBefore(acc, p);
    }
    if StartsFrame(acc[p..]) {
      FrameHasHeader(acc[p..]);
    }
  }

  // ---------------------------------------------------------- Naive scanning

  // The decoder as a framer: a frame publishes its bytes, garbage nothing. On
  // an empty buffer, where the code would flush zero bytes for ever, it stops.
  function Next(acc: seq<Byte>): Option<Decoded<Byte>> {
    if acc == [] then None
    else
      match ScanFrame(acc)
      case Frame(len, _, _) => Some(Decoded(len, acc[..len], len))
      case Garbage(skip) => Some(Decoded(skip, [], 0))
      case Incomplete => None
  }

  function Xgo(): Decoder<Byte> {
    acc => Next(acc)
  }

  lemma XgoProgresses()
    ensures Progressing(Xgo())
  {
    forall acc ensures ProgressesOn(Xgo(), acc) {
    }
  }

  // Tries every offset in turn.
  function NaiveScan(acc: seq<Byte>): Drained<Byte>
    decreases |acc|
  {
    if acc == [] || Pending(acc) then Drained([], acc)
    else if StartsFrame(acc) then Then(Drained([acc[..acc[2]]], []), NaiveScan(acc[acc[2]..]))
    else NaiveScan(acc[1..])
  }

  lemma {:induction false} NaiveSkips(acc: seq<Byte>, n: nat)
    requires n <= |acc| && forall p :: 0 <= p < n ==> Skippable(acc[p..])
    ensures NaiveScan(acc) == NaiveScan(acc[n..])
    decreases n
  {
    if n == 0 {
      assert acc[0..] == acc;
    } else {
      assert acc[0..] == acc && Skippable(acc[0..]);
      forall p | 0 <= p < n - 1 ensures Skippable(acc[1..][p..]) {
        assert acc[1..][p..] == acc[p + 1..];
      }
      NaiveSkips(acc[1..], n - 1);
      assert acc[1..][n - 1..] == acc[n..];
    }
  }

  // One round of the code is one or more steps of the naive scanner.
  lemma NextIsNaive(acc: seq<Byte>)
    requires acc != [] && !Pending(acc)
    ensures Next(acc).Some? && ProgressesOn(Xgo(), acc)
    ensures NaiveScan(acc) ==
            Then(Drained(Publication(Next(acc).value), []), NaiveScan(acc[Next(acc).value.consumed..]))
  {
    hide ScanFrame;
    ScanFindsFrame(acc);
    ScanWaits(acc);
    if StartsFrame(acc) {
      assert acc[..acc[2]][..acc[2]] == acc[..acc[2]];
    } else {
      var skip := ScanFrame(acc).skip;
      forall p | 0 <= p < skip ensures Skippable(acc[p..]) {
        SkipIsSafe(acc, p);
      }
      NaiveSkips(acc, skip);
      assert [] + NaiveScan(acc[skip..]).telemetry == NaiveScan(acc[skip..]).telemetry;
    }
  }

  // The scanner with its long skips emits exactly the frames, and leaves
  // exactly the residue, of the scanner that tries every offset.
  lemma {:induction false} ScannerRefinesNaive(acc: seq<Byte>)
    ensures Progressing(Xgo())
    ensures Drain(Xgo(), acc) == NaiveScan(acc)
    decreases |acc|
  {
    hide ScanFrame;
    XgoProgresses();
    if acc == [] || Pending(acc) {
      ScanWaits(acc);
    } else {
      NextIsNaive(acc);
      var m := Next(acc).value;
      ScannerRefinesNaive(acc[m.consumed..]);
    }
  }

  // ------------------------------------------------------ The real drain loop

  // One round of the real loop, None when it is left. Unlike Next it flushes
  // zero bytes of an empty buffer.
  function Round(acc: seq<Byte>): (m: Option<Decoded<Byte>>)
    ensures m.Some? ==> m.value.consumed <= |acc| && m.value.n <= |m.value.values|
  {
    match ScanFrame(acc)
    case Frame(len, _, _) => Some(Decoded(len, acc[..len], len))
    case Garbage(skip) => Some(Decoded(skip, [], 0))
    case Incomplete => None
  }

  // What k rounds publish, and the buffer then; None if the loop has been left.
  function Rounds(acc: seq<Byte>, k: nat): Option<Drained<Byte>>
    decreases k
  {
    if k == 0 then Some(Drained([], acc))
    else
      match Round(acc)
      case None => None
      case Some(m) => Later(Drained(Publication(m), []), Rounds(acc[m.consumed..], k - 1))
  }

  function Later(first: Drained<Byte>, rest: Option<Drained<Byte>>): Option<Drained<Byte>> {
    match rest
    case None => None
    case Some(d) => Some(Then(first, d))
  }

  lemma RoundIsNext(acc: seq<Byte>)
    ensures acc != [] ==> Round(acc) == Next(acc) && (Pending(acc) <==> Next(acc).None?)
    ensures acc == [] ==> Round(acc) == Some(Decoded(0, [], 0))
  {
    ScanWaits(acc);
  }

  // However long the real loop runs, it comes to what the drain that stops on
  // an empty buffer publishes and keeps ...
  lemma {:induction false} LoopReachesDrain(acc: seq<Byte>)
    ensures Progressing(Xgo())
    ensures exists k: nat :: Rounds(acc, k) == Some(Drain(Xgo(), acc))
    decreases |acc|
  {
    hide ScanFrame, Round;
    XgoProgresses();
    assert ProgressesOn(Xgo(), acc);
    if acc == [] || Next(acc).None? {
      assert Rounds(acc, 0) == Some(Drain(Xgo(), acc));
    } else {
      RoundIsNext(acc);
      var m := Next(acc).value;
      LoopReachesDrain(acc[m.consumed..]);
      var k: nat :| Rounds(acc[m.consumed..], k) == Some(Drain(Xgo(), acc[m.consumed..]));
      assert Rounds(acc, k + 1) == Some(Drain(Xgo(), acc));
    }
  }

  // The real loop is left after some number of rounds.
  ghost predicate Left(acc: seq<Byte>) {
    exists k: nat :: Rounds(acc, k).None?
  }

  // ... and is left there if and only if a pending frame remains: a buffer that
  // is consumed entirely keeps it flushing zero bytes for ever.
  lemma LoopEndsExactly(acc: seq<Byte>)
    ensures Left(acc) <==> NaiveScan(acc).residue != []
  {
    if NaiveScan(acc).residue != [] {
      LoopEnds(acc);
    } else {
      forall k: nat ensures Rounds(acc, k).Some? {
        LoopContinues(acc, k);
      }
    }
  }

  lemma RoundIsNaive(acc: seq<Byte>)
    ensures Pending(acc) <==> Round(acc).None?
    ensures !Pending(acc) && acc != [] ==>
            && Round(acc).value.consumed >= 1
            && NaiveScan(acc).residue == NaiveScan(acc[Round(acc).value.consumed..]).residue
    ensures acc == [] ==> Round(acc) == Some(Decoded(0, [], 0))
  {
    hide ScanFrame, Round;
    RoundIsNext(acc);
    if !Pending(acc) && acc != [] {
      NextIsNaive(acc);
    }
  }

  lemma {:induction false} LoopEnds(acc: seq<Byte>)
    requires NaiveScan(acc).residue != []
    ensures Left(acc)
    decreases |acc|
  {
    hide Round;
    RoundIsNaive(acc);
    if Pending(acc) {
      assert Rounds(acc, 1).None?;
    } else {
      var n := Round(acc).value.consumed;
      LoopEnds(acc[n..]);
      var k: nat :| Rounds(acc[n..], k).None?;
      assert Rounds(acc, k + 1).None?;
    }
  }

  lemma {:induction false} LoopContinues(acc: seq<Byte>, k: nat)
    requires NaiveScan(acc).residue == []
    ensures Rounds(acc, k).Some?
    decreases k
  {
    hide Round;
    if k > 0 {
      RoundIsNaive(acc);
      assert acc == [] ==> acc[0..] == acc;
      LoopContinues(acc[Round(acc).value.consumed..], k - 1);
    }
  }
}
