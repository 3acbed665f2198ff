// What the XGO scanner does to whole byte streams: splitting them into chunks,
// concatenating frames, corrupting a byte.
module XgoStreams {
  import opened Basics
  import opened Streaming
  import opened XgoFrames
  import opened XgoScanner

  // ------------------------------------------------------ The ideal scanner

  // The front of a frame that may still be completed.
  predicate Waits(acc: seq<Byte>) {
    Pending(acc) || ShortHeader(acc)
  }

  // Like NaiveScan, but it also keeps one or two trailing header bytes, as the
  // comment in the source promises.
  function IdealScan(acc: seq<Byte>): Drained<Byte>
    decreases |acc|
  {
    if acc == [] || Waits(acc) then Drained([], acc)
    else if StartsFrame(acc) then Then(Drained([acc[..acc[2]]], []), IdealScan(acc[acc[2]..]))
    else IdealScan(acc[1..])
  }

  // What the code keeps of an ideal residue.
  function Kept(r: Drained<Byte>): Drained<Byte> {
    if ShortHeader(r.residue) then Drained(r.telemetry, []) else r
  }

  // The code differs from the ideal scanner in that residue only.
  lemma {:induction false} NaiveIsIdealKept(acc: seq<Byte>)
    ensures NaiveScan(acc) == Kept(IdealScan(acc))
    decreases |acc|
  {
    if ShortHeader(acc) {
      if |acc| == 2 {
        assert acc[1..] == [HEADER1] && acc[1..][1..] == [];
        assert NaiveScan(acc[1..]) == Drained([], []);
      }
    } else if acc != [] && !Pending(acc) {
      NaiveIsIdealKept(if StartsFrame(acc) then acc[acc[2]..] else acc[1..]);
    }
  }

  // Appending bytes does not change what stands at the front, unless it waits.
  lemma FrontInAppend(a: seq<Byte>, b: seq<Byte>)
    requires a != [] && !Waits(a)
    ensures !Waits(a + b) && (StartsFrame(a + b) <==> StartsFrame(a))
    ensures StartsFrame(a) ==> a[2] <= |a| && (a + b)[..a[2]] == a[..a[2]]
  {
    var ab := a + b;
    assert ab[0] == a[0];
    if |a| == 1 {
      assert a == [a[0]];
    } else if |a| == 2 {
      assert a == [a[0], a[1]] && ab[1] == a[1];
    } else {
      assert ab[1] == a[1] && ab[2] == a[2];
      assert a[2] <= |a| ==> ab[..a[2]] == a[..a[2]];
    }
    if StartsFrame(ab) {
      FrameHasHeader(ab);
    }
    if StartsFrame(a) {
      FrameHasHeader(a);
    }
  }

  // The ideal scanner is independent of chunking, without any condition.
  lemma {:induction false} IdealAppend(a: seq<Byte>, b: seq<Byte>)
    ensures IdealScan(a + b) == Then(IdealScan(a), IdealScan(IdealScan(a).residue + b))
    decreases |a|
  {
    if a == [] || Waits(a) {
      assert [] + IdealScan(a + b).telemetry == IdealScan(a + b).telemetry;
    } else {
      FrontInAppend(a, b);
      var n := if StartsFrame(a) then a[2] else 1;
      assert (a + b)[n..] == a[n..] + b;
      IdealAppend(a[n..], b);
      if StartsFrame(a) {
        ThenAssociates(Drained([a[..n]], []), IdealScan(a[n..]), IdealScan(IdealScan(a).residue + b));
      }
    }
  }

  lemma IdealResidueWaits(a: seq<Byte>)
    ensures IdealScan(IdealScan(a).residue) == Drained([], IdealScan(a).residue)
    decreases |a|
  {
  }

  // --------------------------------------------------------------- Chunking

  // The code in terms of the ideal scanner.
  lemma CodeIsIdealKept(acc: seq<Byte>)
    ensures Progressing(Xgo())
    ensures Drain(Xgo(), acc) == Kept(IdealScan(acc))
  {
    ScannerRefinesNaive(acc);
    NaiveIsIdealKept(acc);
  }

  lemma KeptThen(x: Drained<Byte>, y: Drained<Byte>)
    ensures Kept(Then(x, y)) == Then(x, Kept(y))
  {
  }

  // The stream up to chunk k ends one or two bytes into a frame, as the ideal
  // scanner sees it.
  predicate CutShort(acc: seq<Byte>, chunks: seq<seq<Byte>>, k: nat)
    requires k <= |chunks|
  {
    ShortHeader(IdealScan(acc + Flatten(chunks[..k])).residue)
  }

  // Feeding a stream chunk by chunk gives the result of the whole stream if no
  // chunk but the last ends one or two bytes into a frame.
  lemma {:induction false} XgoChunking(acc: seq<Byte>, chunks: seq<seq<Byte>>)
    requires IdealScan(acc) == Drained([], acc) && !ShortHeader(acc)
    requires forall k | 0 < k < |chunks| :: !CutShort(acc, chunks, k)
    ensures Progressing(Xgo())
    ensures Feed(Xgo(), acc, chunks) == Drain(Xgo(), acc + Flatten(chunks))
    decreases |chunks|
  {
    hide IdealScan, Drain;
    XgoProgresses();
    if chunks == [] {
      assert acc + Flatten([]) == acc;
      CodeIsIdealKept(acc);
    } else if |chunks| == 1 {
      var last := Drain(Xgo(), acc + chunks[0]);
      FlattenCons(acc, chunks);
      assert acc + chunks[0] + [] == acc + chunks[0];
      assert Then(last, Drained([], last.residue)) == last;
    } else {
      var a, rest := acc + chunks[0], chunks[1..];
      var r := IdealScan(a).residue;
      PrefixCons(acc, chunks, 0);
      assert a + Flatten(rest[..0]) == a;
      assert !CutShort(acc, chunks, 1);
      CodeIsIdealKept(a);
      forall k | 0 < k < |rest| ensures !CutShort(r, rest, k) {
        assert !CutShort(acc, chunks, k + 1);
        PrefixCons(acc, chunks, k);
        IdealAppend(a, Flatten(rest[..k]));
      }
      IdealResidueWaits(a);
      calc {
        Feed(Xgo(), acc, chunks);
        Then(IdealScan(a), Feed(Xgo(), r, rest));
        { XgoChunking(r, rest); CodeIsIdealKept(r + Flatten(rest)); }
        Then(IdealScan(a), Kept(IdealScan(r + Flatten(rest))));
        { KeptThen(IdealScan(a), IdealScan(r + Flatten(rest))); IdealAppend(a, Flatten(rest)); }
        Kept(IdealScan(a + Flatten(rest)));
        { CodeIsIdealKept(a + Flatten(rest)); FlattenCons(acc, chunks); }
        Drain(Xgo(), acc + Flatten(chunks));
      }
    }
  }

  lemma PrefixCons(acc: seq<Byte>, chunks: seq<seq<Byte>>, k: nat)
    requires chunks != [] && k < |chunks|
    ensures acc + Flatten(chunks[..k + 1]) == acc + chunks[0] + Flatten(chunks[1..][..k])
  {
    assert chunks[..k + 1][1..] == chunks[1..][..k];
    FlattenCons(acc, chunks[..k + 1]);
  }

  // The code on two chunks.
  lemma FeedTwo(a: seq<Byte>, b: seq<Byte>)
    ensures Progressing(Xgo())
    ensures Feed(Xgo(), [], [a, b]) == Then(IdealScan(a), Kept(IdealScan(Kept(IdealScan(a)).residue + b)))
  {
    hide IdealScan, Drain;
    XgoProgresses();
    CodeIsIdealKept(a);
    var r := Kept(IdealScan(a)).residue;
    CodeIsIdealKept(r + b);
    assert [] + a == a && [a, b][1..] == [b] && [b][1..] == [];
    var last := Drain(Xgo(), r + b);
    calc {
      Feed(Xgo(), [], [a, b]);
      Then(Drain(Xgo(), a), Feed(Xgo(), r, [b]));
      Then(Drain(Xgo(), a), Then(last, Drained([], last.residue)));
      { assert Then(last, Drained([], last.residue)) == last; }
      Then(Drain(Xgo(), a), last);
    }
  }

  // A battery answer.
  function Probe(): (f: seq<Byte>)
    ensures |f| == 9
  {
    FrameBytes(2, 1, [0])
  }

  lemma ProbeBytes()
    ensures IsFrame(Probe())
    ensures Probe()[0] == HEADER0 && Probe()[1] == HEADER1
    ensures forall i :: 2 <= i < 9 ==> Probe()[i] != HEADER0
  {
    FrameBytesIsFrame(2, 1, [0]);
    assert Sum([0]) == Sum([0][..0]) + 0;
    assert ChecksumOf(9, 2, 1, [0]) == 243;
  }

  lemma {:induction false} NoHeaderNoFrame(acc: seq<Byte>)
    requires HEADER0 !in acc
    ensures IdealScan(acc) == Drained([], [])
    decreases |acc|
  {
    if acc != [] {
      if StartsFrame(acc) {
        FrameHasHeader(acc);
      }
      assert acc[0] != HEADER0;
      NoHeaderNoFrame(acc[1..]);
    }
  }

  // A frame whose first one or two bytes were flushed is lost.
  lemma LostFrame(r: seq<Byte>)
    requires ShortHeader(r)
    ensures IdealScan(r + Probe()[|r|..]).telemetry == [Probe()]
    ensures IdealScan(Probe()[|r|..]).telemetry == []
  {
    hide Probe, IdealScan;
    ProbeBytes();
    var f := Probe();
    assert r + f[|r|..] == f;
    FramesInFront([f], []);
    EmptyScan();
    assert Flatten([f]) + [] == f;
    if |r| == 1 {
      assert HEADER0 !in f[2..];
      assert f[1..] == [HEADER1] + f[2..];
    }
    NoHeaderNoFrame(f[|r|..]);
  }

  lemma NoShortHeader()
    ensures !ShortHeader([])
  {
  }

  lemma EmptyScan()
    ensures IdealScan([]) == Drained([], [])
  {
  }

  // For one cut the condition is exact: the two parts give the result of the
  // whole stream for every continuation if and only if the first part does not
  // end one or two bytes into a frame.
  lemma XgoCut(a: seq<Byte>)
    ensures Progressing(Xgo())
    ensures (forall b :: Feed(Xgo(), [], [a, b]) == Drain(Xgo(), a + b)) <==> !ShortHeader(IdealScan(a).residue)
  {
    hide IdealScan, Drain, Feed;
    XgoProgresses();
    var r := IdealScan(a).residue;
    forall b
      ensures Feed(Xgo(), [], [a, b]) == Then(IdealScan(a), Kept(IdealScan(Kept(IdealScan(a)).residue + b)))
      ensures Drain(Xgo(), a + b) == Then(IdealScan(a), Kept(IdealScan(r + b)))
    {
      FeedTwo(a, b);
      CodeIsIdealKept(a + b);
      IdealAppend(a, b);
      KeptThen(IdealScan(a), IdealScan(r + b));
    }
    if ShortHeader(r) {
      LostFrame(r);
      var b := Probe()[|r|..];
      assert [] + b == b;
      assert |Feed(Xgo(), [], [a, b]).telemetry| != |Drain(Xgo(), a + b).telemetry|;
    }
  }

  // Whatever follows chunk k, reading it next gives the result of the whole.
  ghost predicate SafeCut(chunks: seq<seq<Byte>>, k: nat)
    requires k <= |chunks| && Progressing(Xgo())
  {
    forall b :: Feed(Xgo(), [], chunks[..k] + [b]) == Drain(Xgo(), Flatten(chunks[..k]) + b)
  }

  // Up to the first short cut the code has lost nothing but the header bytes.
  lemma FedSoFar(chunks: seq<seq<Byte>>, k: nat)
    requires k <= |chunks| && forall j | 0 <= j < k :: !CutShort([], chunks, j)
    ensures Progressing(Xgo())
    ensures Feed(Xgo(), [], chunks[..k]) == Kept(IdealScan(Flatten(chunks[..k])))
  {
    hide Drain, Feed;
    var front := chunks[..k];
    forall j | 0 < j < |front| ensures !CutShort([], front, j) {
      assert front[..j] == chunks[..j];
      assert !CutShort([], chunks, j);
    }
    EmptyScan();
    XgoChunking([], front);
    assert [] + Flatten(front) == Flatten(front);
    CodeIsIdealKept(Flatten(front));
  }

  // For any number of chunks the condition is exact as well: every cut is safe
  // if and only if none falls one or two bytes into a frame.
  lemma XgoCutsExactly(chunks: seq<seq<Byte>>)
    ensures Progressing(Xgo())
    ensures (forall k | 0 <= k <= |chunks| :: SafeCut(chunks, k)) <==>
            (forall k | 0 <= k <= |chunks| :: !CutShort([], chunks, k))
  {
    hide Drain, Feed, IdealScan, SafeCut, CutShort;
    XgoProgresses();
    if forall k | 0 <= k <= |chunks| :: SafeCut(chunks, k) {
      SafeCutsAreLong(chunks, |chunks|);
    }
    if forall k | 0 <= k <= |chunks| :: !CutShort([], chunks, k) {
      forall k | 0 <= k <= |chunks| ensures SafeCut(chunks, k) {
        LongCutIsSafe(chunks, k);
      }
    }
  }

  lemma LongCutIsSafe(chunks: seq<seq<Byte>>, k: nat)
    requires k <= |chunks| && forall j | 0 <= j <= |chunks| :: !CutShort([], chunks, j)
    ensures Progressing(Xgo()) && SafeCut(chunks, k)
  {
    hide Drain, Feed, IdealScan;
    XgoProgresses();
    forall b
      ensures Feed(Xgo(), [], chunks[..k] + [b]) == Drain(Xgo(), Flatten(chunks[..k]) + b)
    {
      var all := chunks[..k] + [b];
      forall j | 0 < j < |all| ensures !CutShort([], all, j) {
        assert all[..j] == chunks[..j];
        assert !CutShort([], chunks, j);
      }
      EmptyScan();
      XgoChunking([], all);
      FlattenSnoc(chunks[..k], b);
      assert [] + Flatten(all) == Flatten(chunks[..k]) + b;
    }
  }

  lemma {:induction false} SafeCutsAreLong(chunks: seq<seq<Byte>>, k: nat)
    requires Progressing(Xgo()) && k <= |chunks| && forall j | 0 <= j <= |chunks| :: SafeCut(chunks, j)
    ensures forall j | 0 <= j <= k :: !CutShort([], chunks, j)
    decreases k
  {
    hide Drain, Feed, IdealScan, SafeCut, CutShort;
    if k > 0 {
      SafeCutsAreLong(chunks, k - 1);
    }
    if CutShort([], chunks, k) {
      ShortCutIsUnsafe(chunks, k);
    }
  }

  lemma ShortCutIsUnsafe(chunks: seq<seq<Byte>>, k: nat)
    requires k <= |chunks| && CutShort([], chunks, k) && forall j | 0 <= j < k :: !CutShort([], chunks, j)
    ensures Progressing(Xgo()) && !SafeCut(chunks, k)
  {
    hide Drain, Feed, IdealScan;
    FedSoFar(chunks, k);
    var front := Flatten(chunks[..k]);
    assert [] + front == front;
    var r := IdealScan(front).residue;
    var b := Probe()[|r|..];
    LostFrame(r);
    FeedAppend(Xgo(), [], chunks[..k], [b]);
    FeedOne([], b);
    assert [] + b == b;
    CodeIsIdealKept(b);
    CodeIsIdealKept(front + b);
    IdealAppend(front, b);
    assert |Feed(Xgo(), [], chunks[..k] + [b]).telemetry| != |Drain(Xgo(), front + b).telemetry|;
  }

  lemma FeedOne(acc: seq<Byte>, b: seq<Byte>)
    ensures Progressing(Xgo()) && Feed(Xgo(), acc, [b]) == Drain(Xgo(), acc + b)
  {
    hide Drain;
    XgoProgresses();
    var last := Drain(Xgo(), acc + b);
    assert Then(last, Drained([], last.residue)) == last;
  }

  // ----------------------------------------------------------- Frame streams

  lemma OneInFront(f: seq<Byte>, tail: seq<Byte>)
    requires IsFrame(f)
    ensures IdealScan(f + tail) == Then(Drained([f], []), IdealScan(tail))
  {
    var acc := f + tail;
    FrameChecks(f);
    assert acc[2] == |f| && acc[..|f|] == f && acc[|f|..] == tail;
  }

  // Whole frames in front of anything are found whole.
  lemma {:induction false} FramesInFront(frames: seq<seq<Byte>>, tail: seq<Byte>)
    requires forall f <- frames :: IsFrame(f)
    ensures IdealScan(Flatten(frames) + tail) == Then(Drained(frames, []), IdealScan(tail))
    decreases |frames|
  {
    if frames == [] {
      assert Flatten(frames) + tail == tail;
      assert [] + IdealScan(tail).telemetry == IdealScan(tail).telemetry;
    } else {
      var f, rest := frames[0], frames[1..];
      assert IsFrame(f);
      assert Flatten(frames) + tail == f + (Flatten(rest) + tail);
      OneInFront(f, Flatten(rest) + tail);
      FramesInFront(rest, tail);
      ThenAssociates(Drained([f], []), Drained(rest, []), IdealScan(tail));
      assert [f] + rest == frames;
    }
  }

  // Any concatenation of frames scans back to exactly those frames, in order,
  // with nothing left over.
  lemma FrameStreamRoundTrip(frames: seq<seq<Byte>>)
    requires forall f <- frames :: IsFrame(f)
    ensures Progressing(Xgo())
    ensures Drain(Xgo(), Flatten(frames)) == Drained(frames, [])
  {
    FramesInFront(frames, []);
    assert Flatten(frames) + [] == Flatten(frames);
    CodeIsIdealKept(Flatten(frames));
  }

  // On such a stream the real loop is never left again.
  lemma FrameStreamSpins(frames: seq<seq<Byte>>, k: nat)
    requires forall f <- frames :: IsFrame(f)
    ensures Rounds(Flatten(frames), k).Some?
  {
    FrameStreamRoundTrip(frames);
    ScannerRefinesNaive(Flatten(frames));
    LoopContinues(Flatten(frames), k);
  }

  // How far position n of a frame stream lies inside its frame.
  function Depth(frames: seq<seq<Byte>>, n: nat): nat {
    if frames == [] then 0 else if n < |frames[0]| then n else Depth(frames[1..], n - |frames[0]|)
  }

  lemma FrontOfFrameWaits(f: seq<Byte>, k: nat)
    requires IsFrame(f) && k < |f|
    ensures IdealScan(f[..k]) == Drained([], f[..k])
    ensures ShortHeader(f[..k]) <==> k == 1 || k == 2
  {
    FrameChecks(f);
    if k == 1 {
      assert f[..k] == [HEADER0];
    } else if k == 2 {
      assert f[..k] == [HEADER0, HEADER1];
    } else if k >= 3 {
      assert Pending(f[..k]);
    }
  }

  // What the ideal scanner keeps of a frame stream that is cut: the bytes of
  // the frame it is cut in.
  lemma {:induction false} CutResidue(frames: seq<seq<Byte>>, n: nat)
    requires forall f <- frames :: IsFrame(f)
    requires n <= |Flatten(frames)|
    ensures |IdealScan(Flatten(frames)[..n]).residue| == Depth(frames, n)
    ensures ShortHeader(IdealScan(Flatten(frames)[..n]).residue) <==> Depth(frames, n) == 1 || Depth(frames, n) == 2
    decreases |frames|
  {
    hide IdealScan, ShortHeader, IsFrame;
    if frames == [] {
      EmptyScan();
      assert !ShortHeader([]) by { NoShortHeader(); }
    } else {
      var f, rest := frames[0], frames[1..];
      var s := Flatten(frames);
      assert IsFrame(f);
      if n < |f| {
        assert s[..n] == f[..n];
        FrontOfFrameWaits(f, n);
      } else {
        assert s[..n] == Flatten([f]) + Flatten(rest)[..n - |f|];
        FramesInFront([f], Flatten(rest)[..n - |f|]);
        CutResidue(rest, n - |f|);
      }
    }
  }

  // On a frame stream received so far the real loop is left if and only if it
  // is cut three or more bytes into a frame.
  lemma FrameStreamLoopExactly(frames: seq<seq<Byte>>, n: nat)
    requires forall f <- frames :: IsFrame(f)
    requires n <= |Flatten(frames)|
    ensures Left(Flatten(frames)[..n]) <==> Depth(frames, n) >= 3
  {
    hide IdealScan, NaiveScan, Left, Depth;
    var front := Flatten(frames)[..n];
    LoopEndsExactly(front);
    NaiveIsIdealKept(front);
    CutResidue(frames, n);
  }

  lemma {:induction false} FlattenPrefix(chunks: seq<seq<Byte>>, k: nat)
    requires k <= |chunks|
    ensures var n := |Flatten(chunks[..k])|;
            n <= |Flatten(chunks)| && Flatten(chunks)[..n] == Flatten(chunks[..k])
    decreases |chunks|
  {
    if k > 0 {
      FlattenPrefix(chunks[1..], k - 1);
      assert chunks[..k][1..] == chunks[1..][..k - 1];
    }
  }

  // Bytes accounted for: published in frames, or kept.
  function Bytes(r: Drained<Byte>): nat {
    |Flatten(r.telemetry)| + |r.residue|
  }

  lemma {:induction false} FlattenAppend(xs: seq<seq<Byte>>, ys: seq<seq<Byte>>)
    ensures Flatten(xs + ys) == Flatten(xs) + Flatten(ys)
    decreases |xs|
  {
    if xs == [] {
      assert xs + ys == ys;
    } else {
      assert (xs + ys)[1..] == xs[1..] + ys;
      FlattenAppend(xs[1..], ys);
    }
  }

  lemma BytesOfThen(x: Drained<Byte>, y: Drained<Byte>)
    ensures Bytes(Then(x, y)) == |Flatten(x.telemetry)| + Bytes(y)
  {
    FlattenAppend(x.telemetry, y.telemetry);
  }

  lemma {:induction false} ScanBytes(acc: seq<Byte>)
    ensures Bytes(NaiveScan(acc)) <= |acc|
    decreases |acc|
  {
    if acc != [] && !Pending(acc) {
      ScanBytes(if StartsFrame(acc) then acc[acc[2]..] else acc[1..]);
      if StartsFrame(acc) {
        BytesOfThen(Drained([acc[..acc[2]]], []), NaiveScan(acc[acc[2]..]));
        assert Flatten([acc[..acc[2]]]) == acc[..acc[2]];
      }
    }
  }

  // Feeding invents no byte.
  lemma {:induction false} FeedBytes(acc: seq<Byte>, chunks: seq<seq<Byte>>)
    ensures Progressing(Xgo())
    ensures Bytes(Feed(Xgo(), acc, chunks)) <= |acc| + |Flatten(chunks)|
    decreases |chunks|
  {
    hide Drain, NaiveScan, Flatten;
    XgoProgresses();
    if chunks == [] {
      assert Bytes(Drained([], acc)) == |acc| by { NoBytes(acc); }
    } else {
      var first := Drain(Xgo(), acc + chunks[0]);
      ScannerRefinesNaive(acc + chunks[0]);
      ScanBytes(acc + chunks[0]);
      FeedBytes(first.residue, chunks[1..]);
      BytesOfThen(first, Feed(Xgo(), first.residue, chunks[1..]));
      FlattenCons(acc, chunks);
    }
  }

  lemma NoBytes(acc: seq<Byte>)
    ensures Bytes(Drained([], acc)) == |acc|
  {
  }

  // A cut one or two bytes into a frame loses bytes for good.
  lemma {:induction false} ShortCutLoses(chunks: seq<seq<Byte>>, j: nat, k: nat)
    requires j <= k <= |chunks| && CutShort([], chunks, j)
    ensures Progressing(Xgo())
    ensures Bytes(Feed(Xgo(), [], chunks[..k])) < |Flatten(chunks[..k])|
    decreases k
  {
    hide Drain, Feed, IdealScan, NaiveScan, CutShort;
    XgoProgresses();
    if i :| 0 <= i < k && CutShort([], chunks, i) {
      ShortCutLoses(chunks, i, k - 1);
      var front, last := chunks[..k - 1], [chunks[k - 1]];
      var r := Feed(Xgo(), [], front);
      assert chunks[..k] == front + last;
      FeedAppend(Xgo(), [], front, last);
      BytesOfThen(r, Feed(Xgo(), r.residue, last));
      FeedBytes(r.residue, last);
      FlattenAppend(front, last);
    } else {
      FirstShortCut(chunks, k);
    }
  }

  lemma FirstShortCut(chunks: seq<seq<Byte>>, k: nat)
    requires k <= |chunks| && CutShort([], chunks, k) && forall j | 0 <= j < k :: !CutShort([], chunks, j)
    ensures Progressing(Xgo())
    ensures Bytes(Feed(Xgo(), [], chunks[..k])) < |Flatten(chunks[..k])|
  {
    hide Drain, Feed, IdealScan;
    var front := Flatten(chunks[..k]);
    assert [] + front == front;
    FedSoFar(chunks, k);
    IdealBytes(front);
    BytesOfKept(IdealScan(front));
  }

  lemma BytesOfKept(r: Drained<Byte>)
    requires ShortHeader(r.residue)
    ensures Bytes(Kept(r)) < Bytes(r)
  {
  }

  lemma {:induction false} IdealBytes(acc: seq<Byte>)
    ensures Bytes(IdealScan(acc)) <= |acc|
    decreases |acc|
  {
    if acc != [] && !Waits(acc) {
      IdealBytes(if StartsFrame(acc) then acc[acc[2]..] else acc[1..]);
      if StartsFrame(acc) {
        BytesOfThen(Drained([acc[..acc[2]]], []), IdealScan(acc[acc[2]..]));
        assert Flatten([acc[..acc[2]]]) == acc[..acc[2]];
      }
    }
  }

  // A boundary of a frame stream is a short cut exactly at depth one or two.
  lemma ShortBoundary(frames: seq<seq<Byte>>, chunks: seq<seq<Byte>>, k: nat)
    requires forall f <- frames :: IsFrame(f)
    requires Flatten(chunks) == Flatten(frames) && k <= |chunks|
    ensures CutShort([], chunks, k) <==> Depth(frames, |Flatten(chunks[..k])|) in {1, 2}
  {
    hide IdealScan, Depth;
    var n := |Flatten(chunks[..k])|;
    FlattenPrefix(chunks, k);
    CutResidue(frames, n);
    assert [] + Flatten(chunks[..k]) == Flatten(frames)[..n];
  }

  // A frame stream delivered in chunks yields exactly its frames if and only if
  // no chunk boundary falls one or two bytes into a frame.
  lemma FrameStreamInChunks(frames: seq<seq<Byte>>, chunks: seq<seq<Byte>>)
    requires forall f <- frames :: IsFrame(f)
    requires Flatten(chunks) == Flatten(frames)
    ensures Progressing(Xgo())
    ensures Feed(Xgo(), [], chunks) == Drained(frames, []) <==>
            forall k | 0 <= k <= |chunks| :: Depth(frames, |Flatten(chunks[..k])|) !in {1, 2}
  {
    hide IdealScan, Depth, Drain, Feed, CutShort;
    XgoProgresses();
    forall k | 0 <= k <= |chunks|
      ensures CutShort([], chunks, k) <==> Depth(frames, |Flatten(chunks[..k])|) in {1, 2}
    {
      ShortBoundary(frames, chunks, k);
    }
    assert chunks[..|chunks|] == chunks;
    if k :| 0 <= k <= |chunks| && Depth(frames, |Flatten(chunks[..k])|) in {1, 2} {
      ShortCutLoses(chunks, k, |chunks|);
      assert Bytes(Drained(frames, [])) == |Flatten(frames)|;
    } else {
      forall k | 0 <= k < |chunks| ensures !CutShort([], chunks, k) {
        assert Depth(frames, |Flatten(chunks[..k])|) !in {1, 2};
      }
      FedSoFar(chunks, |chunks|);
      FrameStreamRoundTrip(frames);
      CodeIsIdealKept(Flatten(frames));
    }
  }

  // ------------------------------------------------- The real connection

  // The real loop is left after read j, if it was after every earlier one.
  ghost predicate LeftAfter(chunks: seq<seq<Byte>>, j: nat)
    requires 0 < j <= |chunks| && Progressing(Xgo())
  {
    Left(Feed(Xgo(), [], chunks[..j - 1]).residue + chunks[j - 1])
  }

  // Read j ends inside a frame whose length byte has arrived, as the ideal
  // scanner sees it.
  predicate EndsInFrame(chunks: seq<seq<Byte>>, j: nat)
    requires j <= |chunks|
  {
    Pending(IdealScan(Flatten(chunks[..j])).residue)
  }

  lemma FrontsAreLong(chunks: seq<seq<Byte>>, n: nat)
    requires n <= |chunks| && forall j | 0 < j <= n :: EndsInFrame(chunks, j)
    ensures forall j | 0 <= j <= n :: !CutShort([], chunks, j)
  {
    hide IdealScan;
    forall j | 0 <= j <= n ensures !CutShort([], chunks, j) {
      assert [] + Flatten(chunks[..j]) == Flatten(chunks[..j]);
      if j == 0 {
        EmptyScan();
      } else {
        assert EndsInFrame(chunks, j);
      }
    }
  }

  // After reads that end inside frames the real loop is left after one more
  // exactly if that ends inside a frame as well.
  lemma LeftAfterNext(chunks: seq<seq<Byte>>, j: nat)
    requires 0 < j <= |chunks| && forall i | 0 < i < j :: EndsInFrame(chunks, i)
    ensures Progressing(Xgo())
    ensures LeftAfter(chunks, j) <==> EndsInFrame(chunks, j)
  {
    hide IdealScan, Feed, Left, NaiveScan;
    XgoProgresses();
    FrontsAreLong(chunks, j - 1);
    FedSoFar(chunks, j - 1);
    var front, last := chunks[..j - 1], chunks[j - 1];
    assert !CutShort([], chunks, j - 1);
    assert [] + Flatten(front) == Flatten(front);
    var r := IdealScan(Flatten(front)).residue;
    assert front + [last] == chunks[..j];
    FlattenSnoc(front, last);
    IdealAppend(Flatten(front), last);
    NaiveIsIdealKept(r + last);
    LoopEndsExactly(r + last);
    ResidueWaits(Flatten(chunks[..j]));
  }

  lemma {:induction false} ResidueWaits(acc: seq<Byte>)
    ensures IdealScan(acc).residue == [] || Waits(IdealScan(acc).residue)
    decreases |acc|
  {
    if acc != [] && !Waits(acc) {
      ResidueWaits(if StartsFrame(acc) then acc[acc[2]..] else acc[1..]);
    }
  }

  // The real loop is left after each of the first n reads, so that the next one
  // takes place, if and only if each of them ends inside a frame whose length
  // byte has arrived. It then has lost nothing.
  lemma {:induction false} ReadsOnExactly(chunks: seq<seq<Byte>>, n: nat)
    requires n <= |chunks|
    ensures Progressing(Xgo())
    ensures (forall j | 0 < j <= n :: LeftAfter(chunks, j)) <==> (forall j | 0 < j <= n :: EndsInFrame(chunks, j))
    ensures (forall j | 0 < j <= n :: LeftAfter(chunks, j)) ==>
              Feed(Xgo(), [], chunks[..n]) == IdealScan(Flatten(chunks[..n]))
    decreases n
  {
    hide IdealScan, Feed, LeftAfter, EndsInFrame;
    XgoProgresses();
    if n > 0 {
      ReadsOnExactly(chunks, n - 1);
      if forall j | 0 < j < n :: EndsInFrame(chunks, j) {
        LeftAfterNext(chunks, n);
      }
    }
    if forall j | 0 < j <= n :: EndsInFrame(chunks, j) {
      NothingLost(chunks, n);
    }
  }

  lemma NothingLost(chunks: seq<seq<Byte>>, n: nat)
    requires n <= |chunks| && forall j | 0 < j <= n :: EndsInFrame(chunks, j)
    ensures Progressing(Xgo())
    ensures Feed(Xgo(), [], chunks[..n]) == IdealScan(Flatten(chunks[..n]))
  {
    hide IdealScan, Feed;
    FrontsAreLong(chunks, n);
    FedSoFar(chunks, n);
    assert !CutShort([], chunks, n);
    assert [] + Flatten(chunks[..n]) == Flatten(chunks[..n]);
  }

  // On a frame stream: three or more bytes into a frame.
  lemma InsideExactly(frames: seq<seq<Byte>>, chunks: seq<seq<Byte>>, j: nat)
    requires forall f <- frames :: IsFrame(f)
    requires Flatten(chunks) == Flatten(frames) && j <= |chunks|
    ensures EndsInFrame(chunks, j) <==> Depth(frames, |Flatten(chunks[..j])|) >= 3
  {
    hide IdealScan, Depth;
    FlattenPrefix(chunks, j);
    CutResidue(frames, |Flatten(chunks[..j])|);
    ResidueWaits(Flatten(chunks[..j]));
  }

  // The real connection takes the first n reads of a frame stream and comes
  // back for more if and only if each of them ends three or more bytes into a
  // frame.
  lemma FrameStreamReadsOn(frames: seq<seq<Byte>>, chunks: seq<seq<Byte>>, n: nat)
    requires forall f <- frames :: IsFrame(f)
    requires Flatten(chunks) == Flatten(frames) && n <= |chunks|
    ensures Progressing(Xgo())
    ensures (forall j | 0 < j <= n :: LeftAfter(chunks, j)) <==>
            (forall j | 0 < j <= n :: Depth(frames, |Flatten(chunks[..j])|) >= 3)
  {
    hide LeftAfter, EndsInFrame, Depth, IdealScan, Feed;
    XgoProgresses();
    ReadsOnExactly(chunks, n);
    forall j | 0 < j <= n
      ensures EndsInFrame(chunks, j) <==> Depth(frames, |Flatten(chunks[..j])|) >= 3
    {
      InsideExactly(frames, chunks, j);
    }
  }

  // All reads of a frame stream take place exactly if those before the last end
  // so. Then every frame is found.
  lemma FrameStreamReadWhole(frames: seq<seq<Byte>>, chunks: seq<seq<Byte>>)
    requires forall f <- frames :: IsFrame(f)
    requires Flatten(chunks) == Flatten(frames) && chunks != []
    ensures Progressing(Xgo())
    ensures (forall j | 0 < j < |chunks| :: LeftAfter(chunks, j)) <==>
            (forall j | 0 < j < |chunks| :: Depth(frames, |Flatten(chunks[..j])|) >= 3)
    ensures (forall j | 0 < j < |chunks| :: LeftAfter(chunks, j)) ==>
              Feed(Xgo(), [], chunks) == Drained(frames, [])
  {
    hide LeftAfter, Depth, IdealScan, Feed, Drain;
    XgoProgresses();
    var n := |chunks| - 1;
    FrameStreamReadsOn(frames, chunks, n);
    if forall j | 0 < j <= n :: Depth(frames, |Flatten(chunks[..j])|) >= 3 {
      forall j | 0 < j <= n ensures EndsInFrame(chunks, j) {
        InsideExactly(frames, chunks, j);
      }
      FrontsAreLong(chunks, n);
      FedSoFar(chunks, |chunks|);
      assert chunks[..|chunks|] == chunks;
      FrameStreamRoundTrip(frames);
      CodeIsIdealKept(Flatten(frames));
    }
  }

  // The witness: two whole frames, one a read. With the drain that stops on an
  // empty buffer both are found; the real loop never comes back for the second.
  lemma SecondFrameUnread(f: seq<Byte>)
    requires IsFrame(f)
    ensures Progressing(Xgo())
    ensures Feed(Xgo(), [], [f, f]) == Drained([f, f], [])
    ensures !LeftAfter([f, f], 1)
  {
    hide Drain, IdealScan, Feed, Depth, LeftAfter, Flatten;
    XgoProgresses();
    var two := [f, f];
    assert two[..0] == [] && two[..1] == [f] && two[..2] == two && two[1..] == [f] && [f][1..] == [];
    FlattenPair(f);
    DepthAtFrame(f);
    FrameStreamReadsOn(two, two, 1);
    FrameStreamInChunks(two, two);
  }

  lemma FlattenPair(f: seq<Byte>)
    ensures Flatten<Byte>([]) == [] && Flatten([f]) == f && Flatten([f, f]) == f + f
  {
    assert [f][1..] == [] && [f, f][1..] == [f];
    assert Flatten([f]) == f + Flatten<Byte>([]);
    assert Flatten([f, f]) == f + Flatten([f]);
  }

  lemma DepthBehind(frames: seq<seq<Byte>>, n: nat)
    requires frames != [] && n >= |frames[0]|
    ensures Depth(frames, n) == Depth(frames[1..], n - |frames[0]|)
  {
  }

  lemma DepthAtFrame(f: seq<Byte>)
    requires f != []
    ensures Depth([f, f], 0) == Depth([f, f], |f|) == Depth([f, f], |f + f|) == 0
  {
    assert [f, f][1..] == [f] && [f][1..] == [];
    assert Depth([f, f], 0) == 0 && Depth([f], 0) == 0 && Depth([], 0) == 0;
    hide Depth;
    DepthBehind([f, f], |f|);
    DepthBehind([f, f], |f + f|);
    DepthBehind([f], |f|);
  }

  // ------------------------------------------------------------- Corruption

  // A complete buffer that claims a plausible length but is no frame loses
  // exactly its header pair.
  lemma BadFrameDropsHeader(acc: seq<Byte>)
    requires HasHeader(acc) && MIN_LEN <= acc[2] <= Min(MAX_LEN, |acc|) && !StartsFrame(acc)
    ensures ScanFrame(acc) == Garbage(2)
  {
    ScanAtHeader(acc);
    ScanFindsFrame(acc);
  }

  // Changing any one byte behind LEN of the frame at the front makes the
  // scanner drop its header pair, whatever follows.
  lemma CorruptionResynchronises(f: seq<Byte>, i: nat, b: Byte, more: seq<Byte>)
    requires IsFrame(f) && 3 <= i < |f| && b != f[i]
    ensures ScanFrame(f[i := b] + more) == Garbage(2)
  {
    var g := f[i := b];
    var acc := g + more;
    FrameChecks(f);
    CorruptionDetected(f, i, b);
    assert acc[..acc[2]] == g;
    BadFrameDropsHeader(acc);
  }
}
