// The telemetry half of the fieldbus loops: bytes arrive in arbitrary chunks,
// are appended to an accumulator, and a brand decoder is called on the
// accumulator until it asks for more bytes.
module Streaming {
  import opened Basics

  // What a decoder reports for one complete message: bytes to drop, the
  // fixed-size value array, and how many of its slots are active.
  datatype Decoded<+V> = Decoded(consumed: nat, values: seq<V>, n: nat)

  type Decoder<!V> = seq<Byte> -> Option<Decoded<V>>

  // Telemetry published so far, and the bytes still waiting.
  datatype Drained<+V> = Drained(telemetry: seq<seq<V>>, residue: seq<Byte>)

  // Every message consumes at least one buffered byte and no missing one.
  predicate ProgressesOn<V>(d: Decoder<V>, acc: seq<Byte>) {
    match d(acc)
    case None => true
    case Some(m) => 1 <= m.consumed <= |acc| && m.n <= |m.values|
  }

  ghost predicate Progressing<V(!new)>(d: Decoder<V>) {
    forall acc :: ProgressesOn(d, acc)
  }

  // A complete message is not reinterpreted when more bytes arrive.
  ghost predicate StableOn<V>(d: Decoder<V>, acc: seq<Byte>, more: seq<Byte>) {
    d(acc).Some? ==> d(acc + more) == d(acc)
  }

  ghost predicate Stable<V(!new)>(d: Decoder<V>) {
    forall acc, more :: StableOn(d, acc, more)
  }

  // A message with no active slot is consumed without being published.
  function Publication<V>(m: Decoded<V>): seq<seq<V>>
    requires m.n <= |m.values|
  {
    if m.n > 0 then [m.values[..m.n]] else []
  }

  // Two drains in a row.
  function Then<V>(first: Drained<V>, second: Drained<V>): Drained<V> {
    Drained(first.telemetry + second.telemetry, second.residue)
  }

  ghost function Drain<V(!new)>(d: Decoder<V>, acc: seq<Byte>): Drained<V>
    requires Progressing(d)
    decreases |acc|
  {
    assert ProgressesOn(d, acc);
    match d(acc)
    case None => Drained([], acc)
    case Some(m) => Then(Drained(Publication(m), []), Drain(d, acc[m.consumed..]))
  }

  // One drain after every chunk.
  ghost function Feed<V(!new)>(d: Decoder<V>, acc: seq<Byte>, chunks: seq<seq<Byte>>): Drained<V>
    requires Progressing(d)
    decreases |chunks|
  {
    if chunks == [] then Drained([], acc)
    else Then(Drain(d, acc + chunks[0]), Feed(d, Drain(d, acc + chunks[0]).residue, chunks[1..]))
  }

  lemma {:induction false} DrainStopsOnNone<V(!new)>(d: Decoder<V>, acc: seq<Byte>)
    requires Progressing(d)
    ensures d(Drain(d, acc).residue).None?
    decreases |acc|
  {
    assert ProgressesOn(d, acc);
    if d(acc).Some? {
      DrainStopsOnNone(d, acc[d(acc).value.consumed..]);
    }
  }

  // Draining a prefix first and the rest later changes nothing.
  lemma {:induction false} DrainAppend<V(!new)>(d: Decoder<V>, a: seq<Byte>, b: seq<Byte>)
    requires Progressing(d) && Stable(d)
    ensures Drain(d, a + b) == Then(Drain(d, a), Drain(d, Drain(d, a).residue + b))
    decreases |a|
  {
    assert ProgressesOn(d, a) && StableOn(d, a, b);
    if d(a).None? {
      assert Drain(d, a) == Drained([], a);
    } else {
      var m := d(a).value;
      var a', ab := a[m.consumed..], a + b;
      assert ab[m.consumed..] == a' + b;
      DrainAppend(d, a', b);
      calc {
        Drain(d, ab);
        Then(Drained(Publication(m), []), Drain(d, a' + b));
        Then(Drained(Publication(m), []), Then(Drain(d, a'), Drain(d, Drain(d, a').residue + b)));
        { ThenAssociates(Drained(Publication(m), []), Drain(d, a'), Drain(d, Drain(d, a').residue + b)); }
        Then(Drain(d, a), Drain(d, Drain(d, a).residue + b));
      }
    }
  }

  lemma ThenAssociates<V>(x: Drained<V>, y: Drained<V>, z: Drained<V>)
    ensures Then(x, Then(y, z)) == Then(Then(x, y), z)
  {
    assert x.telemetry + (y.telemetry + z.telemetry) == (x.telemetry + y.telemetry) + z.telemetry;
  }

  // Chunking independence: however the byte stream is split, draining after
  // every chunk publishes the telemetry, and keeps the bytes, of one drain of
  // the whole stream.
  lemma {:induction false} ChunkingIndependence<V(!new)>(d: Decoder<V>, acc: seq<Byte>, chunks: seq<seq<Byte>>)
    requires Progressing(d) && Stable(d)
    requires d(acc).None?
    ensures Feed(d, acc, chunks) == Drain(d, acc + Flatten(chunks))
    decreases |chunks|
  {
    if chunks == [] {
      assert acc + Flatten(chunks) == acc;
    } else {
      var a, rest := acc + chunks[0], chunks[1..];
      var later := Flatten(rest);
      FlattenCons(acc, chunks);
      calc {
        Feed(d, acc, chunks);
        Then(Drain(d, a), Feed(d, Drain(d, a).residue, rest));
        { DrainStopsOnNone(d, a); ChunkingIndependence(d, Drain(d, a).residue, rest); }
        Then(Drain(d, a), Drain(d, Drain(d, a).residue + later));
        { DrainAppend(d, a, later); }
        Drain(d, a + later);
      }
    }
  }

  // Feeding more chunks continues where feeding the earlier ones stopped.
  lemma {:induction false} FeedAppend<V(!new)>(d: Decoder<V>, acc: seq<Byte>, xs: seq<seq<Byte>>, ys: seq<seq<Byte>>)
    requires Progressing(d)
    ensures Feed(d, acc, xs + ys) == Then(Feed(d, acc, xs), Feed(d, Feed(d, acc, xs).residue, ys))
    decreases |xs|
  {
    if xs == [] {
      assert xs + ys == ys;
      assert [] + Feed(d, acc, ys).telemetry == Feed(d, acc, ys).telemetry;
    } else {
      var first := Drain(d, acc + xs[0]);
      assert (xs + ys)[1..] == xs[1..] + ys;
      FeedAppend(d, first.residue, xs[1..], ys);
      ThenAssociates(first, Feed(d, first.residue, xs[1..]), Feed(d, Feed(d, acc, xs).residue, ys));
    }
  }

  // The accumulator side of one connection.
  class TelemetryLoop<V(!new)> {
    var acc: seq<Byte>
    var frames: nat
    var published: seq<seq<V>>

    constructor ()
      ensures acc == [] && frames == 0 && published == []
    {
      acc, frames, published := [], 0, [];
    }

    method DrainFrames(d: Decoder<V>)
      requires Progressing(d)
      modifies this
      ensures acc == Drain(d, old(acc)).residue
      ensures published == old(published) + Drain(d, old(acc)).telemetry
      ensures frames - old(frames) == |published| - |old(published)|
    {
      ghost var all := Drain(d, acc);
      assert ProgressesOn(d, acc);
      var decoded := d(acc);
      while decoded.Some?
        invariant decoded == d(acc) && ProgressesOn(d, acc)
        invariant Then(Drained(published, []), Drain(d, acc)) == Then(Drained(old(published), []), all)
        invariant frames - old(frames) == |published| - |old(published)|
        decreases |acc|
      {
        var m := decoded.value;
        ThenAssociates(Drained(published, []), Drained(Publication(m), []), Drain(d, acc[m.consumed..]));
        if m.n > 0 {
          published := published + [m.values[..m.n]];
          frames := frames + 1;
        }
        acc := acc[m.consumed..];
        assert ProgressesOn(d, acc);
        decoded := d(acc);
      }
    }

    // A connection that delivers the given chunks, one read at a time.
    method ReadAll(d: Decoder<V>, chunks: seq<seq<Byte>>)
      requires Progressing(d) && Stable(d)
      requires d(acc).None?
      modifies this
      ensures acc == Drain(d, old(acc) + Flatten(chunks)).residue
      ensures published == old(published) + Drain(d, old(acc) + Flatten(chunks)).telemetry
      ensures frames - old(frames) == |published| - |old(published)|
    {
      ghost var whole := Feed(d, acc, chunks);
      ChunkingIndependence(d, acc, chunks);
      var i := 0;
      while i < |chunks|
        invariant 0 <= i <= |chunks|
        invariant Then(Drained(published, []), Feed(d, acc, chunks[i..])) == Then(Drained(old(published), []), whole)
        invariant frames - old(frames) == |published| - |old(published)|
      {
        ghost var before, rest := published, chunks[i + 1..];
        assert chunks[i..][1..] == rest;
        acc := acc + chunks[i];
        ghost var now := Drain(d, acc);
        DrainFrames(d);
        ThenAssociates(Drained(before, []), now, Feed(d, acc, rest));
        i := i + 1;
      }
      assert chunks[i..] == [];
    }
  }
}
