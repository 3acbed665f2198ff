// A register of capacity one: what the lock-free slot is supposed to be. Its
// operations, in the order in which they take effect, form a log.
module Registers {
  import opened Basics

  // `who` is the thread that takes.
  datatype Op<C> = Put(v: C) | Take(who: nat, got: Option<C>)

  // What the register holds after a log: the last value put, unless taken.
  function Content<C>(log: seq<Op<C>>): Option<C> {
    if log != [] && log[|log| - 1].Put? then Some(log[|log| - 1].v) else None
  }

  // Every take gets what the register holds at that instant.
  predicate Legal<C(==)>(log: seq<Op<C>>) {
    forall i | 0 <= i < |log| :: log[i].Take? ==> log[i].got == Content(log[..i])
  }

  lemma LegalSnoc<C>(log: seq<Op<C>>, op: Op<C>)
    requires Legal(log) && (op.Take? ==> op.got == Content(log))
    ensures Legal(log + [op])
  {
    forall i | 0 <= i < |log + [op]|
      ensures (log + [op])[i].Take? ==> (log + [op])[i].got == Content((log + [op])[..i])
    {
      assert (log + [op])[..i] == log[..i];
      assert i == |log| ==> log[..i] == log;
    }
  }

  lemma LegalPrefix<C>(log: seq<Op<C>>, n: nat)
    requires Legal(log) && n <= |log|
    ensures Legal(log[..n])
  {
    forall i | 0 <= i < n
      ensures log[..n][i].Take? ==> log[..n][i].got == Content(log[..n][..i])
    {
      assert log[..n][..i] == log[..i];
    }
  }

  // The values published, in order.
  function Puts<C>(log: seq<Op<C>>): seq<C> {
    if log == [] then []
    else
      var op := log[|log| - 1];
      Puts(log[..|log| - 1]) + if op.Put? then [op.v] else []
  }

  // The ordinals, among the puts, of the values taken.
  function Consumed<C>(log: seq<Op<C>>): seq<nat> {
    if log == [] then []
    else
      var before, op := log[..|log| - 1], log[|log| - 1];
      Consumed(before) + if op.Take? && op.got.Some? && Puts(before) != [] then [|Puts(before)| - 1] else []
  }

  // The values taken, in order, by one thread or by all.
  function TakenBy<C>(log: seq<Op<C>>, who: nat): seq<C> {
    if log == [] then []
    else
      var op := log[|log| - 1];
      TakenBy(log[..|log| - 1], who) + if op.Take? && op.who == who && op.got.Some? then [op.got.value] else []
  }

  function Taken<C>(log: seq<Op<C>>): seq<C> {
    if log == [] then []
    else
      var op := log[|log| - 1];
      Taken(log[..|log| - 1]) + if op.Take? && op.got.Some? then [op.got.value] else []
  }

  // Puts that displace a value nobody took.
  function Overwritten<C>(log: seq<Op<C>>): nat {
    if log == [] then 0
    else
      var before := log[..|log| - 1];
      Overwritten(before) + if log[|log| - 1].Put? && Content(before).Some? then 1 else 0
  }

  lemma ContentIsLastPut<C>(log: seq<Op<C>>)
    requires Content(log).Some?
    ensures Puts(log) != [] && Content(log).value == Puts(log)[|Puts(log)| - 1]
  {
  }

  // Nothing is lost and nothing is invented: every value put is taken,
  // overwritten, or still held.
  lemma {:induction false} Conservation<C>(log: seq<Op<C>>)
    requires Legal(log)
    ensures |Puts(log)| == |Taken(log)| + Overwritten(log) + if Content(log).Some? then 1 else 0
  {
    if log != [] {
      var n := |log| - 1;
      LegalPrefix(log, n);
      Conservation(log[..n]);
    }
  }

  // The values taken are a strictly ordered selection of the values put: none
  // twice, none out of order; what is still held came after all of them.
  ghost predicate Ordered(indices: seq<nat>) {
    forall i, j | 0 <= i < j < |indices| :: indices[i] < indices[j]
  }

  lemma {:induction false} TakenInOrder<C>(log: seq<Op<C>>)
    requires Legal(log)
    ensures var puts, at := Puts(log), Consumed(log);
            && Ordered(at)
            && |at| == |Taken(log)|
            && (forall k | 0 <= k < |at| :: at[k] < |puts| && puts[at[k]] == Taken(log)[k])
            && (Content(log).Some? ==> forall k | 0 <= k < |at| :: at[k] < |puts| - 1)
  {
    if log != [] {
      var before, op := log[..|log| - 1], log[|log| - 1];
      LegalPrefix(log, |log| - 1);
      TakenInOrder(before);
      if op.Take? && op.got.Some? {
        ContentIsLastPut(before);
        assert Puts(log) == Puts(before);
      }
    }
  }

  // A take is never stale: a non-empty one returns the value put last, with
  // nothing in between; an empty one follows a take, or nothing at all.
  lemma TakeIsLatest<C>(log: seq<Op<C>>, i: nat)
    requires Legal(log) && i < |log| && log[i].Take?
    ensures log[i].got.Some? <==> i > 0 && log[i - 1].Put?
    ensures log[i].got.Some? ==> log[i - 1] == Put(log[i].got.value)
  {
    assert log[i].got == Content(log[..i]);
  }

  lemma {:induction false} TakenByOne<C>(log: seq<Op<C>>, who: nat)
    requires forall i | 0 <= i < |log| :: log[i].Take? ==> log[i].who == who
    ensures TakenBy(log, who) == Taken(log)
  {
    if log != [] {
      assert forall i | 0 <= i < |log| - 1 :: log[..|log| - 1][i] == log[i];
      TakenByOne(log[..|log| - 1], who);
    }
  }
}
