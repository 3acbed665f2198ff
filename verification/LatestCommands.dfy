// The lock-free slot between the sandbox and the control loop: a single atomic
// pointer, boxes on a heap that reuses addresses, any number of threads, any
// interleaving of their atomic steps.
module LatestCommands {
  import opened Basics
  import opened Registers

  type Ptr = nat

  // Where a thread stands inside publish or take.
  datatype Thread<C> =
    | Idle
    | Publishing(p: Ptr, v: C)   // box allocated for v, not yet swapped in
    | Taking(p: Ptr, v: C)       // box swapped out when it held v, not yet read
    | Releasing(p: Ptr)          // box about to be freed

  // `log`, `results` and `v` are history: no step depends on them.
  datatype State<C> = State(
    heap: map<Ptr, C>,
    slot: Option<Ptr>,
    threads: seq<Thread<C>>,
    log: seq<Op<C>>,
    results: seq<(nat, C)>
  )

  datatype Event<C> =
    | Allocate(t: nat, p: Ptr, v: C)
    | SwapIn(t: nat)
    | SwapOut(t: nat)
    | Read(t: nat)
    | Free(t: nat)

  datatype Outcome<C> = Running(s: State<C>) | Fault

  function Start<C>(threads: nat): State<C> {
    State(map[], None, seq(threads, _ => Idle), [], [])
  }

  function Set<C>(s: State<C>, t: nat, th: Thread<C>): State<C>
    requires t < |s.threads|
  {
    s.(threads := s.threads[t := th])
  }

  // One atomic step. An event that does not fit the state of its thread, or
  // asks the allocator for a live address, cannot happen and changes nothing;
  // touching memory that is not allocated is a fault.
  function Next<C>(s: State<C>, e: Event<C>): Outcome<C> {
    if e.t >= |s.threads| then Running(s)
    else
      match (e, s.threads[e.t])
      case (Allocate(t, p, v), Idle) =>
        if p in s.heap then Running(s) else Running(Set(s, t, Publishing(p, v)).(heap := s.heap[p := v]))
      case (SwapIn(t), Publishing(p, _)) =>
        if p !in s.heap then Fault
        else Running(Set(s, t, if s.slot.Some? then Releasing(s.slot.value) else Idle)
                     .(slot := Some(p), log := s.log + [Put(s.heap[p])]))
      case (SwapOut(t), Idle) =>
        if s.slot.None? then Running(s.(log := s.log + [Take(t, None)]))
        else if s.slot.value !in s.heap then Fault
        else
          var v := s.heap[s.slot.value];
          Running(Set(s, t, Taking(s.slot.value, v)).(slot := None, log := s.log + [Take(t, Some(v))]))
      case (Read(t), Taking(p, _)) =>
        if p !in s.heap then Fault
        else Running(Set(s, t, Releasing(p)).(results := s.results + [(t, s.heap[p])]))
      case (Free(t), Releasing(p)) =>
        if p !in s.heap then Fault else Running(Set(s, t, Idle).(heap := s.heap - {p}))
      case _ => Running(s)
  }

  function Run<C>(s: State<C>, events: seq<Event<C>>): Outcome<C>
    decreases |events|
  {
    if events == [] then Running(s)
    else
      match Next(s, events[0])
      case Fault => Fault
      case Running(t) => Run(t, events[1..])
  }

  // ------------------------------------------------------------- Ownership

  function HeldBy<C>(th: Thread<C>): Option<Ptr> {
    if th.Idle? then None else Some(th.p)
  }

  // Parties that can own a box: the threads and, last, the slot.
  function Held<C>(s: State<C>, party: nat): Option<Ptr>
    requires party <= |s.threads|
  {
    if party < |s.threads| then HeldBy(s.threads[party]) else s.slot
  }

  predicate Owns<C>(s: State<C>, party: nat, p: Ptr) {
    party <= |s.threads| && Held(s, party) == Some(p)
  }

  // Live boxes are exactly the owned ones, and each has one owner.
  ghost predicate Exclusive<C>(s: State<C>) {
    && (forall a, p | Owns(s, a, p) :: p in s.heap)
    && (forall p | p in s.heap :: exists a :: Owns(s, a, p))
    && (forall a, b, p | Owns(s, a, p) && Owns(s, b, p) :: a == b)
  }

  function ResultsOf<C>(results: seq<(nat, C)>, t: nat): seq<C> {
    if results == [] then []
    else
      var r := results[|results| - 1];
      ResultsOf(results[..|results| - 1], t) + if r.0 == t then [r.1] else []
  }

  function Owed<C>(th: Thread<C>): seq<C> {
    if th.Taking? then [th.v] else []
  }

  // The box a thread is publishing or has taken still holds what it held.
  predicate BoxHolds<C(==)>(s: State<C>, th: Thread<C>) {
    th.Publishing? || th.Taking? ==> th.p in s.heap && s.heap[th.p] == th.v
  }

  // The slot behaves as the register its log describes, and every thread has
  // been, or is about to be, handed what its takes got.
  ghost predicate Faithful<C>(s: State<C>) {
    && Legal(s.log)
    && (s.slot.None? ==> Content(s.log) == None)
    && (s.slot.Some? ==> s.slot.value in s.heap && Content(s.log) == Some(s.heap[s.slot.value]))
    && (forall t | 0 <= t < |s.threads| :: BoxHolds(s, s.threads[t]))
    && (forall t | 0 <= t < |s.threads| ::
         ResultsOf(s.results, t) + Owed(s.threads[t]) == TakenBy(s.log, t))
  }

  // --------------------------------------------------- What every step keeps

  lemma OwnerHasBox<C>(s: State<C>, party: nat)
    requires Exclusive(s) && party <= |s.threads| && Held(s, party).Some?
    ensures Held(s, party).value in s.heap
  {
    assert Owns(s, party, Held(s, party).value);
  }

  lemma NoFault<C>(s: State<C>, e: Event<C>)
    requires Exclusive(s)
    ensures Next(s, e).Running? && |Next(s, e).s.threads| == |s.threads|
  {
    if e.t < |s.threads| {
      if s.threads[e.t] != Idle {
        OwnerHasBox(s, e.t);
      }
      if s.slot.Some? {
        OwnerHasBox(s, |s.threads|);
      }
    }
  }

  // Handing a pointer from one party to another, or swapping two, keeps every
  // box owned exactly once.
  ghost predicate Permuted<C>(s: State<C>, r: State<C>, a: nat, b: nat) {
    && |r.threads| == |s.threads| && r.heap.Keys == s.heap.Keys
    && a <= |s.threads| && b <= |s.threads|
    && Held(r, a) == Held(s, b) && Held(r, b) == Held(s, a)
    && forall c | 0 <= c <= |s.threads| && c != a && c != b :: Held(r, c) == Held(s, c)
  }

  function Counterpart(c: nat, a: nat, b: nat): nat {
    if c == a then b else if c == b then a else c
  }

  lemma SwapKeepsExclusive<C>(s: State<C>, r: State<C>, a: nat, b: nat)
    requires Exclusive(s) && Permuted(s, r, a, b)
    ensures Exclusive(r)
  {
    forall c, p | Owns(r, c, p)
      ensures Owns(s, Counterpart(c, a, b), p) && p in r.heap.Keys
    {
      assert Owns(s, Counterpart(c, a, b), p);
      assert p in s.heap.Keys;
    }
    forall p | p in r.heap
      ensures exists c :: Owns(r, c, p)
    {
      assert p in r.heap.Keys;
      var c :| Owns(s, c, p);
      assert Owns(r, Counterpart(c, a, b), p);
    }
  }

  lemma AllocateKeepsExclusive<C>(s: State<C>, t: nat, p: Ptr, v: C)
    requires Exclusive(s) && t < |s.threads| && s.threads[t].Idle? && p !in s.heap
    ensures Exclusive(Set(s, t, Publishing(p, v)).(heap := s.heap[p := v]))
  {
    var r := Set(s, t, Publishing(p, v)).(heap := s.heap[p := v]);
    forall a, q | Owns(r, a, q)
      ensures (a == t && q == p) || Owns(s, a, q)
    {
    }
    forall q | q in r.heap
      ensures exists a :: Owns(r, a, q)
    {
      if q == p {
        assert Owns(r, t, p);
      } else {
        var a :| Owns(s, a, q);
        assert Owns(r, a, q);
      }
    }
  }

  lemma FreeKeepsExclusive<C>(s: State<C>, t: nat, p: Ptr)
    requires Exclusive(s) && t < |s.threads| && HeldBy(s.threads[t]) == Some(p)
    ensures Exclusive(Set(s, t, Idle).(heap := s.heap - {p}))
  {
    var r := Set(s, t, Idle).(heap := s.heap - {p});
    assert Owns(s, t, p);
    forall a, q | Owns(r, a, q)
      ensures Owns(s, a, q) && q != p
    {
      assert Owns(s, a, q);
    }
    forall q | q in r.heap
      ensures exists a :: Owns(r, a, q)
    {
      var a :| Owns(s, a, q);
      assert Owns(r, a, q);
    }
  }

  lemma StepKeepsExclusive<C>(s: State<C>, e: Event<C>)
    requires Exclusive(s) && Next(s, e).Running?
    ensures Exclusive(Next(s, e).s)
  {
    hide Exclusive;
    var r := Next(s, e).s;
    if e.t < |s.threads| && r != s {
      match e
      case Allocate(t, p, v) => AllocateKeepsExclusive(s, t, p, v);
      case SwapIn(t) => SwapKeepsExclusive(s, r, t, |s.threads|);
      case SwapOut(t) => SwapKeepsExclusive(s, r, t, |s.threads|);
      case Read(t) => SwapKeepsExclusive(s, r, t, t);
      case Free(t) => FreeKeepsExclusive(s, t, s.threads[t].p);
    }
  }

  // A step neither moves nor rewrites the boxes other parties own.
  lemma OthersUndisturbed<C>(s: State<C>, e: Event<C>, party: nat)
    requires Exclusive(s) && party <= |s.threads| && party != e.t && Held(s, party).Some?
    ensures Next(s, e).Running? && Held(s, party).value in s.heap
    ensures Held(s, party).value in Next(s, e).s.heap
    ensures Next(s, e).s.heap[Held(s, party).value] == s.heap[Held(s, party).value]
  {
    NoFault(s, e);
    assert Owns(s, party, Held(s, party).value);
    if e.t < |s.threads| && s.threads[e.t] != Idle {
      assert Owns(s, e.t, s.threads[e.t].p);
    }
  }

  lemma TakenBySnoc<C>(log: seq<Op<C>>, op: Op<C>, t: nat)
    ensures TakenBy(log + [op], t) ==
            TakenBy(log, t) + if op.Take? && op.who == t && op.got.Some? then [op.got.value] else []
  {
    assert (log + [op])[..|log|] == log;
  }

  lemma ResultsOfSnoc<C>(results: seq<(nat, C)>, r: (nat, C), t: nat)
    ensures ResultsOf(results + [r], t) == ResultsOf(results, t) + if r.0 == t then [r.1] else []
  {
    assert (results + [r])[..|results|] == results;
  }

  // The slot and its log move together.
  lemma SlotStaysFaithful<C>(s: State<C>, e: Event<C>)
    requires Exclusive(s) && Faithful(s)
    ensures Next(s, e).Running?
    ensures var r := Next(s, e).s;
            && Legal(r.log)
            && (r.slot.None? ==> Content(r.log) == None)
            && (r.slot.Some? ==> r.slot.value in r.heap && Content(r.log) == Some(r.heap[r.slot.value]))
  {
    hide Exclusive, Legal, TakenBy, ResultsOf;
    NoFault(s, e);
    var r := Next(s, e).s;
    if s.slot.Some? && e.t < |s.threads| {
      OthersUndisturbed(s, e, |s.threads|);
    }
    if |r.log| > |s.log| {
      LegalSnoc(s.log, r.log[|s.log|]);
    }
  }

  // A thread gets what its take got, whatever happens in between.
  lemma ThreadStaysFaithful<C>(s: State<C>, e: Event<C>, t: nat)
    requires Exclusive(s) && Faithful(s) && t < |s.threads|
    ensures Next(s, e).Running? && |Next(s, e).s.threads| == |s.threads|
    ensures var r := Next(s, e).s;
            && BoxHolds(r, r.threads[t])
            && ResultsOf(r.results, t) + Owed(r.threads[t]) == TakenBy(r.log, t)
  {
    hide Exclusive, Legal, TakenBy, ResultsOf, Content;
    NoFault(s, e);
    var r := Next(s, e).s;
    if e.t != t && s.threads[t] != Idle {
      OthersUndisturbed(s, e, t);
    }
    if |r.log| > |s.log| {
      TakenBySnoc(s.log, r.log[|s.log|], t);
    }
    if |r.results| > |s.results| {
      ResultsOfSnoc(s.results, r.results[|s.results|], t);
    }
  }

  // ------------------------------------------------------------- Whole runs

  lemma StartIsSound<C>(threads: nat)
    ensures Exclusive(Start<C>(threads)) && Faithful(Start<C>(threads))
  {
  }

  // Under every interleaving of any number of producers and consumers: no
  // freed memory is read, nothing is freed twice, every live box has exactly
  // one owner, and the slot is the register of capacity one.
  lemma {:induction false} EveryRunIsSound<C>(s: State<C>, events: seq<Event<C>>)
    requires Exclusive(s) && Faithful(s)
    ensures Run(s, events).Running? && |Run(s, events).s.threads| == |s.threads|
    ensures Exclusive(Run(s, events).s) && Faithful(Run(s, events).s)
    decreases |events|
  {
    hide Exclusive, TakenBy, ResultsOf, Legal, Content, Next;
    if events != [] {
      var e := events[0];
      NoFault(s, e);
      StepKeepsExclusive(s, e);
      SlotStaysFaithful(s, e);
      forall t | 0 <= t < |s.threads| {
        ThreadStaysFaithful(s, e, t);
      }
      EveryRunIsSound(Next(s, e).s, events[1..]);
    }
  }

  // What publish puts is what its caller gave it.
  lemma PublishPutsItsOwn<C>(s: State<C>, t: nat)
    requires Faithful(s) && t < |s.threads| && s.threads[t].Publishing?
    ensures Next(s, SwapIn(t)).Running?
    ensures Next(s, SwapIn(t)).s.log == s.log + [Put(s.threads[t].v)]
  {
  }

  // A take empties the slot and gets what the register holds.
  lemma TakeTakes<C>(s: State<C>, t: nat)
    requires Exclusive(s) && Faithful(s) && t < |s.threads| && s.threads[t].Idle?
    ensures Next(s, SwapOut(t)).Running?
    ensures var r := Next(s, SwapOut(t)).s;
            && r.slot == None && r.heap == s.heap && r.results == s.results
            && r.log == s.log + [Take(t, Content(s.log))]
            && (Content(s.log).None? ==> r.threads == s.threads)
            && (Content(s.log).Some? ==> r.threads[t].Taking? && r.threads[t].v == Content(s.log).value)
  {
    NoFault(s, SwapOut(t));
  }

  lemma RunCons<C>(s: State<C>, e: Event<C>, rest: seq<Event<C>>)
    requires Next(s, e).Running?
    ensures Run(s, [e] + rest) == Run(Next(s, e).s, rest)
  {
    assert ([e] + rest)[1..] == rest;
  }

  lemma RunOne<C>(s: State<C>, e: Event<C>)
    ensures Run(s, [e]) == Next(s, e)
  {
    assert [e][1..] == [];
  }

  // A whole call of take hands its caller what the register held.
  lemma WholeTake<C>(s: State<C>, t: nat)
    requires Exclusive(s) && Faithful(s) && t < |s.threads| && s.threads[t].Idle? && Content(s.log).Some?
    ensures Run(s, [SwapOut(t)] + ([Read(t)] + [Free(t)])).Running?
    ensures var r := Run(s, [SwapOut(t)] + ([Read(t)] + [Free(t)])).s;
            && r.slot == None && r.threads == s.threads
            && r.log == s.log + [Take(t, Content(s.log))]
            && r.results == s.results + [(t, Content(s.log).value)]
            && |r.heap| == |s.heap| - 1
  {
    hide Run, Exclusive, Legal, ResultsOf, TakenBy;
    TakeTakes(s, t);
    var swapped := Next(s, SwapOut(t)).s;
    RunCons(s, SwapOut(t), [Read(t)] + [Free(t)]);
    NoFault(s, SwapOut(t));
    var read := Next(swapped, Read(t));
    assert read.Running?;
    RunCons(swapped, Read(t), [Free(t)]);
    RunOne(read.s, Free(t));
    assert s.threads[t := Idle] == s.threads;
  }

  // Freeing ends a publish that displaced a box; after one that did not there is
  // nothing to free.
  lemma FreeEnds<C>(s: State<C>, t: nat)
    requires t < |s.threads| && (s.threads[t].Idle? || (s.threads[t].Releasing? && s.threads[t].p in s.heap))
    ensures Next(s, Free(t)).Running?
    ensures var r := Next(s, Free(t)).s;
            r.slot == s.slot && r.log == s.log && r.results == s.results && r.threads == s.threads[t := Idle]
  {
    assert s.threads[t].Idle? ==> s.threads[t := Idle] == s.threads;
  }

  // A whole call of publish leaves the register holding what its caller gave.
  lemma WholePublish<C>(s: State<C>, t: nat, p: Ptr, v: C)
    requires Exclusive(s) && t < |s.threads| && s.threads[t].Idle? && p !in s.heap
    ensures Run(s, [Allocate(t, p, v)] + ([SwapIn(t)] + [Free(t)])).Running?
    ensures var r := Run(s, [Allocate(t, p, v)] + ([SwapIn(t)] + [Free(t)])).s;
            && r.slot == Some(p) && r.threads == s.threads && r.results == s.results
            && r.log == s.log + [Put(v)] && Content(r.log) == Some(v)
  {
    hide Run;
    var boxed := Next(s, Allocate(t, p, v)).s;
    RunCons(s, Allocate(t, p, v), [SwapIn(t)] + [Free(t)]);
    if s.slot.Some? {
      OwnerHasBox(s, |s.threads|);
    }
    hide Exclusive;
    var swapped := Next(boxed, SwapIn(t)).s;
    RunCons(boxed, SwapIn(t), [Free(t)]);
    RunOne(swapped, Free(t));
    FreeEnds(swapped, t);
    assert swapped.threads[t := Idle] == s.threads;
  }

  // Published equals consumed plus overwritten plus what is in the slot, and a
  // quiescent empty slot has leaked nothing.
  lemma {:induction false} RunConserves<C>(threads: nat, events: seq<Event<C>>)
    ensures Run(Start<C>(threads), events).Running?
    ensures var s := Run(Start<C>(threads), events).s;
            && |Puts(s.log)| == |Taken(s.log)| + Overwritten(s.log) + (if s.slot.Some? then 1 else 0)
            && (s.slot.None? && (forall t | 0 <= t < |s.threads| :: s.threads[t].Idle?) ==> s.heap == map[])
  {
    hide Run, Start, TakenBy, ResultsOf, Next;
    StartIsSound<C>(threads);
    EveryRunIsSound(Start<C>(threads), events);
    var s := Run(Start<C>(threads), events).s;
    Conservation(s.log);
    if s.slot.None? && forall t | 0 <= t < |s.threads| :: s.threads[t].Idle? {
      forall p: Ptr
        ensures p !in s.heap
      {
        assert forall a :: !Owns(s, a, p);
      }
    }
  }

  predicate OnlyConsumer<C>(events: seq<Event<C>>, c: nat) {
    forall i | 0 <= i < |events| && events[i].SwapOut? :: events[i].t == c
  }

  lemma {:induction false} TakesAreTheConsumers<C>(s: State<C>, events: seq<Event<C>>, c: nat)
    requires OnlyConsumer(events, c) && Run(s, events).Running?
    requires forall i | 0 <= i < |s.log| && s.log[i].Take? :: s.log[i].who == c
    ensures var log := Run(s, events).s.log;
            forall i | 0 <= i < |log| && log[i].Take? :: log[i].who == c
    decreases |events|
  {
    if events != [] {
      TakesAreTheConsumers(Next(s, events[0]).s, events[1..], c);
    }
  }

  // With one consumer: what it has been handed, and is about to be handed, is
  // a strictly ordered selection of everything published, in swap order.
  lemma {:induction false} OneConsumer<C>(threads: nat, events: seq<Event<C>>, c: nat)
    requires OnlyConsumer(events, c) && c < threads
    ensures Run(Start<C>(threads), events).Running?
    ensures |Run(Start<C>(threads), events).s.threads| == threads
    ensures var s := Run(Start<C>(threads), events).s;
            var got, puts, at := ResultsOf(s.results, c) + Owed(s.threads[c]), Puts(s.log), Consumed(s.log);
            && Ordered(at) && |at| == |got|
            && forall k | 0 <= k < |at| :: at[k] < |puts| && got[k] == puts[at[k]]
  {
    hide Run, TakenBy, ResultsOf, Next, Exclusive, Legal;
    StartIsSound<C>(threads);
    EveryRunIsSound(Start<C>(threads), events);
    var s := Run(Start<C>(threads), events).s;
    TakesAreTheConsumers(Start<C>(threads), events, c);
    TakenByOne(s.log, c);
    TakenInOrder(s.log);
  }

  // ------------------------------------------------- One thread at a time

  // The slot as its callers see it when no two calls overlap.
  class LatestCommand<C(==)> {
    var slot: Option<C>
    ghost var log: seq<Op<C>>

    ghost predicate Valid()
      reads this
    {
      Legal(log) && slot == Content(log)
    }

    constructor ()
      ensures Valid() && log == []
    {
      slot, log := None, [];
    }

    method Publish(cmd: C)
      requires Valid()
      modifies this
      ensures Valid() && log == old(log) + [Put(cmd)]
    {
      LegalSnoc(log, Put(cmd));
      slot, log := Some(cmd), log + [Put(cmd)];
    }

    method Take(ghost who: nat) returns (r: Option<C>)
      requires Valid()
      modifies this
      ensures Valid() && log == old(log) + [Op.Take(who, r)] && r == old(Content(log))
    {
      LegalSnoc(log, Op.Take(who, slot));
      r := slot;
      slot, log := None, log + [Op.Take(who, slot)];
    }

    method TakeOr(fallback: C, ghost who: nat) returns (r: C)
      requires Valid()
      modifies this
      ensures Valid() && log == old(log) + [Op.Take(who, old(Content(log)))]
      ensures r == if old(Content(log)).Some? then old(Content(log)).value else fallback
    {
      var taken := Take(who);
      r := if taken.Some? then taken.value else fallback;
    }
  }
}
