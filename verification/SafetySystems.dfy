// Watchdog and HAL together: two loops that share nothing but a command queue
// and an E-stop queue, under every interleaving of their atomic steps, with
// other publishers on both topics and with publications that may fail. The
// watchdog decides in one step and then publishes message by message; the HAL
// runs in between.
module SafetySystems {
  import opened Basics
  import opened CommandVectors
  import W = Watchdogs
  import L = EstopLatches

  // An E-stop publication of the watchdog; a failed one is only logged.
  datatype Attempt = Attempt(engage: bool, delivered: bool)

  // `todo` is what the current iteration of the watchdog has yet to publish,
  // `stampDue` whether it will then note the time of its zeros.
  datatype System = System(
    config: W.Config,
    jointCount: nat,
    ping: nat,
    dog: W.Dog,
    todo: seq<W.Message>,
    stampDue: bool,
    hal: L.Hal,
    cmds: seq<seq<Byte>>,
    estops: seq<seq<Byte>>,
    attempts: seq<Attempt>
  )

  datatype Event =
    | Beat(now: nat)
    | Check(stop: bool, start: nat)
    | Publish(ok: bool)
    | Stamp(end: nat)
    | TakeCommand
    | TakeEstop(statusOk: bool)
    | Link(e: L.Event)
    | OtherCommand(payload: seq<Byte>)
    | OtherEstop(payload: seq<Byte>)

  function Boot(config: W.Config, jointCount: nat, t: L.Transport, now: nat): System {
    System(config, jointCount, now, W.Boot(now), [], false, L.Boot(t), [], [], [])
  }

  function ZeroPayload(jointCount: nat): seq<Byte> {
    EncodeWords(Zeros(jointCount).Active())
  }

  function EstopPayload(engage: bool): (p: seq<Byte>)
    ensures L.Active(p) == engage
  {
    [if engage then 1 else 0]
  }

  // The E-stop messages among some messages.
  function Stops(out: seq<W.Message>): seq<bool> {
    if out == [] then []
    else (if out[0].EStop? then [out[0].engage] else []) + Stops(out[1..])
  }

  // The next message goes out, or fails to.
  function PublishHead(s: System, ok: bool): System
    requires s.todo != []
  {
    var r := s.(todo := s.todo[1..]);
    match s.todo[0]
    case Zeros => if ok then r.(cmds := s.cmds + [ZeroPayload(s.jointCount)]) else r
    case EStop(engage) =>
      r.(estops := s.estops + if ok then [EstopPayload(engage)] else [],
         attempts := s.attempts + [Attempt(engage, ok)])
    case Status(_, _) => r
  }

  function Next(s: System, e: Event): System {
    match e
    case Beat(now) => s.(ping := now)
    case Check(stop, start) =>
      if s.todo != [] || s.stampDue then s
      else
        var (dog, out) := W.Decide(s.config, s.dog, stop, s.ping, start);
        s.(dog := dog, todo := out, stampDue := W.Zeros in out)
    case Publish(ok) => if s.todo == [] then s else PublishHead(s, ok)
    case Stamp(end) =>
      if s.todo != [] || !s.stampDue then s
      else s.(dog := s.dog.(lastForce := end), stampDue := false)
    case TakeCommand =>
      if s.cmds == [] || s.hal.phase != L.Serving then s
      else s.(hal := L.Next(s.hal, L.Command(s.cmds[0])), cmds := s.cmds[1..])
    case TakeEstop(ok) =>
      if s.estops == [] || s.hal.phase != L.Serving then s
      else s.(hal := L.Next(s.hal, L.Estop(s.estops[0], ok)), estops := s.estops[1..])
    case Link(e) => // connection and telemetry only
      if e.Command? || e.Estop? then s else s.(hal := L.Next(s.hal, e))
    case OtherCommand(payload) => s.(cmds := s.cmds + [payload])
    case OtherEstop(payload) => s.(estops := s.estops + [payload])
  }

  function Run(s: System, events: seq<Event>): System
    decreases |events|
  {
    if events == [] then s else Run(Next(s, events[0]), events[1..])
  }

  // ------------------------------------------------- The watchdog's side

  // E-stop messages decided on but not yet published.
  function Open(s: System): seq<bool> {
    Stops(s.todo)
  }

  // Engage and release alternate, beginning with engage; flag and counter are
  // those of the attempts, published or still open.
  predicate Alternating(s: System) {
    && (forall k | 0 <= k < |s.attempts| :: s.attempts[k].engage == (k % 2 == 0))
    && (Open(s) == [] || Open(s) == [|s.attempts| % 2 == 0])
    && s.dog.tripped == ((|s.attempts| + |Open(s)|) % 2 == 1)
    && s.dog.trips == (|s.attempts| + |Open(s)| + 1) / 2
  }

  lemma StopsOfDecision(c: W.Config, d: W.Dog, stop: bool, ping: nat, start: nat)
    ensures var (r, out) := W.Decide(c, d, stop, ping, start);
            Stops(out) == if r.tripped != d.tripped then [r.tripped] else []
    ensures var (r, out) := W.Decide(c, d, stop, ping, start);
            r.trips == if r.tripped && !d.tripped then d.trips + 1 else d.trips
  {
    var (r, out) := W.Decide(c, d, stop, ping, start);
    if |out| == 3 {
      assert Stops(out[2..]) == [] by { assert out[2..][1..] == []; }
      assert out[1..][1..] == out[2..];
    }
  }

  predicate NoCheck(events: seq<Event>) {
    forall i | 0 <= i < |events| :: !events[i].Check?
  }

  // The watchdog between a decision and the end of its iteration.
  ghost predicate Underway(s: System, decided: W.Dog, stamps: bool) {
    || (s.dog == decided && s.stampDue == stamps)
    || (stamps && !s.stampDue && exists end :: s.dog == decided.(lastForce := end))
  }

  lemma {:induction false} StaysUnderway(s: System, decided: W.Dog, stamps: bool, events: seq<Event>)
    requires Underway(s, decided, stamps) && NoCheck(events)
    ensures Underway(Run(s, events), decided, stamps)
    decreases |events|
  {
    hide L.Next, PublishHead;
    if events != [] {
      var e := events[0];
      assert !e.Check?;
      if e.Publish? && s.todo != [] {
        PublishKeepsDog(s, e.ok);
      }
      StaysUnderway(Next(s, e), decided, stamps, events[1..]);
    }
  }

  lemma PublishKeepsDog(s: System, ok: bool)
    requires s.todo != []
    ensures PublishHead(s, ok).dog == s.dog && PublishHead(s, ok).stampDue == s.stampDue
  {
  }

  // Whatever happens between its steps, an iteration leaves the watchdog as the
  // whole iteration would that noted the time at some instant.
  lemma {:induction false} StepsMakeAnIteration(s: System, stop: bool, start: nat, events: seq<Event>)
    requires s.todo == [] && !s.stampDue && NoCheck(events)
    requires !Run(Next(s, Check(stop, start)), events).stampDue
    ensures exists end :: Run(Next(s, Check(stop, start)), events).dog
                          == W.Iterate(s.config, s.dog, W.Turn(stop, s.ping, start, end)).0
  {
    hide W.Decide, Run, L.Next;
    var (decided, out) := W.Decide(s.config, s.dog, stop, s.ping, start);
    var stamps := W.Zeros in out;
    StaysUnderway(Next(s, Check(stop, start)), decided, stamps, events);
    var r := Run(Next(s, Check(stop, start)), events);
    if stamps {
      var end: nat :| r.dog == decided.(lastForce := end);
      assert r.dog == W.Iterate(s.config, s.dog, W.Turn(stop, s.ping, start, end)).0;
    } else {
      assert r.dog == W.Iterate(s.config, s.dog, W.Turn(stop, s.ping, start, start)).0;
    }
  }

  lemma StepAlternates(s: System, e: Event)
    requires Alternating(s)
    ensures Alternating(Next(s, e))
  {
    hide W.Decide, L.Next, Stops;
    if e.Check? {
      StopsOfDecision(s.config, s.dog, e.stop, s.ping, e.start);
      StopsOfNone();
    } else if e.Publish? && s.todo != [] {
      PublishAlternates(s, e.ok);
    }
  }

  lemma PublishAlternates(s: System, ok: bool)
    requires Alternating(s) && s.todo != []
    ensures Alternating(PublishHead(s, ok))
  {
    hide Stops;
    var tail := Stops(s.todo[1..]);
    StopsOfHead(s.todo);
    if s.todo[0].EStop? {
      assert |Open(s)| == 1 + |tail|;
      assert tail == [] && Open(s)[0] == s.todo[0].engage;
    } else {
      assert Open(s) == tail;
    }
  }

  lemma StopsOfHead(todo: seq<W.Message>)
    requires todo != []
    ensures Stops(todo) == (if todo[0].EStop? then [todo[0].engage] else []) + Stops(todo[1..])
  {
  }

  lemma StopsOfNone()
    ensures Stops([]) == []
  {
  }

  // ------------------------------------------------- The queue in between

  function Flags(queue: seq<seq<Byte>>): seq<bool> {
    if queue == [] then [] else Flags(queue[..|queue| - 1]) + [L.Active(queue[|queue| - 1])]
  }

  function Delivered(attempts: seq<Attempt>): seq<bool> {
    if attempts == [] then []
    else
      var a := attempts[|attempts| - 1];
      Delivered(attempts[..|attempts| - 1]) + if a.delivered then [a.engage] else []
  }

  // The E-stop messages the HAL has heard, over all connections.
  function HeardBy(done: seq<L.Action>): seq<bool> {
    if done == [] then []
    else
      var a := done[|done| - 1];
      HeardBy(done[..|done| - 1]) + if a.Heard? then [a.active] else []
  }

  // First in, first out: what the HAL has heard, then what is queued, is what
  // the watchdog got through.
  predicate Fifo(s: System) {
    HeardBy(s.hal.done) + Flags(s.estops) == Delivered(s.attempts)
  }

  lemma FlagsSnoc(queue: seq<seq<Byte>>, p: seq<Byte>)
    ensures Flags(queue + [p]) == Flags(queue) + [L.Active(p)]
  {
    assert (queue + [p])[..|queue|] == queue;
  }

  lemma {:induction false} FlagsHead(queue: seq<seq<Byte>>)
    requires queue != []
    ensures Flags(queue) == [L.Active(queue[0])] + Flags(queue[1..])
  {
    hide L.Active;
    var n := |queue| - 1;
    if n > 0 {
      FlagsHead(queue[..n]);
      assert queue[..n][1..] == queue[1..][..n - 1];
    }
  }

  lemma HeardSnoc(done: seq<L.Action>, a: L.Action)
    ensures HeardBy(done + [a]) == HeardBy(done) + if a.Heard? then [a.active] else []
  {
    assert (done + [a])[..|done|] == done;
  }

  lemma DeliveredSnoc(attempts: seq<Attempt>, a: Attempt)
    ensures Delivered(attempts + [a]) == Delivered(attempts) + if a.delivered then [a.engage] else []
  {
    assert (attempts + [a])[..|attempts|] == attempts;
  }

  lemma DeliveredNone()
    ensures Delivered([]) == []
  {
  }

  // What the HAL hears in one event.
  lemma HearsOne(h: L.Hal, e: L.Event)
    ensures HeardBy(L.Next(h, e).done) ==
            HeardBy(h.done) + if e.Estop? && h.phase == L.Serving then [L.Active(e.payload)] else []
  {
    hide HeardBy, L.Active;
    var r := L.Next(h, e);
    if e.Estop? && h.phase == L.Serving {
      var active := L.Active(e.payload);
      HeardSnoc(h.done, L.Heard(active));
      if active != h.latch {
        var d := h.done + [L.Heard(active)];
        HeardSnoc(d, L.SentEstop);
        var m := d + if active then [L.SentEstop] else [];
        assert !active ==> m == d;
        HeardSnoc(m, L.Status(L.Changed, h.frames, active));
        assert r.done == m + [L.Status(L.Changed, h.frames, active)];
      }
    } else if r.done != h.done {
      HeardSnoc(h.done, r.done[|h.done|]);
      assert r.done == h.done + [r.done[|h.done|]];
    }
  }

  lemma PublishIsFifo(s: System, ok: bool)
    requires Fifo(s) && s.todo != []
    ensures Fifo(Next(s, Publish(ok)))
  {
    hide L.Next, HeardBy, Flags, Delivered, L.Active;
    if s.todo[0].EStop? {
      var engage := s.todo[0].engage;
      DeliveredSnoc(s.attempts, Attempt(engage, ok));
      if ok {
        FlagsSnoc(s.estops, EstopPayload(engage));
      } else {
        assert s.estops + [] == s.estops;
      }
    }
  }

  lemma StepIsFifo(s: System, e: Event)
    requires Fifo(s) && !e.OtherEstop?
    ensures Fifo(Next(s, e))
  {
    hide W.Decide, L.Next, HeardBy, Flags, Delivered, Stops, L.Active;
    match e
    case Publish(ok) =>
      if s.todo != [] {
        PublishIsFifo(s, ok);
      }
    case TakeCommand =>
      if s.cmds != [] && s.hal.phase == L.Serving {
        HearsOne(s.hal, L.Command(s.cmds[0]));
      }
    case TakeEstop(ok) =>
      if s.estops != [] && s.hal.phase == L.Serving {
        HearsOne(s.hal, L.Estop(s.estops[0], ok));
        FlagsHead(s.estops);
      }
    case Link(e) =>
      if !e.Command? && !e.Estop? {
        HearsOne(s.hal, e);
      }
    case _ =>
  }

  // ------------------------------------------------------------- Whole runs

  predicate NoOtherEstops(events: seq<Event>) {
    forall i | 0 <= i < |events| :: !events[i].OtherEstop?
  }

  // Whoever else publishes, in every interleaving: the watchdog's E-stop
  // messages alternate, the trip counter counts the engaging ones, and the HAL
  // keeps its own guarantees.
  lemma {:induction false} EveryRunAlternates(s: System, events: seq<Event>)
    requires Alternating(s) && L.Sound(s.hal)
    ensures Alternating(Run(s, events)) && L.Sound(Run(s, events).hal)
    decreases |events|
  {
    hide Alternating, L.Sound, L.Next, W.Decide, Next;
    if events != [] {
      StepAlternates(s, events[0]);
      StepKeepsHal(s, events[0]);
      EveryRunAlternates(Next(s, events[0]), events[1..]);
    }
  }

  lemma StepKeepsHal(s: System, e: Event)
    requires L.Sound(s.hal)
    ensures L.Sound(Next(s, e).hal)
  {
    hide L.Sound, L.Next, W.Decide;
    match e
    case TakeCommand =>
      if s.cmds != [] {
        L.StepIsSound(s.hal, L.Command(s.cmds[0]));
      }
    case TakeEstop(ok) =>
      if s.estops != [] {
        L.StepIsSound(s.hal, L.Estop(s.estops[0], ok));
      }
    case Link(e) => L.StepIsSound(s.hal, e);
    case _ =>
  }

  lemma {:induction false} EveryRunIsFifo(s: System, events: seq<Event>)
    requires Fifo(s) && NoOtherEstops(events)
    ensures Fifo(Run(s, events))
    decreases |events|
  {
    hide Fifo, Next;
    if events != [] {
      StepIsFifo(s, events[0]);
      EveryRunIsFifo(Next(s, events[0]), events[1..]);
    }
  }

  // ------------------------------------------------- What the watchdog sends

  // A command that drives every joint to zero.
  predicate AllZero(payload: seq<Byte>, jointCount: nat) {
    |payload| == 4 * Min(jointCount, MAX_JOINTS) && forall b <- payload :: b == 0
  }

  lemma {:induction false} ZeroBytes(ws: seq<Word>)
    requires forall i | 0 <= i < |ws| :: ws[i] == ZERO
    ensures forall b <- EncodeWords(ws) :: b == 0
  {
    if ws != [] {
      ZeroBytes(ws[..|ws| - 1]);
    }
  }

  lemma ZeroPayloadIsZero(jointCount: nat)
    ensures AllZero(ZeroPayload(jointCount), jointCount)
  {
    hide EncodeWords;
    ZeroBytes(Zeros(jointCount).Active());
  }

  // A delivered zeros message is such a command, behind all others.
  lemma ZerosDelivered(s: System, ok: bool)
    requires s.todo != [] && s.todo[0].Zeros?
    ensures var r := Next(s, Publish(ok));
            && (ok ==> |r.cmds| == |s.cmds| + 1 && r.cmds[..|s.cmds|] == s.cmds)
            && (ok ==> AllZero(r.cmds[|s.cmds|], s.jointCount))
            && (!ok ==> r.cmds == s.cmds)
  {
    hide ZeroPayload, AllZero;
    ZeroPayloadIsZero(s.jointCount);
  }

  predicate OneOf(payload: seq<Byte>, jointCount: nat, others: set<seq<Byte>>) {
    AllZero(payload, jointCount) || payload in others
  }

  predicate QueueAccounted(cmds: seq<seq<Byte>>, jointCount: nat, others: set<seq<Byte>>) {
    forall p <- cmds :: OneOf(p, jointCount, others)
  }

  predicate SentAccounted(done: seq<L.Action>, jointCount: nat, others: set<seq<Byte>>) {
    forall a <- done :: a.SentCommand? ==> OneOf(a.payload, jointCount, others)
  }

  // Commands queued and commands written are zeros, or come from others.
  predicate Accounted(s: System, others: set<seq<Byte>>) {
    QueueAccounted(s.cmds, s.jointCount, others) && SentAccounted(s.hal.done, s.jointCount, others)
  }

  lemma MoreOthers(s: System, others: set<seq<Byte>>, more: set<seq<Byte>>)
    requires Accounted(s, others)
    ensures Accounted(s, others + more)
  {
    hide AllZero;
  }

  lemma QueueGrows(cmds: seq<seq<Byte>>, p: seq<Byte>, jointCount: nat, others: set<seq<Byte>>)
    requires QueueAccounted(cmds, jointCount, others) && OneOf(p, jointCount, others)
    ensures QueueAccounted(cmds + [p], jointCount, others)
  {
    hide OneOf;
  }

  lemma QueueShrinks(cmds: seq<seq<Byte>>, jointCount: nat, others: set<seq<Byte>>)
    requires QueueAccounted(cmds, jointCount, others) && cmds != []
    ensures QueueAccounted(cmds[1..], jointCount, others) && OneOf(cmds[0], jointCount, others)
  {
    hide OneOf;
    assert cmds[0] in cmds;
    assert forall p <- cmds[1..] :: p in cmds;
  }

  // One event of the HAL writes no command but the one it took.
  lemma SentGrows(h: L.Hal, e: L.Event, jointCount: nat, others: set<seq<Byte>>)
    requires SentAccounted(h.done, jointCount, others)
    requires e.Command? ==> OneOf(e.payload, jointCount, others)
    ensures SentAccounted(L.Next(h, e).done, jointCount, others)
  {
    hide OneOf;
    forall a | a in L.Next(h, e).done && a.SentCommand?
      ensures OneOf(a.payload, jointCount, others)
    {
      SentInStep(h, e, a);
    }
  }

  function OthersIn(events: seq<Event>): set<seq<Byte>> {
    if events == [] then {}
    else (if events[0].OtherCommand? then {events[0].payload} else {}) + OthersIn(events[1..])
  }

  lemma SentInStep(h: L.Hal, e: L.Event, a: L.Action)
    requires a in L.Next(h, e).done && a.SentCommand?
    ensures a in h.done || e == L.Command(a.payload)
  {
  }

  lemma StepAccounts(s: System, e: Event, others: set<seq<Byte>>)
    requires Accounted(s, others)
    ensures Next(s, e).jointCount == s.jointCount
    ensures Accounted(Next(s, e), others + if e.OtherCommand? then {e.payload} else {})
  {
    hide W.Decide, L.Next, ZeroPayload, OneOf, QueueAccounted, SentAccounted;
    var j := s.jointCount;
    match e
    case Publish(ok) =>
      if s.todo != [] && s.todo[0].Zeros? {
        ZerosAreOneOf(j, others);
        QueueGrows(s.cmds, ZeroPayload(j), j, others);
      }
      assert others + {} == others;
    case TakeCommand =>
      if s.cmds != [] {
        QueueShrinks(s.cmds, j, others);
        SentGrows(s.hal, L.Command(s.cmds[0]), j, others);
      }
      assert others + {} == others;
    case TakeEstop(ok) =>
      if s.estops != [] {
        SentGrows(s.hal, L.Estop(s.estops[0], ok), j, others);
      }
      assert others + {} == others;
    case Link(link) =>
      if !link.Command? {
        SentGrows(s.hal, link, j, others);
      }
      assert others + {} == others;
    case OtherCommand(payload) =>
      MoreOthers(s, others, {payload});
      assert OneOf(payload, j, others + {payload}) by { OthersAreOneOf(payload, j, others); }
      QueueGrows(s.cmds, payload, j, others + {payload});
    case _ =>
      assert others + {} == others;
  }

  lemma ZerosAreOneOf(jointCount: nat, others: set<seq<Byte>>)
    ensures OneOf(ZeroPayload(jointCount), jointCount, others)
  {
    hide ZeroPayload, AllZero;
    ZeroPayloadIsZero(jointCount);
  }

  lemma OthersAreOneOf(payload: seq<Byte>, jointCount: nat, others: set<seq<Byte>>)
    ensures OneOf(payload, jointCount, others + {payload})
  {
  }

  // Every command ever queued or written, in every interleaving and with every
  // publication failing or not, is a vector of zeros for the configured joints
  // or the payload of another publisher.
  lemma {:induction false} EveryRunAccounts(s: System, events: seq<Event>, others: set<seq<Byte>>)
    requires Accounted(s, others)
    ensures Run(s, events).jointCount == s.jointCount
    ensures Accounted(Run(s, events), others + OthersIn(events))
    decreases |events|
  {
    hide Next, Accounted;
    if events == [] {
      assert others + {} == others;
    } else {
      var first := if events[0].OtherCommand? then {events[0].payload} else {};
      StepAccounts(s, events[0], others);
      EveryRunAccounts(Next(s, events[0]), events[1..], others + first);
      assert others + first + OthersIn(events[1..]) == others + OthersIn(events);
    }
  }

  // With no other publisher of commands nothing but zeros reaches the motors.
  lemma {:induction false} OnlyZeros(config: W.Config, jointCount: nat, t: L.Transport, now: nat, events: seq<Event>)
    requires forall i | 0 <= i < |events| :: !events[i].OtherCommand?
    ensures var s := Run(Boot(config, jointCount, t, now), events);
            && (forall p <- s.cmds :: AllZero(p, jointCount))
            && forall a <- s.hal.done :: a.SentCommand? ==> AllZero(a.payload, jointCount)
  {
    hide Run, AllZero;
    EveryRunAccounts(Boot(config, jointCount, t, now), events, {});
    NoOthers(events);
  }

  lemma {:induction false} NoOthers(events: seq<Event>)
    requires forall i | 0 <= i < |events| :: !events[i].OtherCommand?
    ensures OthersIn(events) == {}
    decreases |events|
  {
    if events != [] {
      NoOthers(events[1..]);
    }
  }

  // ------------------------------------------------------ Latch and flag

  // E-stop publications the HAL has not heard since the last one it has: those
  // still queued, and those that failed.
  function Unheard(attempts: seq<Attempt>, queued: nat): nat {
    if attempts == [] then 0
    else
      var n := |attempts| - 1;
      if !attempts[n].delivered then 1 + Unheard(attempts[..n], queued)
      else if queued > 0 then 1 + Unheard(attempts[..n], queued - 1)
      else 0
  }

  function LastOf(flags: seq<bool>): bool {
    flags != [] && flags[|flags| - 1]
  }

  lemma {:induction false} LatchIsLastHeard(done: seq<L.Action>)
    ensures L.LatchOf(done) == LastOf(HeardBy(done))
  {
    if done != [] {
      LatchIsLastHeard(done[..|done| - 1]);
    }
  }

  lemma {:induction false} LastHeard(attempts: seq<Attempt>, heard: seq<bool>, queued: seq<bool>)
    requires forall k | 0 <= k < |attempts| :: attempts[k].engage == (k % 2 == 0)
    requires heard + queued == Delivered(attempts)
    ensures Unheard(attempts, |queued|) <= |attempts|
    ensures LastOf(heard) == ((|attempts| - Unheard(attempts, |queued|)) % 2 == 1)
    decreases |attempts|
  {
    hide Delivered;
    if attempts == [] {
      DeliveredNone();
      assert |heard + queued| == 0;
    } else {
      hide LastOf;
      var n := |attempts| - 1;
      DeliveredSnoc(attempts[..n], attempts[n]);
      assert attempts == attempts[..n] + [attempts[n]];
      assert forall k | 0 <= k < n :: attempts[..n][k] == attempts[k];
      if !attempts[n].delivered {
        LastHeard(attempts[..n], heard, queued);
      } else if queued != [] {
        SplitLast(heard, queued, Delivered(attempts[..n]), attempts[n].engage);
        LastHeard(attempts[..n], heard, queued[..|queued| - 1]);
      } else {
        assert heard + queued == heard;
        LastOfSnoc(Delivered(attempts[..n]), attempts[n].engage);
      }
    }
  }

  lemma LastOfSnoc(flags: seq<bool>, flag: bool)
    ensures LastOf(flags + [flag]) == flag
  {
  }

  lemma SplitLast(xs: seq<bool>, ys: seq<bool>, zs: seq<bool>, z: bool)
    requires xs + ys == zs + [z] && ys != []
    ensures xs + ys[..|ys| - 1] == zs
  {
    var n := |ys| - 1;
    assert ys == ys[..n] + [ys[n]];
    assert (xs + ys)[..|zs|] == xs + ys[..n];
    assert (zs + [z])[..|zs|] == zs;
  }

  lemma {:induction false} FlagsCount(queue: seq<seq<Byte>>)
    ensures |Flags(queue)| == |queue|
  {
    if queue != [] {
      FlagsCount(queue[..|queue| - 1]);
    }
  }

  // With no other publisher on the E-stop topic, the latch says what the
  // watchdog says exactly if the E-stop messages that have not reached the HAL,
  // be they open, lost or queued since the last that has, are even in number:
  // in particular between iterations, once the last was delivered and heard.
  lemma {:induction false} LatchIsTripped(config: W.Config, jointCount: nat, t: L.Transport, now: nat,
                                          events: seq<Event>)
    requires NoOtherEstops(events)
    ensures var s := Run(Boot(config, jointCount, t, now), events);
            s.hal.latch == s.dog.tripped <==> (|Open(s)| + Unheard(s.attempts, |s.estops|)) % 2 == 0
  {
    hide Run, Boot, L.Sound, Alternating, Fifo, Unheard, Open;
    BootIsSound(config, jointCount, t, now);
    EveryRunIsFifo(Boot(config, jointCount, t, now), events);
    EveryRunAlternates(Boot(config, jointCount, t, now), events);
    LatchByParity(Run(Boot(config, jointCount, t, now), events));
  }

  lemma SoundLatch(h: L.Hal)
    requires L.Sound(h)
    ensures h.latch == LastOf(HeardBy(h.done))
  {
    hide HeardBy, L.LatchOf, L.Orderly, L.Complete, LastOf;
    LatchIsLastHeard(h.done);
  }

  // Whether an E-stop message engages depends on its parity.
  lemma SameParity(n: nat, open: nat, lost: nat)
    requires lost <= n
    ensures ((n - lost) % 2 == 1) == ((n + open) % 2 == 1) <==> (open + lost) % 2 == 0
  {
    assert n + open == (n - lost) + (open + lost);
  }

  lemma HeardByParity(s: System)
    requires Alternating(s) && Fifo(s)
    ensures Unheard(s.attempts, |s.estops|) <= |s.attempts|
    ensures LastOf(HeardBy(s.hal.done)) == ((|s.attempts| - Unheard(s.attempts, |s.estops|)) % 2 == 1)
  {
    hide Delivered, HeardBy, Unheard, Open, Flags, LastOf;
    FlagsCount(s.estops);
    LastHeard(s.attempts, HeardBy(s.hal.done), Flags(s.estops));
  }

  lemma TrippedByParity(s: System)
    requires Alternating(s)
    ensures s.dog.tripped == ((|s.attempts| + |Open(s)|) % 2 == 1)
  {
  }

  lemma LatchByParity(s: System)
    requires Alternating(s) && Fifo(s) && L.Sound(s.hal)
    ensures s.hal.latch == s.dog.tripped <==> (|Open(s)| + Unheard(s.attempts, |s.estops|)) % 2 == 0
  {
    hide Alternating, Fifo, HeardBy, L.Sound, Unheard, Open, LastOf;
    SoundLatch(s.hal);
    HeardByParity(s);
    TrippedByParity(s);
    SameParity(|s.attempts|, |Open(s)|, Unheard(s.attempts, |s.estops|));
  }

  lemma BootIsSound(config: W.Config, jointCount: nat, t: L.Transport, now: nat)
    ensures var s := Boot(config, jointCount, t, now);
            Alternating(s) && Fifo(s) && L.Sound(s.hal)
  {
  }

  // The state after a command has been taken and discarded unread.
  function Discarded(s: System): System
    requires s.cmds != []
  {
    s.(cmds := s.cmds[1..], hal := s.hal.(done := s.hal.done + [L.Skipped]))
  }

  lemma DiscardsExactly(s: System)
    requires s.cmds != [] && s.hal.phase == L.Serving
    ensures Next(s, TakeCommand) == Discarded(s) <==> s.hal.latch
  {
    var r := Next(s, TakeCommand).hal;
    var skipped := s.hal.done + [L.Skipped];
    assert skipped[|skipped| - 1] == L.Skipped;
    assert !s.hal.latch ==> r.done == s.hal.done || r.done[|r.done| - 1] != L.Skipped;
  }

  // Then, while the watchdog is tripped, a command of any publisher is taken
  // from the queue and discarded under exactly that condition.
  lemma {:induction false} NoCommandWhileTripped(config: W.Config, jointCount: nat, t: L.Transport, now: nat,
                                                 events: seq<Event>)
    requires NoOtherEstops(events)
    requires var s := Run(Boot(config, jointCount, t, now), events);
             s.dog.tripped && s.cmds != [] && s.hal.phase == L.Serving
    ensures var s := Run(Boot(config, jointCount, t, now), events);
            Next(s, TakeCommand) == Discarded(s) <==> (|Open(s)| + Unheard(s.attempts, |s.estops|)) % 2 == 0
  {
    hide Run, Unheard, Next, Open;
    LatchIsTripped(config, jointCount, t, now, events);
    DiscardsExactly(Run(Boot(config, jointCount, t, now), events));
  }

  // Between two iterations, with the last E-stop message delivered and heard,
  // latch and flag agree.
  lemma {:induction false} SettledLatch(config: W.Config, jointCount: nat, t: L.Transport, now: nat,
                                        events: seq<Event>)
    requires NoOtherEstops(events)
    requires var s := Run(Boot(config, jointCount, t, now), events);
             && s.todo == [] && s.estops == []
             && (s.attempts == [] || s.attempts[|s.attempts| - 1].delivered)
    ensures var s := Run(Boot(config, jointCount, t, now), events);
            s.hal.latch == s.dog.tripped
  {
    hide Run;
    LatchIsTripped(config, jointCount, t, now, events);
  }

  // ------------------------------------------------------- The open windows

  lemma RunCons(s: System, e: Event, rest: seq<Event>)
    ensures Run(s, [e] + rest) == Run(Next(s, e), rest)
  {
    assert ([e] + rest)[1..] == rest;
  }

  // A trip as far as its zeros: decided, counted, the E-stop still to come.
  function HalfATrip(payload: seq<Byte>, start: nat): seq<Event> {
    [Link(L.Opens(true))] + ([OtherCommand(payload)] + ([Check(false, start)] + ([Publish(true)] + [])))
  }

  function Tripping(config: W.Config, jointCount: nat, t: L.Transport, now: nat, payload: seq<Byte>): (s: System)
  {
    Boot(config, jointCount, t, now)
    .(dog := W.Dog(true, 1, now, false),
      todo := [W.EStop(true), W.Status(true, 1)],
      stampDue := true,
      hal := L.Next(L.Boot(t), L.Opens(true)),
      cmds := [payload, ZeroPayload(jointCount)])
  }

  lemma HalfATripRuns(config: W.Config, jointCount: nat, t: L.Transport, now: nat, payload: seq<Byte>, start: nat)
    requires start > now + config.timeout
    ensures Run(Boot(config, jointCount, t, now), HalfATrip(payload, start)) ==
            Tripping(config, jointCount, t, now, payload)
  {
    hide L.Next, Run;
    var s := Boot(config, jointCount, t, now);
    var linked := Next(s, Link(L.Opens(true)));
    var queued := Next(linked, OtherCommand(payload));
    var decided := Next(queued, Check(false, start));
    RunCons(s, Link(L.Opens(true)), [OtherCommand(payload)] + ([Check(false, start)] + ([Publish(true)] + [])));
    RunCons(linked, OtherCommand(payload), [Check(false, start)] + ([Publish(true)] + []));
    RunCons(queued, Check(false, start), [Publish(true)] + []);
    RunCons(decided, Publish(true), []);
    RunOfNone(Next(decided, Publish(true)));
    assert queued.cmds == [payload];
    assert decided.todo == [W.Zeros, W.EStop(true), W.Status(true, 1)];
    assert decided.todo[1..] == [W.EStop(true), W.Status(true, 1)];
  }

  lemma RunOfNone(s: System)
    ensures Run(s, []) == s
  {
  }

  // In that window nothing is lost and nothing is queued, yet the watchdog is
  // tripped, the latch is clear, and any command goes to the motors.
  lemma TripWindow(config: W.Config, jointCount: nat, t: L.Transport, now: nat, payload: seq<Byte>, start: nat)
    requires start > now + config.timeout && payload != []
    ensures var s := Run(Boot(config, jointCount, t, now), HalfATrip(payload, start));
            && s.dog.tripped && !s.hal.latch && s.estops == []
            && |Open(s)| == 1 && Unheard(s.attempts, 0) == 0
            && Next(s, TakeCommand).hal.done == s.hal.done + [L.SentCommand(payload)]
  {
    HalfATripRuns(config, jointCount, t, now, payload, start);
    var todo := [W.EStop(true), W.Status(true, 1)];
    assert todo[1..][1..] == [];
  }

  // The E-stop then published, but still queued: the HAL may take a command
  // first.
  lemma QueuedWindow(config: W.Config, jointCount: nat, t: L.Transport, now: nat, payload: seq<Byte>, start: nat)
    requires start > now + config.timeout && payload != []
    ensures var s := Next(Run(Boot(config, jointCount, t, now), HalfATrip(payload, start)), Publish(true));
            && s.dog.tripped && !s.hal.latch && s.estops == [EstopPayload(true)]
            && Open(s) == [] && s.attempts == [Attempt(true, true)] && Unheard(s.attempts, 1) == 1
            && Next(s, TakeCommand).hal.done == s.hal.done + [L.SentCommand(payload)]
  {
    hide Run;
    HalfATripRuns(config, jointCount, t, now, payload, start);
    var s := Next(Tripping(config, jointCount, t, now, payload), Publish(true));
    assert s.todo == [W.Status(true, 1)] && s.estops == [EstopPayload(true)];
    assert s.attempts == [Attempt(true, true)];
    assert [W.Status(true, 1)][1..] == [];
    assert [Attempt(true, true)][..0] == [];
  }

  // The same trip, its E-stop publication lost: the window does not close.
  function Stranded(config: W.Config, jointCount: nat, t: L.Transport, now: nat, payload: seq<Byte>): (s: System)
  {
    Tripping(config, jointCount, t, now, payload).(todo := [], attempts := [Attempt(true, false)])
  }

  lemma StrandedRuns(config: W.Config, jointCount: nat, t: L.Transport, now: nat, payload: seq<Byte>)
    ensures var s := Tripping(config, jointCount, t, now, payload);
            Next(Next(s, Publish(false)), Publish(true)) == Stranded(config, jointCount, t, now, payload)
  {
    hide L.Next, W.Decide;
    var s := Tripping(config, jointCount, t, now, payload);
    var lost := Next(s, Publish(false));
    assert lost.todo == [W.Status(true, 1)] && lost.estops == [] && lost.attempts == [Attempt(true, false)];
    assert lost.todo[1..] == [];
  }

  lemma StrandedTakes(config: W.Config, jointCount: nat, t: L.Transport, now: nat, payload: seq<Byte>)
    requires payload != []
    ensures var s := Stranded(config, jointCount, t, now, payload);
            && !s.hal.latch && Unheard(s.attempts, 0) == 1
            && Next(s, TakeCommand).hal.done == s.hal.done + [L.SentCommand(payload)]
  {
    hide ZeroPayload;
    assert [Attempt(true, false)][..0] == [];
  }

  lemma LostPublication(config: W.Config, jointCount: nat, t: L.Transport, now: nat, payload: seq<Byte>, start: nat)
    requires start > now + config.timeout && payload != []
    ensures var s := Next(Next(Run(Boot(config, jointCount, t, now), HalfATrip(payload, start)),
                               Publish(false)), Publish(true));
            && s.todo == [] && s.estops == [] && Unheard(s.attempts, 0) == 1
            && s.dog.tripped && !s.hal.latch
            && Next(s, TakeCommand).hal.done == s.hal.done + [L.SentCommand(payload)]
  {
    hide Run, Next, Unheard, L.Next;
    HalfATripRuns(config, jointCount, t, now, payload, start);
    StrandedRuns(config, jointCount, t, now, payload);
    StrandedTakes(config, jointCount, t, now, payload);
  }

  // The same trip completed and heard.
  function Latched(config: W.Config, jointCount: nat, t: L.Transport, now: nat, payload: seq<Byte>, start: nat): System
  {
    Tripping(config, jointCount, t, now, payload)
    .(dog := W.Dog(true, 1, start, false),
      todo := [],
      stampDue := false,
      hal := L.Next(L.Next(L.Boot(t), L.Opens(true)), L.Estop(EstopPayload(true), true)),
      attempts := [Attempt(true, true)])
  }

  lemma LatchedRuns(config: W.Config, jointCount: nat, t: L.Transport, now: nat, payload: seq<Byte>, start: nat)
    ensures var sent := Next(Next(Tripping(config, jointCount, t, now, payload), Publish(true)), Publish(true));
            Next(Next(sent, Stamp(start)), TakeEstop(true)) == Latched(config, jointCount, t, now, payload, start)
  {
    hide Stops;
    var s := Tripping(config, jointCount, t, now, payload);
    var engaged := Next(s, Publish(true));
    assert engaged.todo == [W.Status(true, 1)];
    assert engaged.estops == [EstopPayload(true)] && engaged.attempts == [Attempt(true, true)];
    var sent := Next(engaged, Publish(true));
    assert sent.todo == [];
    assert [EstopPayload(true)][1..] == [];
  }

  // A beat reverses it: until the release is published the latch holds, and
  // commands are discarded, although the watchdog is not tripped.
  lemma ReleaseWindow(config: W.Config, jointCount: nat, t: L.Transport, now: nat, payload: seq<Byte>, start: nat)
    requires start > now + config.timeout
    ensures var engaged := Next(Next(Run(Boot(config, jointCount, t, now), HalfATrip(payload, start)),
                                     Publish(true)), Publish(true));
            var heard := Next(Next(engaged, Stamp(start)), TakeEstop(true));
            var s := Next(Next(heard, Beat(start)), Check(false, start));
            && !s.dog.tripped && s.hal.latch && s.estops == []
            && |Open(s)| == 1 && Unheard(s.attempts, 0) == 0
            && Next(s, TakeCommand).hal.done == s.hal.done + [L.Skipped]
  {
    hide Run;
    HalfATripRuns(config, jointCount, t, now, payload, start);
    LatchedRuns(config, jointCount, t, now, payload, start);
    assert Stops([W.EStop(false)]) == [false] by { assert [W.EStop(false)][1..] == []; }
  }
}
