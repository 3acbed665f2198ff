// The E-stop latch inside the fieldbus loops of the HAL. The bodies of the
// serial, UDP and TCP loops differ only in how they connect; one machine models
// all three, event by event.
module EstopLatches {
  import opened Basics

  datatype Transport = Serial | Udp | Tcp

  // Waiting to connect, serving an open connection, or returned with an error.
  datatype Phase = Connecting | Serving | Ended

  // Why a status is published.
  datatype Cause = OpenFailed | Opened | Changed | Closed

  // What a loop iteration does, in order. Heard is the payload of an E-stop
  // message as the loop reads it; Skipped is a command discarded unread.
  datatype Action =
    | Heard(active: bool)
    | SentCommand(payload: seq<Byte>)
    | SentEstop
    | Skipped
    | Reported(cause: Cause, online: bool, frames: nat, estop: bool)

  // What may happen next; the flags say whether status publication worked.
  datatype Event =
    | OpenFails(statusOk: bool)
    | Opens(statusOk: bool)
    | Telemetry(newFrames: nat)
    | Command(payload: seq<Byte>)
    | Estop(payload: seq<Byte>, statusOk: bool)
    | Disconnects(statusOk: bool)

  datatype Hal = Hal(transport: Transport, phase: Phase, latch: bool, frames: nat, done: seq<Action>)

  function Boot(t: Transport): Hal {
    Hal(t, Connecting, false, 0, [])
  }

  // First byte non-zero; an empty payload reads as zero.
  predicate Active(payload: seq<Byte>) {
    payload != [] && payload[0] != 0
  }

  function Status(cause: Cause, frames: nat, estop: bool): Action {
    Reported(cause, cause == Opened || cause == Changed, frames, estop)
  }

  function Report(h: Hal, cause: Cause, frames: nat, estop: bool, next: Phase, statusOk: bool): Hal {
    h.(done := h.done + [Status(cause, frames, estop)], phase := if statusOk then next else Ended)
  }

  // Events that do not fit the phase do not occur; they change nothing.
  function Next(h: Hal, e: Event): Hal {
    match (h.phase, e)
    case (Connecting, OpenFails(ok)) =>
      Report(h, OpenFailed, 0, if h.transport.Serial? then false else h.latch, Connecting, ok)
    case (Connecting, Opens(ok)) => Report(h.(frames := 0), Opened, 0, h.latch, Serving, ok)
    case (Serving, Telemetry(n)) => h.(frames := h.frames + n)
    case (Serving, Command(payload)) =>
      if h.latch then h.(done := h.done + [Skipped])
      else if payload == [] then h
      else h.(done := h.done + [SentCommand(payload)])
    case (Serving, Estop(payload, ok)) =>
      var active := Active(payload);
      var heard := h.(done := h.done + [Heard(active)]);
      if active == h.latch then heard
      else
        var moved := heard.(latch := active, done := heard.done + if active then [SentEstop] else []);
        Report(moved, Changed, h.frames, active, Serving, ok)
    case (Serving, Disconnects(ok)) => Report(h, Closed, h.frames, h.latch, Connecting, ok)
    case _ => h
  }

  function Run(h: Hal, events: seq<Event>): Hal
    decreases |events|
  {
    if events == [] then h else Run(Next(h, events[0]), events[1..])
  }

  // ---------------------------------------------- What the history tells

  // The latch as the E-stop messages heard so far determine it, whatever
  // connections came and went: the last one wins.
  function LatchOf(done: seq<Action>): bool {
    if done == [] then false
    else
      match done[|done| - 1]
      case Heard(active) => active
      case _ => LatchOf(done[..|done| - 1])
  }

  // One action is in order after a history.
  predicate InOrder(t: Transport, before: seq<Action>, a: Action) {
    match a
    case Heard(_) => true
    case SentCommand(payload) => !LatchOf(before) && payload != []
    case SentEstop => // exactly on engaging
      && before != [] && before[|before| - 1] == Heard(true)
      && !LatchOf(before[..|before| - 1])
    case Skipped => LatchOf(before)
    case Reported(cause, online, frames, estop) =>
      && online == (cause == Opened || cause == Changed)
      && (cause == OpenFailed || cause == Opened ==> frames == 0)
      && estop == (LatchOf(before) && !(cause == OpenFailed && t.Serial?))
  }

  predicate Orderly(t: Transport, done: seq<Action>) {
    forall i | 0 <= i < |done| :: InOrder(t, done[..i], done[i])
  }

  lemma OrderlySnoc(t: Transport, done: seq<Action>, a: Action)
    requires Orderly(t, done) && InOrder(t, done, a)
    ensures Orderly(t, done + [a])
  {
    forall i | 0 <= i < |done + [a]|
      ensures InOrder(t, (done + [a])[..i], (done + [a])[i])
    {
      assert (done + [a])[..i] == done[..i];
      assert i == |done| ==> done[..i] == done;
    }
  }

  lemma LatchSnoc(done: seq<Action>, a: Action)
    ensures LatchOf(done + [a]) == if a.Heard? then a.active else LatchOf(done)
  {
    assert (done + [a])[..|done|] == done;
  }

  // A message that changes the latch is answered at once: with the E-stop
  // frame if it engages, then with a status.
  predicate Answered(done: seq<Action>, i: nat)
    requires i < |done|
  {
    done[i].Heard? && done[i].active != LatchOf(done[..i]) ==>
      var next := if done[i].active then i + 2 else i + 1;
      && next < |done| && (done[i].active ==> done[i + 1] == SentEstop)
      && done[next].Reported? && done[next].cause == Changed && done[next].estop == done[i].active
  }

  predicate Complete(done: seq<Action>) {
    forall i | 0 <= i < |done| :: Answered(done, i)
  }

  lemma CompleteGrows(done: seq<Action>, more: seq<Action>)
    requires Complete(done)
    requires forall i | |done| <= i < |done + more| :: Answered(done + more, i)
    ensures Complete(done + more)
  {
    forall i | 0 <= i < |done|
      ensures Answered(done + more, i)
    {
      assert Answered(done, i);
      assert (done + more)[..i] == done[..i];
    }
  }

  predicate Sound(h: Hal) {
    h.latch == LatchOf(h.done) && Orderly(h.transport, h.done) && Complete(h.done)
  }

  lemma Appends(h: Hal, a: Action)
    requires Orderly(h.transport, h.done) && InOrder(h.transport, h.done, a)
    ensures Orderly(h.transport, h.done + [a])
    ensures LatchOf(h.done + [a]) == if a.Heard? then a.active else LatchOf(h.done)
    ensures Complete(h.done) && (a.Heard? ==> a.active == LatchOf(h.done)) ==> Complete(h.done + [a])
  {
    OrderlySnoc(h.transport, h.done, a);
    LatchSnoc(h.done, a);
    if Complete(h.done) && (a.Heard? ==> a.active == LatchOf(h.done)) {
      assert (h.done + [a])[..|h.done|] == h.done;
      CompleteGrows(h.done, [a]);
    }
  }

  lemma EdgeIsAnswered(done: seq<Action>, active: bool, frames: nat)
    requires Complete(done) && active != LatchOf(done)
    ensures Complete(done + [Heard(active)] + (if active then [SentEstop] else []) + [Status(Changed, frames, active)])
  {
    var more := [Heard(active)] + (if active then [SentEstop] else []) + [Status(Changed, frames, active)];
    assert done + [Heard(active)] + (if active then [SentEstop] else []) + [Status(Changed, frames, active)]
        == done + more;
    assert (done + more)[..|done|] == done;
    forall i | |done| <= i < |done + more|
      ensures Answered(done + more, i)
    {
      assert (done + more)[i] == more[i - |done|];
    }
    CompleteGrows(done, more);
  }

  lemma HearingIsSound(h: Hal, payload: seq<Byte>, ok: bool)
    requires Sound(h) && h.phase == Serving
    ensures Sound(Next(h, Estop(payload, ok)))
  {
    hide Orderly, LatchOf, Active, Complete;
    var active := Active(payload);
    Appends(h, Heard(active));
    if active != h.latch {
      var heard := h.(done := h.done + [Heard(active)]);
      var moved := heard;
      if active {
        assert heard.done[..|heard.done| - 1] == h.done;
        Appends(heard, SentEstop);
        moved := heard.(done := heard.done + [SentEstop]);
      }
      assert moved.done == heard.done + if active then [SentEstop] else [];
      Appends(moved, Status(Changed, h.frames, active));
      EdgeIsAnswered(h.done, active, h.frames);
    }
  }

  lemma StepIsSound(h: Hal, e: Event)
    requires Sound(h)
    ensures Sound(Next(h, e))
  {
    hide Orderly, LatchOf, Complete;
    match (h.phase, e)
    case (Connecting, OpenFails(ok)) =>
      Appends(h, Status(OpenFailed, 0, if h.transport.Serial? then false else h.latch));
    case (Connecting, Opens(ok)) => Appends(h, Status(Opened, 0, h.latch));
    case (Serving, Command(payload)) =>
      if h.latch {
        Appends(h, Skipped);
      } else if payload != [] {
        Appends(h, SentCommand(payload));
      }
    case (Serving, Estop(payload, ok)) => HearingIsSound(h, payload, ok);
    case (Serving, Disconnects(ok)) => Appends(h, Status(Closed, h.frames, h.latch));
    case _ =>
  }

  // In every run, over any transport and any number of reconnections: the
  // latch is the last E-stop message heard; no command is written while it is
  // set and every command skipped finds it set; the E-stop frame is written
  // when it engages, at once, and at no other time; and every status tells it truthfully, but for the
  // serial loop's when the port does not open.
  lemma {:induction false} EveryRunIsSound(h: Hal, events: seq<Event>)
    requires Sound(h)
    ensures Sound(Run(h, events))
    decreases |events|
  {
    hide Next, Sound;
    if events != [] {
      StepIsSound(h, events[0]);
      EveryRunIsSound(Next(h, events[0]), events[1..]);
    }
  }

  // ---------------------------------------------- The frames of a connection

  // What may happen while a connection stays open.
  predicate KeepsOpen(events: seq<Event>) {
    forall i | 0 <= i < |events| ::
      events[i].Telemetry? || events[i].Command? || (events[i].Estop? && events[i].statusOk)
  }

  // Telemetry frames received.
  function Received(events: seq<Event>): nat {
    if events == [] then 0
    else (if events[0].Telemetry? then events[0].newFrames else 0) + Received(events[1..])
  }

  lemma {:induction false} FramesCounted(h: Hal, events: seq<Event>)
    requires h.phase == Serving && KeepsOpen(events)
    ensures Run(h, events).phase == Serving && Run(h, events).frames == h.frames + Received(events)
    decreases |events|
  {
    if events != [] {
      assert events[0].Telemetry? || events[0].Command? || (events[0].Estop? && events[0].statusOk);
      assert forall i | 0 <= i < |events| - 1 :: events[1..][i] == events[i + 1];
      FramesCounted(Next(h, events[0]), events[1..]);
    }
  }

  // While a connection is open, and when it ends, the status reports the frames
  // received over this connection, however many there were before.
  lemma {:induction false} ReportsReceived(h: Hal, events: seq<Event>, payload: seq<Byte>)
    requires h.phase == Connecting && KeepsOpen(events)
    ensures var r := Run(Next(h, Opens(true)), events);
            && Next(r, Disconnects(true)).done == r.done + [Reported(Closed, false, Received(events), r.latch)]
            && var e := Next(r, Estop(payload, true));
               Active(payload) != r.latch ==>
                 e.done[|e.done| - 1] == Reported(Changed, true, Received(events), Active(payload))
  {
    hide Run;
    FramesCounted(Next(h, Opens(true)), events);
  }

  // While the latch is set no event but an E-stop message changes it, and no
  // command frame goes out.
  lemma LatchedStep(h: Hal, e: Event)
    requires h.latch
    ensures !Next(h, e).latch <==>
            e.Estop? && h.phase == Serving && (e.payload == [] || e.payload[0] == 0)
    ensures e.Command? && h.phase == Serving ==> Next(h, e) == h.(done := h.done + [Skipped])
  {
  }

  // While it is clear, only an E-stop message that engages sets it, and the
  // E-stop frame goes out with it.
  lemma ClearStep(h: Hal, e: Event)
    requires !h.latch
    ensures Next(h, e).latch <==> e.Estop? && h.phase == Serving && e.payload != [] && e.payload[0] != 0
    ensures Next(h, e).latch ==> SentEstop in Next(h, e).done[|h.done|..]
    ensures e.Command? && h.phase == Serving && e.payload != [] ==>
              Next(h, e) == h.(done := h.done + [SentCommand(e.payload)])
  {
    if Next(h, e).latch {
      assert Next(h, e).done[|h.done| + 1] == SentEstop;
    }
  }

  // A failed open reports the latch truthfully unless the port is serial and
  // the latch set.
  lemma OpenFailureReport(h: Hal, ok: bool)
    requires h.phase == Connecting
    ensures Next(h, OpenFails(ok)).done == h.done + [Status(OpenFailed, 0, h.latch)] <==>
            !(h.transport.Serial? && h.latch)
  {
    var reported := if h.transport.Serial? then false else h.latch;
    assert (h.done + [Status(OpenFailed, 0, reported)])[|h.done|] == Status(OpenFailed, 0, reported);
    assert (h.done + [Status(OpenFailed, 0, h.latch)])[|h.done|] == Status(OpenFailed, 0, h.latch);
  }

  // The failing run: a serial port that goes away while the latch is set is
  // reported with a clear latch.
  lemma SerialReportsClear()
    ensures var h := Next(Next(Next(Boot(Serial), Opens(true)), Estop([1], true)), Disconnects(true));
            && h.latch && h.done[|h.done| - 1] == Reported(Closed, false, 0, true)
            && Next(h, OpenFails(true)).done == h.done + [Reported(OpenFailed, false, 0, false)]
  {
    var linked := Next(Boot(Serial), Opens(true));
    var engaged := Next(linked, Estop([1], true));
    assert engaged.latch && engaged.phase == Serving && engaged.frames == 0;
  }

  // The state the loops update in place.
  class FieldbusLoop {
    const transport: Transport
    var phase: Phase
    var estopActive: bool
    var frames: nat
    ghost var done: seq<Action>

    ghost function State(): Hal
      reads this
    {
      Hal(transport, phase, estopActive, frames, done)
    }

    constructor (transport: Transport)
      ensures State() == Boot(transport)
    {
      this.transport := transport;
      phase, estopActive, frames, done := Connecting, false, 0, [];
    }

    method PublishStatus(cause: Cause, frames: nat, estop: bool, next: Phase, statusOk: bool)
      modifies `phase, `done
      ensures State() == Report(old(State()), cause, frames, estop, next, statusOk)
    {
      done := done + [Status(cause, frames, estop)];
      phase := if statusOk then next else Ended;
    }

    // One event of the loop.
    method Handle(e: Event)
      modifies this
      ensures State() == Next(old(State()), e)
    {
      match e
      case OpenFails(ok) =>
        if phase == Connecting {
          PublishStatus(OpenFailed, 0, if transport.Serial? then false else estopActive, Connecting, ok);
        }
      case Opens(ok) =>
        if phase == Connecting {
          frames := 0;
          PublishStatus(Opened, frames, estopActive, Serving, ok);
        }
      case Telemetry(n) =>
        if phase == Serving {
          frames := frames + n;
        }
      case Command(payload) =>
        if phase == Serving {
          if estopActive {
            done := done + [Skipped];
          } else if payload != [] {
            done := done + [SentCommand(payload)];
          }
        }
      case Estop(payload, ok) =>
        if phase == Serving {
          var active := (if payload == [] then 0 else payload[0]) != 0;
          done := done + [Heard(active)];
          if active != estopActive {
            estopActive := active;
            if active {
              done := done + [SentEstop];
            }
            PublishStatus(Changed, frames, estopActive, Serving, ok);
          }
        }
      case Disconnects(ok) =>
        if phase == Serving {
          PublishStatus(Closed, frames, estopActive, Connecting, ok);
        }
    }
  }
}
