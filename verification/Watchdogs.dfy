// The hardware watchdog: a shared heartbeat register and the monitoring loop.
// Time is a nat in milliseconds, read once when an iteration starts and once
// when it has published.
module Watchdogs {

  class Heartbeat {
    var lastPing: nat

    constructor (now: nat)
      ensures lastPing == now
    {
      lastPing := now;
    }

    method Ping(now: nat)
      modifies this
      ensures lastPing == now
    {
      lastPing := now;
    }

    method AgeMs(now: nat) returns (age: nat)
      ensures age == Age(lastPing, now)
      ensures now >= lastPing ==> lastPing + age == now
      ensures now < lastPing ==> age == 0
    {
      age := if now >= lastPing then now - lastPing else 0;
    }
  }

  // Time since `since`, never negative: the clock may be set back.
  function Age(since: nat, now: nat): nat {
    if now >= since then now - since else 0
  }

  datatype Config = Config(timeout: nat, reassert: nat)

  datatype Message = Zeros | EStop(engage: bool) | Status(tripped: bool, trips: nat)

  // The watchdog between two iterations of its loop.
  datatype Dog = Dog(tripped: bool, trips: nat, lastForce: nat, finished: bool)

  // What one iteration sees: the shutdown flag, the heartbeat register, and
  // the clock before and after publishing.
  datatype Turn = Turn(stop: bool, ping: nat, start: nat, end: nat)

  function Boot(now: nat): Dog {
    Dog(false, 0, now, false)
  }

  // The decision of one iteration, taken at once: the new flag and counter, and
  // the messages still to be published, in order.
  function Decide(c: Config, d: Dog, stop: bool, ping: nat, start: nat): (Dog, seq<Message>) {
    if d.finished then (d, [])
    else if stop then
      (d.(tripped := false, finished := true), if d.tripped then [EStop(false)] else [])
    else if Age(ping, start) > c.timeout then
      if !d.tripped then
        (d.(tripped := true, trips := d.trips + 1), [Zeros, EStop(true), Status(true, d.trips + 1)])
      else if Age(d.lastForce, start) >= c.reassert then (d, [Zeros])
      else (d, [])
    else if d.tripped then (d.(tripped := false), [EStop(false)])
    else (d, [])
  }

  // Zeros go out only when tripped; a status exactly on the transition to
  // tripped, once, behind the E-stop message, with the new flag and counter.
  lemma StatusOfDecision(c: Config, d: Dog, stop: bool, ping: nat, start: nat)
    ensures var (r, out) := Decide(c, d, stop, ping, start);
            && (Zeros in out ==> r.tripped && !r.finished && out[0] == Zeros)
            && (forall i | 0 <= i < |out| :: out[i].Status? ==>
                 i == |out| - 1 > 0 && out[i] == Status(r.tripped, r.trips) && out[i - 1] == EStop(true))
            && ((exists m <- out :: m.Status?) <==> r.tripped && !d.tripped)
  {
    var (r, out) := Decide(c, d, stop, ping, start);
    if r.tripped && !d.tripped {
      assert out[2].Status?;
    }
  }

  // A whole iteration: once its zeros are published, it notes the time.
  function Iterate(c: Config, d: Dog, t: Turn): (Dog, seq<Message>) {
    var (r, out) := Decide(c, d, t.stop, t.ping, t.start);
    (if Zeros in out then r.(lastForce := t.end) else r, out)
  }

  // One iteration of the loop of the watchdog thread.
  class HardWatchdog {
    const config: Config
    const heartbeat: Heartbeat
    var tripped: bool
    var trips: nat
    var stop: bool
    var lastForce: nat
    var finished: bool

    function State(): Dog
      reads this
    {
      Dog(tripped, trips, lastForce, finished)
    }

    constructor (config: Config, heartbeat: Heartbeat, now: nat)
      ensures State() == Boot(now) && !stop && this.config == config && this.heartbeat == heartbeat
    {
      this.config, this.heartbeat := config, heartbeat;
      tripped, trips, stop, lastForce, finished := false, 0, false, now, false;
    }

    method Shutdown()
      modifies `stop
      ensures stop
    {
      stop := true;
    }

    method Monitor(start: nat, end: nat) returns (out: seq<Message>)
      requires !finished
      modifies `tripped, `trips, `lastForce, `finished
      ensures State() == Iterate(config, old(State()), Turn(stop, heartbeat.lastPing, start, end)).0
      ensures out == Iterate(config, old(State()), Turn(stop, heartbeat.lastPing, start, end)).1
    {
      out := [];
      if stop {
        if tripped {
          out := out + [EStop(false)];
        }
        tripped := false;
        finished := true;
        return;
      }
      var age := heartbeat.AgeMs(start);
      if age > config.timeout {
        if !tripped {
          tripped := true;
          trips := trips + 1;
          out := out + [Zeros];
          out := out + [EStop(true)];
          out := out + [Status(tripped, trips)];
          lastForce := end;
        } else if Age(lastForce, start) >= config.reassert {
          out := out + [Zeros];
          lastForce := end;
        }
      } else if tripped {
        tripped := false;
        out := out + [EStop(false)];
      }
    }
  }

  // ------------------------------------------------------------- Whole runs

  // States before, between and after the iterations.
  function Watch(c: Config, d: Dog, turns: seq<Turn>): (dogs: seq<Dog>)
    ensures |dogs| == |turns| + 1 && dogs[0] == d
    decreases |turns|
  {
    if turns == [] then [d] else [d] + Watch(c, Iterate(c, d, turns[0]).0, turns[1..])
  }

  lemma {:induction false} WatchSteps(c: Config, d: Dog, turns: seq<Turn>, k: nat)
    requires k < |turns|
    ensures Watch(c, d, turns)[k + 1] == Iterate(c, Watch(c, d, turns)[k], turns[k]).0
    decreases k
  {
    if k > 0 {
      WatchSteps(c, Iterate(c, d, turns[0]).0, turns[1..], k - 1);
    }
  }

  // The messages of iteration k.
  function Sent(c: Config, d: Dog, turns: seq<Turn>, k: nat): seq<Message>
    requires k < |turns|
  {
    Iterate(c, Watch(c, d, turns)[k], turns[k]).1
  }

  predicate Running(turns: seq<Turn>) {
    forall k | 0 <= k < |turns| :: !turns[k].stop
  }

  // Iterations follow each other, at most `gap` apart.
  predicate Paced(turns: seq<Turn>, gap: nat) {
    && (forall k | 0 <= k < |turns| :: turns[k].start <= turns[k].end)
    && forall k | 0 < k < |turns| :: turns[k - 1].end <= turns[k].start <= turns[k - 1].start + gap
  }

  predicate TrippedAfter(c: Config, d: Dog, turns: seq<Turn>, k: nat)
    requires k < |turns|
  {
    Watch(c, d, turns)[k + 1].tripped
  }

  // After an iteration the watchdog is tripped exactly if the heartbeat was
  // too old when it started.
  lemma TrippedExactly(c: Config, d: Dog, turns: seq<Turn>, k: nat)
    requires Running(turns) && !d.finished && k < |turns|
    ensures !Watch(c, d, turns)[k + 1].finished
    ensures TrippedAfter(c, d, turns, k) <==> turns[k].start > turns[k].ping + c.timeout
    decreases k
  {
    WatchSteps(c, d, turns, k);
    if k > 0 {
      TrippedExactly(c, d, turns, k - 1);
    }
  }

  // The control went silent at time t and monitoring was on before the timeout
  // ran out: some iteration no later than t + timeout + gap trips, or finds
  // itself tripped, and so do all later ones.
  lemma {:induction false} SilenceTrips(c: Config, d: Dog, turns: seq<Turn>, gap: nat, t: nat) returns (k: nat)
    requires Running(turns) && Paced(turns, gap) && !d.finished
    requires forall j | 0 <= j < |turns| :: turns[j].ping <= t
    requires |turns| > 0 && turns[0].start <= t + c.timeout < turns[|turns| - 1].start
    ensures k < |turns| && t + c.timeout < turns[k].start <= t + c.timeout + gap
    ensures forall j | k <= j < |turns| :: TrippedAfter(c, d, turns, j)
  {
    k := 0;
    while turns[k].start <= t + c.timeout
      invariant k < |turns|
      invariant k > 0 ==> turns[k - 1].start <= t + c.timeout
      decreases |turns| - k
    {
      k := k + 1;
    }
    forall j | k <= j < |turns|
      ensures TrippedAfter(c, d, turns, j)
    {
      LaterStarts(turns, gap, k, j);
      TrippedExactly(c, d, turns, j);
    }
  }

  lemma {:induction false} LaterStarts(turns: seq<Turn>, gap: nat, i: nat, j: nat)
    requires Paced(turns, gap) && i <= j < |turns|
    ensures turns[i].start <= turns[j].start
    decreases j
  {
    if i < j {
      LaterStarts(turns, gap, i, j - 1);
    }
  }

  // ------------------------------------------------- No unintended trips

  predicate Increasing(pings: seq<nat>) {
    forall i, j | 0 <= i < j < |pings| :: pings[i] <= pings[j]
  }

  // The register at time `now`, after the beats before it.
  function Register(pings: seq<nat>, now: nat): nat
    requires pings != [] && Increasing(pings) && pings[0] <= now
  {
    if pings[|pings| - 1] <= now then pings[|pings| - 1] else Register(pings[..|pings| - 1], now)
  }

  lemma {:induction false} PunctualRegister(pings: seq<nat>, now: nat, timeout: nat)
    requires pings != [] && Increasing(pings) && pings[0] <= now <= pings[|pings| - 1] + timeout
    requires forall i | 0 < i < |pings| :: pings[i] <= pings[i - 1] + timeout
    ensures Register(pings, now) <= now <= Register(pings, now) + timeout
    decreases |pings|
  {
    var n := |pings| - 1;
    if pings[n] > now {
      assert pings[n] <= pings[n - 1] + timeout;
      PunctualRegister(pings[..n], now, timeout);
    }
  }

  // Beats that are never further apart than the timeout keep the watchdog
  // quiet: no trip and not a single message.
  lemma {:induction false} PunctualNeverTrips(c: Config, now: nat, turns: seq<Turn>, pings: seq<nat>, k: nat)
    requires Running(turns) && k < |turns| && pings != [] && Increasing(pings)
    requires forall i | 0 < i < |pings| :: pings[i] <= pings[i - 1] + c.timeout
    requires forall j | 0 <= j < |turns| ::
        && pings[0] <= turns[j].start <= pings[|pings| - 1] + c.timeout
        && turns[j].ping == Register(pings, turns[j].start)
    ensures Watch(c, Boot(now), turns)[k + 1] == Boot(now)
    ensures Sent(c, Boot(now), turns, k) == []
    decreases k
  {
    WatchSteps(c, Boot(now), turns, k);
    PunctualRegister(pings, turns[k].start, c.timeout);
    if k > 0 {
      PunctualNeverTrips(c, now, turns, pings, k - 1);
    }
  }

  // ------------------------------------------------- Reasserting the zeros

  // From iteration i to iteration j the watchdog stays tripped and publishes
  // zeros in i and j only.
  predicate Successive(c: Config, d: Dog, turns: seq<Turn>, i: nat, j: nat) {
    && i < j < |turns|
    && Zeros in Sent(c, d, turns, i) && Zeros in Sent(c, d, turns, j)
    && (forall k | i < k < j :: Zeros !in Sent(c, d, turns, k))
    && forall k | i < k <= j :: Watch(c, d, turns)[k].tripped
  }

  lemma IterateForces(c: Config, d: Dog, t: Turn)
    ensures var (r, out) := Iterate(c, d, t);
            r.lastForce == if Zeros in out then t.end else d.lastForce
  {
  }

  lemma {:induction false} ForceIsStamped(c: Config, d: Dog, turns: seq<Turn>, i: nat, k: nat)
    requires i < k <= |turns| && Zeros in Sent(c, d, turns, i)
    requires forall m | i < m < k :: Zeros !in Sent(c, d, turns, m)
    ensures Watch(c, d, turns)[k].lastForce == turns[i].end
    decreases k
  {
    hide Iterate, Watch;
    WatchSteps(c, d, turns, k - 1);
    IterateForces(c, Watch(c, d, turns)[k - 1], turns[k - 1]);
    if i < k - 1 {
      assert Zeros !in Sent(c, d, turns, k - 1);
      ForceIsStamped(c, d, turns, i, k - 1);
    }
  }

  // While tripped, the zeros are published again no sooner than the reassert
  // interval, and no later than that plus one gap, after the last time.
  lemma {:induction false} ZerosAreSpaced(c: Config, d: Dog, turns: seq<Turn>, gap: nat, i: nat, j: nat)
    requires Running(turns) && Paced(turns, gap) && !d.finished && Successive(c, d, turns, i, j)
    ensures c.reassert <= Age(turns[i].end, turns[j].start) <= c.reassert + gap
  {
    hide Watch;
    ForceIsStamped(c, d, turns, i, j);
    LaterStarts(turns, gap, i, j);
    if i < j - 1 {
      TrippedExactly(c, d, turns, j - 1);
      if j - 1 > 0 {
        TrippedExactly(c, d, turns, j - 2);
      }
      assert Zeros !in Sent(c, d, turns, j - 1);
      ForceIsStamped(c, d, turns, i, j - 1);
      LaterStarts(turns, gap, i, j - 1);
    }
  }

  // An iteration that finds the watchdog tripped and the heartbeat still silent
  // publishes them exactly if the interval is over.
  lemma ZerosAreReasserted(c: Config, d: Dog, t: Turn)
    requires d.tripped && !d.finished && !t.stop && Age(t.ping, t.start) > c.timeout
    ensures Zeros in Iterate(c, d, t).1 <==> Age(d.lastForce, t.start) >= c.reassert
  {
  }

  lemma ZerosTrip(c: Config, d: Dog, t: Turn)
    requires Zeros in Iterate(c, d, t).1
    ensures Iterate(c, d, t).0.tripped
  {
  }

  predicate Silent(c: Config, turns: seq<Turn>, from: nat) {
    forall k | from <= k < |turns| :: Age(turns[k].ping, turns[k].start) > c.timeout
  }

  // Before its next zeros are due a silent watchdog has started no iteration
  // later than the interval allows.
  lemma NotYetDue(c: Config, d: Dog, turns: seq<Turn>, gap: nat, i: nat, k: nat)
    requires Running(turns) && Paced(turns, gap) && !d.finished && i < k < |turns|
    requires Zeros in Sent(c, d, turns, i) && Silent(c, turns, i + 1)
    requires forall m | i < m <= k :: Zeros !in Sent(c, d, turns, m)
    ensures turns[k].start < turns[i].end + c.reassert
  {
    hide Iterate, Watch;
    ForceIsStamped(c, d, turns, i, k);
    TrippedExactly(c, d, turns, k - 1);
    WatchSteps(c, d, turns, i);
    ZerosTrip(c, Watch(c, d, turns)[i], turns[i]);
    assert Watch(c, d, turns)[k].tripped;
    assert Zeros !in Sent(c, d, turns, k);
    ZerosAreReasserted(c, Watch(c, d, turns)[k], turns[k]);
  }

  // The zeros do come: if the silence continues and monitoring does, the next
  // ones follow within the interval plus one gap.
  lemma {:induction false} ZerosFollow(c: Config, d: Dog, turns: seq<Turn>, gap: nat, i: nat) returns (j: nat)
    requires Running(turns) && Paced(turns, gap) && !d.finished && i < |turns|
    requires Zeros in Sent(c, d, turns, i) && Silent(c, turns, i + 1)
    requires turns[i].end + c.reassert <= turns[|turns| - 1].start && i < |turns| - 1
    ensures i < j < |turns| && Zeros in Sent(c, d, turns, j)
    ensures forall k | i < k < j :: Zeros !in Sent(c, d, turns, k)
    ensures turns[j].start <= turns[i].end + c.reassert + gap
  {
    hide Iterate, Watch, Silent;
    j := i + 1;
    while Zeros !in Sent(c, d, turns, j)
      invariant i < j < |turns|
      invariant forall k | i < k < j :: Zeros !in Sent(c, d, turns, k)
      invariant turns[j].start <= turns[i].end + c.reassert + gap
      decreases |turns| - j
    {
      NotYetDue(c, d, turns, gap, i, j);
      j := j + 1;
    }
  }
}
