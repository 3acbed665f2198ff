// The vector sanitizer: illegal values are replaced by the last safe ones,
// then everything is clamped to the configured limits. Values stay the opaque
// words of the wire; `value` is what their bits mean.
module VectorSanitizers {
  import opened Basics
  import opened Reals
  import opened CommandVectors

  predicate Finite(x: Float) {
    x.Fin?
  }

  // Comparison of f32 values: false when either is not a number.
  predicate Less(a: Float, b: Float) {
    match (a, b)
    case (Fin(x), Fin(y)) => x < y
    case (NegInf, Fin(_)) => true
    case (NegInf, PosInf) => true
    case (Fin(_), PosInf) => true
    case _ => false
  }

  // Limits of one joint, if configured.
  datatype Limit = Open | Between(lo: Word, hi: Word)

  datatype Setup = Setup(value: Word -> Float, limits: seq<(Word, Word)>) {
    // What clamping demands: limits that are numbers, in order.
    predicate Valid() {
      && value(ZERO) == Fin(0.0)
      && forall i | 0 <= i < |limits| :: Sound(limits[i].0, limits[i].1)
    }

    predicate Sound(lo: Word, hi: Word) {
      value(lo) != NaN && value(hi) != NaN && !Less(value(hi), value(lo))
    }

    function LimitOf(i: nat): Limit {
      if i < |limits| then Between(limits[i].0, limits[i].1) else Open
    }

    // Clamping picks one of three words.
    function Clamped(i: nat, w: Word): Word {
      match LimitOf(i)
      case Open => w
      case Between(lo, hi) =>
        if Less(value(w), value(lo)) then lo else if Less(value(hi), value(w)) then hi else w
    }

    function Safe(i: nat, last: Word, w: Word): Word {
      Clamped(i, if Finite(value(w)) then w else last)
    }

    predicate InLimits(i: nat, w: Word) {
      match LimitOf(i)
      case Open => true
      case Between(lo, hi) => value(w) != NaN && !Less(value(w), value(lo)) && !Less(value(hi), value(w))
    }

    // Limits that leave room for a finite value.
    predicate Bounded(i: nat) {
      match LimitOf(i)
      case Open => true
      case Between(lo, hi) => value(lo) != PosInf && value(hi) != NegInf
    }
  }

  // The history after a command, and the command after sanitizing.
  function Remembered(s: Setup, last: seq<Word>, cmd: CommandVector): (r: seq<Word>)
    requires |last| == MAX_JOINTS && cmd.Valid()
    ensures |r| == MAX_JOINTS
  {
    seq(MAX_JOINTS, i requires 0 <= i < MAX_JOINTS =>
      if i < cmd.len then s.Safe(i, last[i], cmd.targets[i]) else last[i])
  }

  function Sanitized(s: Setup, last: seq<Word>, cmd: CommandVector): (r: CommandVector)
    requires |last| == MAX_JOINTS && cmd.Valid()
    ensures r.Valid() && r.len == cmd.len
  {
    CommandVector(Remembered(s, last, cmd)[..cmd.len] + cmd.targets[cmd.len..], cmd.len)
  }

  lemma ClampIdempotent(s: Setup, i: nat, w: Word)
    requires s.Valid()
    ensures s.Clamped(i, s.Clamped(i, w)) == s.Clamped(i, w)
  {
  }

  // ------------------------------------------------------- The nearest word

  predicate StrictlyBetween(a: Float, x: Float, b: Float) {
    (Less(a, x) && Less(x, b)) || (Less(b, x) && Less(x, a))
  }

  // A word in the limits, the given one if it lies there; none in the limits
  // comes before it on the way from the given one.
  ghost predicate NearestInLimits(s: Setup, i: nat, w: Word, out: Word) {
    && s.InLimits(i, out)
    && (s.InLimits(i, w) ==> out == w)
    && forall u | s.InLimits(i, u) :: !StrictlyBetween(s.value(w), s.value(u), s.value(out))
  }

  // Joint i has finite limits, and they are these.
  predicate Limited(s: Setup, i: nat, lo: real, hi: real) {
    i < |s.limits| && s.value(s.limits[i].0) == Fin(lo) && s.value(s.limits[i].1) == Fin(hi)
  }

  // What clamping a number does.
  ghost predicate IsClamp(s: Setup, i: nat, w: Word, out: Word) {
    && NearestInLimits(s, i, w, out)
    && forall lo, hi | Limited(s, i, lo, hi) && Finite(s.value(w)) ::
        lo <= hi && s.value(out) == Fin(Clamp(s.value(w).r, lo, hi))
  }

  lemma ClampedIsNearest(s: Setup, i: nat, w: Word)
    requires s.Valid() && s.value(w) != NaN
    ensures IsClamp(s, i, w, s.Clamped(i, w))
  {
    if i < |s.limits| {
      assert s.Sound(s.limits[i].0, s.limits[i].1);
    }
  }

  // ---------------------------------------------------------- The history

  predicate AllValid(cmds: seq<CommandVector>) {
    forall k | 0 <= k < |cmds| :: cmds[k].Valid()
  }

  function Zeroed(): (r: seq<Word>)
    ensures |r| == MAX_JOINTS && forall w <- r :: w == ZERO
  {
    seq(MAX_JOINTS, _ => ZERO)
  }

  // What the sanitizer remembers after a run.
  function After(s: Setup, cmds: seq<CommandVector>): (r: seq<Word>)
    requires AllValid(cmds)
    ensures |r| == MAX_JOINTS
  {
    if cmds == [] then Zeroed()
    else Remembered(s, After(s, cmds[..|cmds| - 1]), cmds[|cmds| - 1])
  }

  // The most recent finite input of a joint, zero if it never had one.
  function Recent(value: Word -> Float, i: nat, cmds: seq<CommandVector>): Word
    requires AllValid(cmds) && i < MAX_JOINTS
  {
    if cmds == [] then ZERO
    else
      var cmd := cmds[|cmds| - 1];
      if i < cmd.len && Finite(value(cmd.targets[i])) then cmd.targets[i]
      else Recent(value, i, cmds[..|cmds| - 1])
  }

  lemma {:induction false} HistoryIsRecent(s: Setup, cmds: seq<CommandVector>, i: nat)
    requires s.Valid() && AllValid(cmds) && i < MAX_JOINTS
    ensures s.Clamped(i, After(s, cmds)[i]) == s.Clamped(i, Recent(s.value, i, cmds))
    ensures Finite(s.value(Recent(s.value, i, cmds)))
  {
    if cmds != [] {
      var n := |cmds| - 1;
      HistoryIsRecent(s, cmds[..n], i);
      var last, w := After(s, cmds[..n])[i], cmds[n].targets[i];
      ClampIdempotent(s, i, if Finite(s.value(w)) then w else last);
    }
  }

  // The last command of a run after sanitizing.
  function Output(s: Setup, cmds: seq<CommandVector>): (r: CommandVector)
    requires AllValid(cmds) && cmds != []
    ensures r.Valid() && r.len == cmds[|cmds| - 1].len
  {
    Sanitized(s, After(s, cmds[..|cmds| - 1]), cmds[|cmds| - 1])
  }

  // It holds, for every joint it drives, the clamp of the most recent finite
  // input of that joint. It lies in the limits, and it is finite exactly when
  // the limits admit a finite value.
  lemma OutputIsClampedRecent(s: Setup, cmds: seq<CommandVector>, i: nat)
    requires s.Valid() && AllValid(cmds) && cmds != [] && i < Output(s, cmds).len
    ensures var w := Output(s, cmds).targets[i];
            && w == s.Clamped(i, Recent(s.value, i, cmds))
            && IsClamp(s, i, Recent(s.value, i, cmds), w)
            && s.InLimits(i, w)
            && (Finite(s.value(w)) <==> s.Bounded(i))
  {
    hide IsClamp;
    HistoryIsRecent(s, cmds, i);
    ClampedIsNearest(s, i, Recent(s.value, i, cmds));
    var n := |cmds| - 1;
    var last, w := After(s, cmds[..n])[i], cmds[n].targets[i];
    ClampIdempotent(s, i, if Finite(s.value(w)) then w else last);
    assert Output(s, cmds).targets[i] == After(s, cmds)[i];
  }

  // --------------------------------------------------- A second sanitizer

  // Words a sanitizer lets through unchanged, whatever it remembers.
  predicate Settled(s: Setup, cmd: CommandVector)
    requires cmd.Valid()
  {
    forall i | 0 <= i < cmd.len :: Finite(s.value(cmd.targets[i])) && s.Clamped(i, cmd.targets[i]) == cmd.targets[i]
  }

  predicate LeavesRoom(s: Setup, len: nat) {
    forall i | 0 <= i < len :: s.Bounded(i)
  }

  lemma OutputIsSettled(s: Setup, cmds: seq<CommandVector>)
    requires s.Valid() && AllValid(cmds) && cmds != [] && LeavesRoom(s, Output(s, cmds).len)
    ensures Settled(s, Output(s, cmds))
  {
    var out := Output(s, cmds);
    forall i | 0 <= i < out.len
      ensures Finite(s.value(out.targets[i])) && s.Clamped(i, out.targets[i]) == out.targets[i]
    {
      OutputIsClampedRecent(s, cmds, i);
      ClampIdempotent(s, i, Recent(s.value, i, cmds));
    }
  }

  // If the limits leave room for finite values, what the HAL's sanitizer makes
  // of a command that crossed the wire after the control loop's sanitizer is
  // the same command, whatever the HAL's sanitizer remembers.
  lemma NoOpWhateverHistory(s: Setup, cmds: seq<CommandVector>, last: seq<Word>)
    requires s.Valid() && AllValid(cmds) && cmds != [] && |last| == MAX_JOINTS
    requires LeavesRoom(s, Output(s, cmds).len)
    ensures var out := Output(s, cmds);
            var received := Parsed(EncodeWords(out.Active()));
            received.Active() == out.Active() && Sanitized(s, last, received).Active() == out.Active()
  {
    hide Parsed, EncodeWords, Output;
    var out := Output(s, cmds);
    OutputIsSettled(s, cmds);
    CommandRoundTrip(out);
    var received := Parsed(EncodeWords(out.Active()));
    forall i | 0 <= i < out.len
      ensures Sanitized(s, last, received).targets[i] == out.targets[i]
    {
      assert received.targets[i] == received.Active()[i] == out.Active()[i] == out.targets[i];
    }
    assert Sanitized(s, last, received).Active() == out.Active();
  }

  // Limits that leave no room clamp all finite values to one word.
  lemma NoRoom(s: Setup, i: nat, v: Word, w: Word)
    requires s.Valid() && Finite(s.value(v)) && Finite(s.value(w)) && !Finite(s.value(s.Clamped(i, v)))
    ensures s.Clamped(i, w) == s.Clamped(i, v)
  {
  }

  // Under any limits it is the same command after any run of the HAL's own
  // sanitizer.
  lemma SecondSanitizerIsNoOp(s: Setup, cmds: seq<CommandVector>, earlier: seq<CommandVector>)
    requires s.Valid() && AllValid(cmds) && cmds != [] && AllValid(earlier)
    ensures var out := Output(s, cmds);
            var received := Parsed(EncodeWords(out.Active()));
            && received.Active() == out.Active()
            && Sanitized(s, After(s, earlier), received).Active() == out.Active()
  {
    hide Parsed, EncodeWords, Output, After, Recent;
    var out, last := Output(s, cmds), After(s, earlier);
    CommandRoundTrip(out);
    var received := Parsed(EncodeWords(out.Active()));
    forall i | 0 <= i < out.len
      ensures Sanitized(s, last, received).targets[i] == out.targets[i]
    {
      assert received.targets[i] == received.Active()[i] == out.Active()[i] == out.targets[i];
      SanitizedAgain(s, cmds, earlier, i);
    }
    assert Sanitized(s, last, received).Active() == out.Active();
  }

  lemma SanitizedAgain(s: Setup, cmds: seq<CommandVector>, earlier: seq<CommandVector>, i: nat)
    requires s.Valid() && AllValid(cmds) && cmds != [] && AllValid(earlier) && i < Output(s, cmds).len
    ensures s.Safe(i, After(s, earlier)[i], Output(s, cmds).targets[i]) == Output(s, cmds).targets[i]
  {
    hide Output, After, Recent;
    OutputIsClampedRecent(s, cmds, i);
    HistoryIsRecent(s, cmds, i);
    HistoryIsRecent(s, earlier, i);
    var first, second := Recent(s.value, i, cmds), Recent(s.value, i, earlier);
    ClampIdempotent(s, i, first);
    if !Finite(s.value(s.Clamped(i, first))) {
      NoRoom(s, i, first, second);
    }
  }

  // ------------------------------------------------- The stateless clamp

  // The clamp of the standard library.
  method ClampWord(s: Setup, w: Word, i: nat) returns (v: Word)
    requires s.Valid() && i < |s.limits|
    ensures v == s.Clamped(i, w)
  {
    v := w;
    var (lo, hi) := s.limits[i];
    if Less(s.value(v), s.value(lo)) {
      v := lo;
    }
    if Less(s.value(hi), s.value(v)) {
      v := hi;
    }
  }

  lemma ClampedNaN(s: Setup, i: nat, w: Word)
    requires s.value(w) == NaN
    ensures s.Clamped(i, w) == w
  {
  }

  method ClampToLimits(values: seq<Word>, s: Setup) returns (r: CommandVector)
    requires s.Valid()
    ensures r.Valid() && r.len == Min(|values|, MAX_JOINTS)
    ensures forall i | 0 <= i < MAX_JOINTS :: r.targets[i] == if i < r.len then s.Clamped(i, values[i]) else ZERO
    ensures forall i | 0 <= i < r.len ::
        if s.value(values[i]) == NaN then r.targets[i] == values[i] else IsClamp(s, i, values[i], r.targets[i])
  {
    hide Less, IsClamp;
    forall i | 0 <= i < |values|
      ensures if s.value(values[i]) == NaN then s.Clamped(i, values[i]) == values[i]
              else IsClamp(s, i, values[i], s.Clamped(i, values[i]))
    {
      if s.value(values[i]) == NaN {
        ClampedNaN(s, i, values[i]);
      } else {
        ClampedIsNearest(s, i, values[i]);
      }
    }
    var targets := new Word[MAX_JOINTS](_ => ZERO);
    var n := Min(|values|, MAX_JOINTS);
    for i := 0 to n
      invariant forall j | 0 <= j < MAX_JOINTS :: targets[j] == if j < i then s.Clamped(j, values[j]) else ZERO
    {
      var v := values[i];
      if i < |s.limits| {
        v := ClampWord(s, v, i);
      }
      targets[i] := v;
    }
    r := CommandVector(targets[..], n);
  }

  // On finite values it is the sanitizer, whatever that remembers; a value that
  // is not a number it lets through.
  lemma ClampAgainstSanitizer(s: Setup, last: seq<Word>, cmd: CommandVector, i: nat)
    requires s.Valid() && cmd.Valid() && |last| == MAX_JOINTS && i < cmd.len
    ensures Finite(s.value(cmd.targets[i])) ==> s.Clamped(i, cmd.targets[i]) == Sanitized(s, last, cmd).targets[i]
    ensures s.value(cmd.targets[i]) == NaN <==> s.value(s.Clamped(i, cmd.targets[i])) == NaN
  {
    assert Sanitized(s, last, cmd).targets[i] == s.Safe(i, last[i], cmd.targets[i]);
  }

  // ------------------------------------------------------------ The object

  class VectorSanitizer {
    const lastSafe: array<Word>

    predicate Valid() {
      lastSafe.Length == MAX_JOINTS
    }

    constructor ()
      ensures Valid() && fresh(lastSafe) && lastSafe[..] == Zeroed()
    {
      lastSafe := new Word[MAX_JOINTS](_ => ZERO);
      new;
      assert lastSafe[..] == Zeroed();
    }

    // Cleans the command in place.
    method SanitizeAndClamp(command: array<Word>, len: nat, s: Setup)
      requires Valid() && s.Valid()
      requires command != lastSafe && command.Length == MAX_JOINTS && len <= MAX_JOINTS
      modifies command, lastSafe
      ensures lastSafe[..] == Remembered(s, old(lastSafe[..]), CommandVector(old(command[..]), len))
      ensures command[..] == Sanitized(s, old(lastSafe[..]), CommandVector(old(command[..]), len)).targets
      ensures forall i | 0 <= i < len ::
          Finite(s.value(old(command[i]))) ==> IsClamp(s, i, old(command[i]), command[i])
    {
      hide Less, IsClamp;
      ghost var last, cmd := lastSafe[..], CommandVector(command[..], len);
      forall i | 0 <= i < len && Finite(s.value(cmd.targets[i]))
        ensures IsClamp(s, i, cmd.targets[i], s.Clamped(i, cmd.targets[i]))
      {
        ClampedIsNearest(s, i, cmd.targets[i]);
      }
      for i := 0 to len
        invariant forall j | 0 <= j < MAX_JOINTS ::
            lastSafe[j] == if j < i then s.Safe(j, last[j], cmd.targets[j]) else last[j]
        invariant forall j | 0 <= j < MAX_JOINTS :: command[j] == if j < i then lastSafe[j] else cmd.targets[j]
      {
        var v := command[i];
        if s.value(v) == NaN || s.value(v) == PosInf || s.value(v) == NegInf {
          v := lastSafe[i];
        }
        if i < |s.limits| {
          v := ClampWord(s, v, i);
        }
        assert v == s.Safe(i, last[i], cmd.targets[i]);
        command[i] := v;
        lastSafe[i] := v;
      }
    }
  }
}
