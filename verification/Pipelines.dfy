// The HAL's command pipeline on one joint: whatever words arrive, the sanitizer
// and the shock limiter turn them into a bounded motion.
module Pipelines {
  import opened Reals
  import opened CommandVectors
  import opened VectorSanitizers
  import opened SaturationChain
  import opened JerkRuns

  // Joint i has finite limits, in order; they are the limiter's as well.
  predicate Configured(s: Setup, i: nat) {
    && s.Valid() && i < |s.limits|
    && Finite(s.value(s.limits[i].0)) && Finite(s.value(s.limits[i].1))
  }

  function Limits(s: Setup, i: nat): (g: Geometry)
    requires Configured(s, i)
    ensures g.Valid()
  {
    assert s.Sound(s.limits[i].0, s.limits[i].1);
    Range(s.value(s.limits[i].0).r, s.value(s.limits[i].1).r)
  }

  // What the sanitizer hands to the limiter.
  function Cleaned(s: Setup, i: nat, last: Word, words: seq<Word>): (ins: seq<Input>)
    requires Configured(s, i) && Finite(s.value(last))
    ensures |ins| == |words| && Runnable(ins)
    decreases |words|
  {
    if words == [] then []
    else
      var w := s.Safe(i, last, words[0]);
      [Input(s.value(w).r, Limits(s, i))] + Cleaned(s, i, w, words[1..])
  }

  lemma {:induction false} CleanedInLimits(s: Setup, i: nat, last: Word, words: seq<Word>, k: nat)
    requires Configured(s, i) && Finite(s.value(last)) && k < |words|
    ensures var ins := Cleaned(s, i, last, words);
            ins[k].geo == Limits(s, i) && Limits(s, i).Contains(ins[k].target)
    decreases k
  {
    if k > 0 {
      CleanedInLimits(s, i, s.Safe(i, last, words[0]), words[1..], k - 1);
    }
  }

  // The last word that is a number, the given one if none is.
  function Latest(value: Word -> Float, last: Word, words: seq<Word>): Word {
    if words == [] then last
    else
      var n := |words| - 1;
      if Finite(value(words[n])) then words[n] else Latest(value, last, words[..n])
  }

  lemma {:induction false} LatestCons(value: Word -> Float, last: Word, words: seq<Word>)
    requires words != []
    ensures Latest(value, last, words) ==
            Latest(value, if Finite(value(words[0])) then words[0] else last, words[1..])
    decreases |words|
  {
    var n := |words| - 1;
    if n > 0 {
      assert words[1..][n - 1] == words[n] && words[1..][..n - 1] == words[..n][1..];
      LatestCons(value, last, words[..n]);
    }
  }

  lemma {:induction false} LatestFinite(value: Word -> Float, last: Word, words: seq<Word>)
    requires Finite(value(last))
    ensures Finite(value(Latest(value, last, words)))
  {
    if words != [] {
      LatestFinite(value, last, words[..|words| - 1]);
    }
  }

  lemma {:induction false} LatestOfClamped(s: Setup, i: nat, last: Word, words: seq<Word>)
    requires s.Valid()
    ensures s.Clamped(i, Latest(s.value, s.Clamped(i, last), words)) == s.Clamped(i, Latest(s.value, last, words))
  {
    if words == [] {
      ClampIdempotent(s, i, last);
    } else {
      LatestOfClamped(s, i, last, words[..|words| - 1]);
    }
  }

  // The k-th target is the last number received by then, clamped to the limits;
  // zero until one is received.
  lemma {:induction false} CleanedIsLatest(s: Setup, i: nat, last: Word, words: seq<Word>, k: nat)
    requires Configured(s, i) && Finite(s.value(last)) && k < |words|
    ensures var ins, w := Cleaned(s, i, last, words), Latest(s.value, last, words[..k + 1]);
            && Finite(s.value(w))
            && ins[k].target == Clamp(s.value(w).r, Limits(s, i).lo, Limits(s, i).hi)
    decreases k
  {
    hide Latest;
    var w := s.Safe(i, last, words[0]);
    var front := words[..k + 1];
    var first := if Finite(s.value(words[0])) then words[0] else last;
    LatestFinite(s.value, last, front);
    LatestCons(s.value, last, front);
    if k > 0 {
      CleanedIsLatest(s, i, w, words[1..], k - 1);
      assert front[1..] == words[1..][..k];
      LatestOfClamped(s, i, first, front[1..]);
      ClampedIsClamp(s, i, Latest(s.value, w, front[1..]));
    } else {
      assert front[1..] == [];
      LatestOfNone(s.value, first);
    }
    ClampedIsClamp(s, i, Latest(s.value, last, front));
  }

  lemma LatestOfNone(value: Word -> Float, last: Word)
    ensures Latest(value, last, []) == last
  {
  }

  lemma ClampedIsClamp(s: Setup, i: nat, w: Word)
    requires Configured(s, i)
    ensures Finite(s.value(w)) ==>
              s.value(s.Clamped(i, w)) == Fin(Clamp(s.value(w).r, Limits(s, i).lo, Limits(s, i).hi))
  {
    if Finite(s.value(w)) {
      ClampedIsNearest(s, i, w);
      assert Limited(s, i, Limits(s, i).lo, Limits(s, i).hi);
    }
  }

  // Without tolerances the joint is there in the same tick.
  lemma {:induction false} PipelineFollows(s: Setup, i: nat, p: Params, words: seq<Word>, k: nat)
    requires Configured(s, i) && p.Valid() && p.lim == SaturationChain.Limits(Unlimited, Unlimited, Unlimited)
    requires 0 < k <= |words|
    ensures var w := Latest(s.value, ZERO, words[..k]);
            && Finite(s.value(w))
            && Run(p, REST, Cleaned(s, i, ZERO, words))[k].pos == Clamp(s.value(w).r, Limits(s, i).lo, Limits(s, i).hi)
  {
    hide Run, IsSqrt, Cleaned, Step, Latest, Clamp;
    var ins := Cleaned(s, i, ZERO, words);
    var q := Run(p, REST, ins);
    CleanedIsLatest(s, i, ZERO, words, k - 1);
    CleanedInLimits(s, i, ZERO, words, k - 1);
    RunSteps(p, REST, ins, k - 1);
    Transparent(At(p, ins[k - 1]), q[k - 1], ins[k - 1].target);
    InsideStays(Limits(s, i), ins[k - 1].target);
  }

  lemma InsideStays(g: Geometry, q: real)
    requires g.Valid() && g.Contains(q)
    ensures Confined(g, q) == q
  {
  }

  // For every sequence of received words, numbers or not: from the first
  // command on the position lies in the limits, it never moves faster than
  // the velocity limit, and velocity and acceleration stay bounded.
  lemma {:induction false} PipelineIsSafe(s: Setup, i: nat, p: Params, words: seq<Word>, k: nat)
    requires Configured(s, i) && p.Valid() && 0 < k <= |words|
    ensures var q := Run(p, REST, Cleaned(s, i, ZERO, words));
            && Limits(s, i).Contains(q[k].pos)
            && Bounded(p.lim, q[k])
            && (k < |words| && p.lim.vmax.AtMost? ==> Abs(q[k + 1].pos - q[k].pos) <= p.lim.vmax.v * p.dt)
  {
    hide Run, IsSqrt, Cleaned, Bounded, Abs;
    var ins := Cleaned(s, i, ZERO, words);
    RestIsBounded(p.lim);
    CleanedInLimits(s, i, ZERO, words, k - 1);
    RunIsSmooth(p, REST, ins, k - 1);
    RunIsSmooth(p, REST, ins, k);
    if k < |words| {
      CleanedInLimits(s, i, ZERO, words, k);
    }
  }
}
