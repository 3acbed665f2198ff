// Substring search over byte sequences.
module ByteSearch {
  import opened Basics

  predicate MatchesAt(h: seq<Byte>, needle: seq<Byte>, i: nat) {
    i + |needle| <= |h| && h[i..i + |needle|] == needle
  }

  // First occurrence at or after `from`.
  function FindFrom(h: seq<Byte>, needle: seq<Byte>, from: nat): (r: Option<nat>)
    ensures r.Some? ==> from <= r.value && r.value + |needle| <= |h|
    decreases |h| - from
  {
    if from + |needle| > |h| then None
    else if MatchesAt(h, needle, from) then Some(from)
    else FindFrom(h, needle, from + 1)
  }

  // The search reports a match, and no earlier one exists; if it reports none,
  // there is none.
  lemma {:induction false} FindIsFirst(h: seq<Byte>, needle: seq<Byte>, from: nat)
    ensures match FindFrom(h, needle, from)
            case Some(i) => MatchesAt(h, needle, i) && forall j :: from <= j < i ==> !MatchesAt(h, needle, j)
            case None => forall j :: from <= j ==> !MatchesAt(h, needle, j)
    decreases |h| - from
  {
    if from + |needle| <= |h| && !MatchesAt(h, needle, from) {
      FindIsFirst(h, needle, from + 1);
    }
  }

  lemma FoundAt(h: seq<Byte>, needle: seq<Byte>, from: nat, i: nat)
    requires from <= i && MatchesAt(h, needle, i)
    requires forall j :: from <= j < i ==> !MatchesAt(h, needle, j)
    ensures FindFrom(h, needle, from) == Some(i)
  {
    FindIsFirst(h, needle, from);
  }

  lemma NotFound(h: seq<Byte>, needle: seq<Byte>, from: nat)
    requires forall j :: from <= j ==> !MatchesAt(h, needle, j)
    ensures FindFrom(h, needle, from).None?
  {
    FindIsFirst(h, needle, from);
  }

  // One differing byte rules a match out.
  lemma Mismatch(h: seq<Byte>, needle: seq<Byte>, i: nat, k: nat)
    requires k < |needle|
    requires i + k < |h| ==> h[i + k] != needle[k]
    ensures !MatchesAt(h, needle, i)
  {
    assert i + |needle| <= |h| ==> h[i..i + |needle|][k] == h[i + k];
  }

  lemma MatchInAppend(h: seq<Byte>, more: seq<Byte>, needle: seq<Byte>, i: nat)
    requires i + |needle| <= |h|
    ensures MatchesAt(h + more, needle, i) == MatchesAt(h, needle, i)
  {
    assert (h + more)[i..i + |needle|] == h[i..i + |needle|];
  }

  // A found match stays the first one when bytes are appended.
  lemma FindInAppend(h: seq<Byte>, more: seq<Byte>, needle: seq<Byte>, from: nat)
    requires FindFrom(h, needle, from).Some?
    ensures FindFrom(h + more, needle, from) == FindFrom(h, needle, from)
  {
    var i := FindFrom(h, needle, from).value;
    FindIsFirst(h, needle, from);
    MatchInAppend(h, more, needle, i);
    forall j | from <= j < i ensures !MatchesAt(h + more, needle, j) {
      MatchInAppend(h, more, needle, j);
    }
    FoundAt(h + more, needle, from, i);
  }
}
