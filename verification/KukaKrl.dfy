// KUKA Ethernet KRL telemetry: XML documents ended by `</Rob>`, each holding
// `<Var Name="...">value</Var>` elements. Text-to-number parsing is a partial
// function supplied from outside.
module KukaKrl {
  import opened Basics
  import opened ByteSearch
  import opened CommandVectors
  import opened Streaming

  // </Rob>
  const TERMINATOR: seq<Byte> := [0x3C, 0x2F, 0x52, 0x6F, 0x62, 0x3E]
  // <Var Name="
  const NAME_TAG: seq<Byte> := [0x3C, 0x56, 0x61, 0x72, 0x20, 0x4E, 0x61, 0x6D, 0x65, 0x3D, 0x22]
  // </Var>
  const VAR_END: seq<Byte> := [0x3C, 0x2F, 0x56, 0x61, 0x72, 0x3E]
  // SEND
  const SEND: seq<Byte> := [0x53, 0x45, 0x4E, 0x44]
  const QUOTE: Byte := 0x22
  const SLASH: Byte := 0x2F
  const LESS: Byte := 0x3C
  const GREATER: Byte := 0x3E
  const OPEN_BRACKET: Byte := 0x5B
  const CLOSE_BRACKET: Byte := 0x5D

  // Number parsing, as the standard library provides it.
  datatype Parser = Parser(number: seq<Byte> -> Option<Word>, index: seq<Byte> -> Option<nat>)

  datatype Var = Var(name: seq<Byte>, value: Word, next: nat)

  // The element that starts at or after `from`.
  function ParseVar(p: Parser, body: seq<Byte>, from: nat): (r: Option<Var>)
    ensures r.Some? ==> from < r.value.next <= |body|
  {
    match FindFrom(body, NAME_TAG, from)
    case None => None
    case Some(start) =>
      var nameBegin := start + |NAME_TAG|;
      match FindFrom(body, [QUOTE], nameBegin)
      case None => None
      case Some(nameEnd) =>
        match FindFrom(body, [GREATER], nameEnd + 1)
        case None => None
        case Some(close) =>
          match FindFrom(body, VAR_END, close + 1)
          case None => None
          case Some(valueEnd) =>
            match p.number(body[close + 1..valueEnd])
            case None => None
            case Some(value) => Some(Var(body[nameBegin..nameEnd], value, valueEnd + |VAR_END|))
  }

  // The index between the first brackets of a name.
  function BracketIndex(p: Parser, name: seq<Byte>): Option<nat> {
    match (FindFrom(name, [OPEN_BRACKET], 0), FindFrom(name, [CLOSE_BRACKET], 0))
    case (Some(open), Some(close)) => if close <= open then None else p.index(name[open + 1..close])
    case _ => None
  }

  // The slots filled so far.
  datatype Table = Table(values: seq<Word>, n: nat) {
    predicate Valid() {
      |values| == MAX_JOINTS && n <= MAX_JOINTS
    }
  }

  function Empty(): (t: Table)
    ensures t.Valid()
  {
    Table(seq(MAX_JOINTS, _ => ZERO), 0)
  }

  // Effect of one element: SEND[i] goes to slot i, any other SEND name to the
  // next free slot, everything else nowhere.
  function Store(p: Parser, t: Table, name: seq<Byte>, value: Word): (r: Table)
    requires t.Valid() && t.n < MAX_JOINTS
    ensures r.Valid() && r.n >= t.n
  {
    if !(SEND <= name) then t
    else
      var idx := match BracketIndex(p, name)
                 case Some(i) => if 1 <= i <= MAX_JOINTS then i - 1 else t.n
                 case None => t.n;
      Table(t.values[idx := value], if t.n < idx + 1 then idx + 1 else t.n)
  }

  function Elements(p: Parser, body: seq<Byte>, from: nat, limit: nat, t: Table): (r: Table)
    requires t.Valid() && limit <= MAX_JOINTS
    ensures r.Valid()
    decreases |body| - from
  {
    match ParseVar(p, body, from)
    case None => t
    case Some(v) =>
      if t.n >= limit then t else Elements(p, body, v.next, limit, Store(p, t, v.name, v.value))
  }

  lemma ElementsUnfold(p: Parser, body: seq<Byte>, from: nat, limit: nat, t: Table)
    requires t.Valid() && limit <= MAX_JOINTS
    ensures Elements(p, body, from, limit, t) ==
            match ParseVar(p, body, from)
            case None => t
            case Some(v) => if t.n >= limit then t else Elements(p, body, v.next, limit, Store(p, t, v.name, v.value))
  {
  }

  function KukaDecode(p: Parser, jointCount: nat, acc: seq<Byte>): Option<Decoded<Word>> {
    match FindFrom(acc, TERMINATOR, 0)
    case None => None
    case Some(end) =>
      var t := Elements(p, acc[..end], 0, Min(jointCount, MAX_JOINTS), Empty());
      Some(Decoded(end + |TERMINATOR|, t.values, t.n))
  }

  function Kuka(p: Parser, jointCount: nat): Decoder<Word> {
    acc => KukaDecode(p, jointCount, acc)
  }

  method DecodeKuka(p: Parser, acc: seq<Byte>, jointCount: nat) returns (r: Option<Decoded<Word>>)
    ensures r == KukaDecode(p, jointCount, acc)
  {
    hide FindFrom, ParseVar, BracketIndex, Elements;
    var found := FindFrom(acc, TERMINATOR, 0);
    if found.None? {
      return None;
    }
    var body := acc[..found.value];
    var limit := Min(jointCount, MAX_JOINTS);
    var values := Empty().values;
    var n, searchFrom := 0, 0;
    ghost var all := Elements(p, body, 0, limit, Empty());
    var element := ParseVar(p, body, searchFrom);
    while element.Some? && n < limit
      invariant Table(values, n).Valid() && element == ParseVar(p, body, searchFrom)
      invariant Elements(p, body, searchFrom, limit, Table(values, n)) == all
      decreases |body| - searchFrom
    {
      var v := element.value;
      ElementsUnfold(p, body, searchFrom, limit, Table(values, n));
      if SEND <= v.name {
        var index := BracketIndex(p, v.name);
        var idx := if index.Some? && 1 <= index.value <= MAX_JOINTS then index.value - 1 else n;
        values, n := values[idx := v.value], if n < idx + 1 then idx + 1 else n;
      }
      searchFrom := v.next;
      element := ParseVar(p, body, searchFrom);
    }
    ElementsUnfold(p, body, searchFrom, limit, Table(values, n));
    return Some(Decoded(found.value + |TERMINATOR|, values, n));
  }

  lemma KukaIsStable(p: Parser, jointCount: nat)
    ensures Progressing(Kuka(p, jointCount)) && Stable(Kuka(p, jointCount))
  {
    var d := Kuka(p, jointCount);
    forall acc ensures ProgressesOn(d, acc) {
    }
    forall acc, more ensures StableOn(d, acc, more) {
      if d(acc).Some? {
        FindInAppend(acc, more, TERMINATOR, 0);
        var end := FindFrom(acc, TERMINATOR, 0).value;
        assert (acc + more)[..end] == acc[..end];
      }
    }
  }

  lemma KukaChunking(p: Parser, jointCount: nat, chunks: seq<seq<Byte>>)
    ensures Progressing(Kuka(p, jointCount))
    ensures Feed(Kuka(p, jointCount), [], chunks) == Drain(Kuka(p, jointCount), Flatten(chunks))
  {
    KukaIsStable(p, jointCount);
    ChunkingIndependence(Kuka(p, jointCount), [], chunks);
    assert [] + Flatten(chunks) == Flatten(chunks);
  }

  // ------------------------------------------------------------- Documents

  // An element as a controller writes it, with whatever markup precedes it.
  datatype Element = Element(gap: seq<Byte>, name: seq<Byte>, text: seq<Byte>) {
    predicate WellFormed() {
      && Markup(gap)
      && QUOTE !in name && SlashSafe(name)
      && LESS !in text && SlashSafe(text)
    }

    // The element in front of the rest of the document.
    function Render(rest: seq<Byte>): seq<Byte> {
      gap + (NAME_TAG + AfterTag(rest))
    }

    function AfterTag(rest: seq<Byte>): seq<Byte> {
      name + ([QUOTE] + ([GREATER] + AfterClose(rest)))
    }

    function AfterClose(rest: seq<Byte>): seq<Byte> {
      text + (VAR_END + rest)
    }

    function Length(): nat {
      |gap| + |NAME_TAG| + |name| + 2 + |text| + |VAR_END|
    }
  }

  // Byte `a` at position i is followed by some byte other than `b`.
  predicate ApartAt(s: seq<Byte>, a: Byte, b: Byte, i: nat)
    requires i < |s|
  {
    s[i] == a ==> i + 1 < |s| && s[i + 1] != b
  }

  // No `/` that could belong to `</R`.
  predicate SlashSafe(s: seq<Byte>) {
    forall i :: 0 <= i < |s| ==> ApartAt(s, SLASH, 0x52, i)
  }

  // Markup that opens no `<V...` tag and does not close `</R...`.
  predicate Markup(s: seq<Byte>) {
    SlashSafe(s) && forall i :: 0 <= i < |s| ==> ApartAt(s, LESS, 0x56, i)
  }

  function RenderAll(elements: seq<Element>, tail: seq<Byte>): seq<Byte> {
    if elements == [] then tail else elements[0].Render(RenderAll(elements[1..], tail))
  }

  // A document: its elements, closing markup, the terminator.
  function Document(elements: seq<Element>, tail: seq<Byte>): seq<Byte> {
    RenderAll(elements, tail) + TERMINATOR
  }

  // What the elements mean, without reference to byte positions.
  function Meaning(p: Parser, elements: seq<Element>, limit: nat, t: Table): (r: Table)
    requires t.Valid() && limit <= MAX_JOINTS
    ensures r.Valid()
    decreases |elements|
  {
    if elements == [] || p.number(elements[0].text).None? || t.n >= limit then t
    else Meaning(p, elements[1..], limit, Store(p, t, elements[0].name, p.number(elements[0].text).value))
  }

  // No tag starts inside markup.
  lemma NoTagInMarkup(h: seq<Byte>, pre: seq<Byte>, gap: seq<Byte>, post: seq<Byte>, j: nat)
    requires h == pre + (gap + post) && Markup(gap) && |pre| <= j < |pre| + |gap|
    ensures !MatchesAt(h, NAME_TAG, j)
  {
    var i := j - |pre|;
    assert h[j] == gap[i] && ApartAt(gap, LESS, 0x56, i);
    if gap[i] == LESS {
      assert h[j + 1] == gap[i + 1];
      Mismatch(h, NAME_TAG, j, 1);
    } else {
      Mismatch(h, NAME_TAG, j, 0);
    }
  }

  // Skipping a stretch with no occurrence, the search stops right behind it.
  lemma FoundBehind(h: seq<Byte>, pre: seq<Byte>, s: seq<Byte>, needle: seq<Byte>, post: seq<Byte>)
    requires h == pre + (s + (needle + post))
    requires forall j :: |pre| <= j < |pre| + |s| ==> !MatchesAt(h, needle, j)
    ensures FindFrom(h, needle, |pre|) == Some(|pre| + |s|)
    ensures h[|pre|..|pre| + |s|] == s
    ensures h == (pre + s + needle) + post
  {
    var i := |pre| + |s|;
    assert h[i..i + |needle|] == needle;
    FoundAt(h, needle, |pre|, i);
  }

  lemma TagFound(h: seq<Byte>, pre: seq<Byte>, gap: seq<Byte>, post: seq<Byte>)
    requires h == pre + (gap + (NAME_TAG + post)) && Markup(gap)
    ensures FindFrom(h, NAME_TAG, |pre|) == Some(|pre| + |gap|)
    ensures h == (pre + gap + NAME_TAG) + post
  {
    forall j | |pre| <= j < |pre| + |gap| ensures !MatchesAt(h, NAME_TAG, j) {
      NoTagInMarkup(h, pre, gap, NAME_TAG + post, j);
    }
    FoundBehind(h, pre, gap, NAME_TAG, post);
  }

  lemma EndFound(h: seq<Byte>, pre: seq<Byte>, s: seq<Byte>, needle: seq<Byte>, post: seq<Byte>)
    requires h == pre + (s + (needle + post))
    requires needle != [] && needle[0] !in s
    ensures FindFrom(h, needle, |pre|) == Some(|pre| + |s|)
    ensures h[|pre|..|pre| + |s|] == s
    ensures h == (pre + s + needle) + post
  {
    forall j | |pre| <= j < |pre| + |s| ensures !MatchesAt(h, needle, j) {
      assert h[j] == s[j - |pre|];
      Mismatch(h, needle, j, 0);
    }
    FoundBehind(h, pre, s, needle, post);
  }

  // An element whose searches end at the given positions.
  lemma ParseLandmarks(p: Parser, h: seq<Byte>, from: nat, start: nat, nameEnd: nat, valueEnd: nat)
    requires FindFrom(h, NAME_TAG, from) == Some(start)
    requires FindFrom(h, [QUOTE], start + |NAME_TAG|) == Some(nameEnd)
    requires FindFrom(h, [GREATER], nameEnd + 1) == Some(nameEnd + 1)
    requires FindFrom(h, VAR_END, nameEnd + 2) == Some(valueEnd)
    ensures ParseVar(p, h, from) ==
            match p.number(h[nameEnd + 2..valueEnd])
            case None => None
            case Some(value) => Some(Var(h[start + |NAME_TAG|..nameEnd], value, valueEnd + |VAR_END|))
  {
    hide FindFrom;
  }

  // Where the four searches of a rendered element end.
  lemma ElementFound(h: seq<Byte>, pre: seq<Byte>, e: Element, rest: seq<Byte>)
    requires h == pre + e.Render(rest) && e.WellFormed()
    ensures var start := |pre| + |e.gap|;
            var nameEnd := start + |NAME_TAG| + |e.name|;
            var valueEnd := nameEnd + 2 + |e.text|;
            && FindFrom(h, NAME_TAG, |pre|) == Some(start)
            && FindFrom(h, [QUOTE], start + |NAME_TAG|) == Some(nameEnd)
            && FindFrom(h, [GREATER], nameEnd + 1) == Some(nameEnd + 1)
            && FindFrom(h, VAR_END, nameEnd + 2) == Some(valueEnd)
            && h[start + |NAME_TAG|..nameEnd] == e.name
            && h[nameEnd + 2..valueEnd] == e.text
            && h == h[..valueEnd + |VAR_END|] + rest
  {
    hide FindFrom;
    var quote, close := [QUOTE], [GREATER];
    TagFound(h, pre, e.gap, e.AfterTag(rest));
    var pre1 := pre + e.gap + NAME_TAG;
    EndFound(h, pre1, e.name, quote, close + e.AfterClose(rest));
    var pre2 := pre1 + e.name + quote;
    EndFound(h, pre2, [], close, e.AfterClose(rest));
    var pre3 := pre2 + [] + close;
    EndFound(h, pre3, e.text, VAR_END, rest);
  }

  // Parsing undoes rendering, and stops exactly behind the element.
  lemma ParseRendered(p: Parser, h: seq<Byte>, pre: seq<Byte>, e: Element, rest: seq<Byte>)
    requires h == pre + e.Render(rest) && e.WellFormed()
    ensures ParseVar(p, h, |pre|) ==
            match p.number(e.text)
            case None => None
            case Some(value) => Some(Var(e.name, value, |pre| + e.Length()))
    ensures |pre| + e.Length() <= |h| && h == h[..|pre| + e.Length()] + rest
  {
    hide FindFrom;
    var start := |pre| + |e.gap|;
    var nameEnd := start + |NAME_TAG| + |e.name|;
    ElementFound(h, pre, e, rest);
    ParseLandmarks(p, h, |pre|, start, nameEnd, nameEnd + 2 + |e.text|);
  }

  // Scanning the bytes of a body computes the meaning of its elements.
  lemma {:induction false} ScanRendered(p: Parser, h: seq<Byte>, pre: seq<Byte>, elements: seq<Element>,
                                        tail: seq<Byte>, limit: nat, t: Table)
    requires h == pre + RenderAll(elements, tail)
    requires forall e <- elements :: e.WellFormed()
    requires Markup(tail) && t.Valid() && limit <= MAX_JOINTS
    ensures Elements(p, h, |pre|, limit, t) == Meaning(p, elements, limit, t)
    decreases |elements|
  {
    hide FindFrom, Elements, Store, Markup;
    ElementsUnfold(p, h, |pre|, limit, t);
    if elements == [] {
      forall j | |pre| <= j ensures !MatchesAt(h, NAME_TAG, j) {
        if j < |pre| + |tail| {
          NoTagInMarkup(h, pre, tail, [], j);
        }
      }
      NotFound(h, NAME_TAG, |pre|);
    } else {
      var e, rest := elements[0], RenderAll(elements[1..], tail);
      ParseRendered(p, h, pre, e, rest);
      if p.number(e.text).Some? && t.n < limit {
        ScanRendered(p, h, h[..|pre| + e.Length()], elements[1..], tail, limit,
                     Store(p, t, e.name, p.number(e.text).value));
      }
    }
  }

  lemma SlashSafeJoin(a: seq<Byte>, b: seq<Byte>)
    requires SlashSafe(a) && SlashSafe(b)
    ensures SlashSafe(a + b)
  {
    forall i | 0 <= i < |a + b| ensures ApartAt(a + b, SLASH, 0x52, i) {
      if i < |a| {
        assert ApartAt(a, SLASH, 0x52, i);
      } else {
        assert ApartAt(b, SLASH, 0x52, i - |a|);
      }
    }
  }

  lemma {:induction false} RenderAllSlashSafe(elements: seq<Element>, tail: seq<Byte>)
    requires forall e <- elements :: e.WellFormed()
    requires SlashSafe(tail)
    ensures SlashSafe(RenderAll(elements, tail))
  {
    if elements != [] {
      var e, rest := elements[0], RenderAll(elements[1..], tail);
      assert e.WellFormed();
      RenderAllSlashSafe(elements[1..], tail);
      SlashSafeJoin(VAR_END, rest);
      SlashSafeJoin(e.text, VAR_END + rest);
      SlashSafeJoin([GREATER], e.AfterClose(rest));
      SlashSafeJoin([QUOTE], [GREATER] + e.AfterClose(rest));
      SlashSafeJoin(e.name, [QUOTE] + ([GREATER] + e.AfterClose(rest)));
      SlashSafeJoin(NAME_TAG, e.AfterTag(rest));
      SlashSafeJoin(e.gap, NAME_TAG + e.AfterTag(rest));
    }
  }

  lemma TerminatorFound(body: seq<Byte>, more: seq<Byte>)
    requires SlashSafe(body)
    ensures FindFrom(body + TERMINATOR + more, TERMINATOR, 0) == Some(|body|)
  {
    var h := body + TERMINATOR + more;
    assert h[|body|..|body| + |TERMINATOR|] == TERMINATOR;
    forall j | 0 <= j < |body| ensures !MatchesAt(h, TERMINATOR, j) {
      if j + 1 < |body| && body[j + 1] == SLASH {
        assert ApartAt(body, SLASH, 0x52, j + 1);
        assert h[j + 2] == body[j + 2];
        Mismatch(h, TERMINATOR, j, 2);
      } else {
        assert h[j + 1] == if j + 1 < |body| then body[j + 1] else TERMINATOR[0];
        Mismatch(h, TERMINATOR, j, 1);
      }
    }
    FoundAt(h, TERMINATOR, 0, |body|);
  }

  // A well-formed document at the front of the accumulator is consumed whole
  // and decodes to the meaning of its elements, whatever follows it.
  lemma DocumentDecodes(p: Parser, jointCount: nat, elements: seq<Element>, tail: seq<Byte>, more: seq<Byte>)
    requires forall e <- elements :: e.WellFormed()
    requires Markup(tail)
    ensures var t := Meaning(p, elements, Min(jointCount, MAX_JOINTS), Empty());
            KukaDecode(p, jointCount, Document(elements, tail) + more) ==
            Some(Decoded(|Document(elements, tail)|, t.values, t.n))
  {
    var body := RenderAll(elements, tail);
    var acc := Document(elements, tail) + more;
    RenderAllSlashSafe(elements, tail);
    TerminatorFound(body, more);
    assert acc[..|body|] == body == [] + body;
    ScanRendered(p, body, [], elements, tail, Min(jointCount, MAX_JOINTS), Empty());
  }
}
