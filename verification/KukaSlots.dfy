// What a KUKA document publishes, slot by slot: which elements are read, where
// their values go, and which documents lose some.
module KukaSlots {
  import opened Basics
  import opened ByteSearch
  import opened CommandVectors
  import opened Streaming
  import opened KukaKrl

  predicate Sends(e: Element) {
    SEND <= e.name
  }

  // The slot a SEND element names, or the first unused one.
  function Target(p: Parser, e: Element, used: nat): nat {
    match BracketIndex(p, e.name)
    case Some(i) => if 1 <= i <= MAX_JOINTS then i - 1 else used
    case None => used
  }

  // Slots in use after k elements: one more than the highest named so far.
  function Used(p: Parser, elements: seq<Element>, k: nat): nat
    requires k <= |elements|
  {
    if k == 0 then 0
    else
      var before := Used(p, elements, k - 1);
      if Sends(elements[k - 1]) then Max(before, Target(p, elements[k - 1], before) + 1) else before
  }

  function Max(a: nat, b: nat): nat {
    if a < b then b else a
  }

  predicate IsNumber(p: Parser, e: Element) {
    p.number(e.text).Some?
  }

  // Element j is read if it and all earlier ones hold numbers, and the earlier
  // ones leave a joint unused.
  predicate Reads(p: Parser, elements: seq<Element>, limit: nat, j: nat) {
    && j < |elements|
    && (forall i | 0 <= i <= j :: IsNumber(p, elements[i]))
    && Used(p, elements, j) < limit
  }

  predicate Fills(p: Parser, elements: seq<Element>, limit: nat, j: nat, slot: nat) {
    Reads(p, elements, limit, j) && Sends(elements[j]) && Target(p, elements[j], Used(p, elements, j)) == slot
  }

  lemma {:induction false} UsedGrows(p: Parser, elements: seq<Element>, i: nat, j: nat)
    requires i <= j <= |elements|
    ensures Used(p, elements, i) <= Used(p, elements, j)
    decreases j
  {
    if i < j {
      UsedGrows(p, elements, i, j - 1);
    }
  }

  lemma ReadsEarlier(p: Parser, elements: seq<Element>, limit: nat, i: nat, j: nat)
    requires i <= j && Reads(p, elements, limit, j)
    ensures Reads(p, elements, limit, i)
  {
    UsedGrows(p, elements, i, j);
  }

  // The elements read are a front of the document, this many.
  function ReadCount(p: Parser, elements: seq<Element>, limit: nat, k: nat): (r: nat)
    requires k <= |elements|
    ensures r <= k && forall j | 0 <= j < k :: Reads(p, elements, limit, j) <==> j < r
  {
    if k == 0 then 0
    else if Reads(p, elements, limit, k - 1) then
      assert forall j | 0 <= j < k :: Reads(p, elements, limit, j) by {
        forall j | 0 <= j < k {
          ReadsEarlier(p, elements, limit, j, k - 1);
        }
      }
      k
    else ReadCount(p, elements, limit, k - 1)
  }

  // The last of the first k elements that fills a slot.
  function LastFill(p: Parser, elements: seq<Element>, limit: nat, k: nat, slot: nat): (r: Option<nat>)
    requires k <= |elements|
    ensures match r
            case None => forall j | 0 <= j < k :: !Fills(p, elements, limit, j, slot)
            case Some(l) => l < k && Fills(p, elements, limit, l, slot)
                            && forall j | l < j < k :: !Fills(p, elements, limit, j, slot)
  {
    if k == 0 then None
    else if Fills(p, elements, limit, k - 1, slot) then Some(k - 1)
    else LastFill(p, elements, limit, k - 1, slot)
  }

  function Held(p: Parser, elements: seq<Element>, limit: nat, k: nat, slot: nat): Word
    requires k <= |elements|
  {
    match LastFill(p, elements, limit, k, slot)
    case None => ZERO
    case Some(j) => p.number(elements[j].text).value
  }

  // ------------------------------------------------ The loop, from its end

  predicate AllRead(p: Parser, elements: seq<Element>, limit: nat, t: Table)
    requires t.Valid() && limit <= MAX_JOINTS
    decreases |elements|
  {
    elements == [] ||
    (&& IsNumber(p, elements[0]) && t.n < limit
     && AllRead(p, elements[1..], limit, Store(p, t, elements[0].name, p.number(elements[0].text).value)))
  }

  lemma {:induction false} MeaningSnoc(p: Parser, elements: seq<Element>, e: Element, limit: nat, t: Table)
    requires t.Valid() && limit <= MAX_JOINTS
    ensures var r := Meaning(p, elements, limit, t);
            var read := AllRead(p, elements, limit, t) && IsNumber(p, e) && r.n < limit;
            && AllRead(p, elements + [e], limit, t) == read
            && Meaning(p, elements + [e], limit, t) ==
               if read then Store(p, r, e.name, p.number(e.text).value) else r
    decreases |elements|
  {
    hide Store;
    if elements == [] {
      assert elements + [e] == [e] && [e][1..] == [];
    } else {
      assert (elements + [e])[1..] == elements[1..] + [e];
      if IsNumber(p, elements[0]) && t.n < limit {
        MeaningSnoc(p, elements[1..], e, limit, Store(p, t, elements[0].name, p.number(elements[0].text).value));
      }
    }
  }

  // An element is read after all before it.
  lemma CountNext(p: Parser, elements: seq<Element>, limit: nat, j: nat)
    requires j < |elements|
    ensures Reads(p, elements, limit, j) <==>
            ReadCount(p, elements, limit, j) == j && IsNumber(p, elements[j]) && Used(p, elements, j) < limit
    ensures ReadCount(p, elements, limit, j + 1) ==
            if Reads(p, elements, limit, j) then j + 1 else ReadCount(p, elements, limit, j)
  {
    hide IsNumber, Used;
    if Reads(p, elements, limit, j) && j > 0 {
      ReadsEarlier(p, elements, limit, j - 1, j);
    }
    if ReadCount(p, elements, limit, j) == j && j > 0 {
      assert Reads(p, elements, limit, j - 1);
    }
  }

  lemma HeldNext(p: Parser, elements: seq<Element>, limit: nat, j: nat, slot: nat)
    requires j < |elements|
    ensures Held(p, elements, limit, j + 1, slot) ==
            if Fills(p, elements, limit, j, slot) then p.number(elements[j].text).value
            else Held(p, elements, limit, j, slot)
  {
    hide Fills;
  }

  // The table after the first k elements, in terms of positions only.
  lemma {:induction false} TableAfter(p: Parser, elements: seq<Element>, limit: nat, k: nat, slot: nat)
    requires k <= |elements| && limit <= MAX_JOINTS && slot < MAX_JOINTS
    ensures var t := Meaning(p, elements[..k], limit, Empty());
            && AllRead(p, elements[..k], limit, Empty()) == (ReadCount(p, elements, limit, k) == k)
            && t.n == Used(p, elements, ReadCount(p, elements, limit, k))
            && t.values[slot] == Held(p, elements, limit, k, slot)
    decreases k
  {
    hide BracketIndex, Store, Reads;
    if k == 0 {
      assert elements[..0] == [];
    } else {
      hide Held, ReadCount, Meaning, AllRead, Target, Sends;
      var e, t := elements[k - 1], Meaning(p, elements[..k - 1], limit, Empty());
      TableAfter(p, elements, limit, k - 1, slot);
      assert elements[..k] == elements[..k - 1] + [e];
      MeaningSnoc(p, elements[..k - 1], e, limit, Empty());
      CountNext(p, elements, limit, k - 1);
      HeldNext(p, elements, limit, k - 1, slot);
      if Reads(p, elements, limit, k - 1) {
        StoreFills(p, t, e, slot);
      }
    }
  }

  lemma StoreFills(p: Parser, t: Table, e: Element, slot: nat)
    requires t.Valid() && t.n < MAX_JOINTS && slot < MAX_JOINTS && IsNumber(p, e)
    ensures var v := p.number(e.text).value;
            var r := Store(p, t, e.name, v);
            && r.values[slot] == (if Sends(e) && Target(p, e, t.n) == slot then v else t.values[slot])
            && r.n == if Sends(e) then Max(t.n, Target(p, e, t.n) + 1) else t.n
  {
  }

  // ------------------------------------------------------------- Documents

  // What a well-formed document publishes: every slot holds the value of the
  // last element read that fills it, zero if there is none, and as many slots
  // are active as the elements read use.
  lemma DocumentSlots(p: Parser, jointCount: nat, elements: seq<Element>, tail: seq<Byte>, more: seq<Byte>,
                      slot: nat)
    requires forall e <- elements :: e.WellFormed()
    requires Markup(tail) && slot < MAX_JOINTS
    ensures var r, limit := KukaDecode(p, jointCount, Document(elements, tail) + more), Min(jointCount, MAX_JOINTS);
            && r.Some? && r.value.consumed == |Document(elements, tail)| && |r.value.values| == MAX_JOINTS
            && r.value.n == Used(p, elements, ReadCount(p, elements, limit, |elements|))
            && r.value.values[slot] == Held(p, elements, limit, |elements|, slot)
  {
    hide KukaDecode, Meaning, Held, Used;
    var limit := Min(jointCount, MAX_JOINTS);
    DocumentDecodes(p, jointCount, elements, tail, more);
    assert elements[..|elements|] == elements;
    TableAfter(p, elements, limit, |elements|, slot);
  }

  // A document as a controller sends it.
  datatype Message = Message(elements: seq<Element>, tail: seq<Byte>) {
    predicate WellFormed() {
      (forall e <- elements :: e.WellFormed()) && Markup(tail)
    }

    function Bytes(): seq<Byte> {
      Document(elements, tail)
    }
  }

  // What it means: a value per slot used by the elements read.
  function Report(p: Parser, jointCount: nat, m: Message): seq<Word> {
    var limit, k := Min(jointCount, MAX_JOINTS), |m.elements|;
    seq(Used(p, m.elements, ReadCount(p, m.elements, limit, k)), slot requires 0 <= slot =>
      Held(p, m.elements, limit, k, slot))
  }

  lemma DocumentReports(p: Parser, jointCount: nat, m: Message, more: seq<Byte>)
    requires m.WellFormed()
    ensures var r, values := KukaDecode(p, jointCount, m.Bytes() + more), Report(p, jointCount, m);
            && r.Some? && r.value.consumed == |m.Bytes()|
            && r.value.n == |values| <= |r.value.values| && r.value.values[..|values|] == values
  {
    hide KukaDecode, Held, Used, ReadCount, Document, Markup;
    KukaIsStable(p, jointCount);
    var r, values := KukaDecode(p, jointCount, m.Bytes() + more), Report(p, jointCount, m);
    DocumentSlots(p, jointCount, m.elements, m.tail, more, 0);
    assert ProgressesOn(Kuka(p, jointCount), m.Bytes() + more);
    forall slot | 0 <= slot < |values| ensures r.value.values[slot] == values[slot] {
      DocumentSlots(p, jointCount, m.elements, m.tail, more, slot);
    }
  }

  // Documents one after another, in front of anything.
  function Documents(ms: seq<Message>, more: seq<Byte>): seq<Byte> {
    if ms == [] then more else ms[0].Bytes() + Documents(ms[1..], more)
  }

  function Reports(p: Parser, jointCount: nat, ms: seq<Message>): seq<seq<Word>> {
    if ms == [] then []
    else
      var values := Report(p, jointCount, ms[0]);
      (if values == [] then [] else [values]) + Reports(p, jointCount, ms[1..])
  }

  lemma NoDocument(p: Parser, jointCount: nat)
    ensures KukaDecode(p, jointCount, []).None?
  {
  }

  // Any number of well-formed documents drain to what they mean, in order, and
  // leave exactly what follows them.
  lemma {:induction false} DocumentStream(p: Parser, jointCount: nat, ms: seq<Message>, more: seq<Byte>)
    requires forall m <- ms :: m.WellFormed()
    ensures Progressing(Kuka(p, jointCount))
    ensures Drain(Kuka(p, jointCount), Documents(ms, more)) ==
            Then(Drained(Reports(p, jointCount, ms), []), Drain(Kuka(p, jointCount), more))
    ensures Drain(Kuka(p, jointCount), []) == Drained([], [])
    decreases |ms|
  {
    hide KukaDecode, Report, Document, Markup;
    var d := Kuka(p, jointCount);
    KukaIsStable(p, jointCount);
    NoDocument(p, jointCount);
    if ms == [] {
      assert [] + Drain(d, more).telemetry == Drain(d, more).telemetry;
    } else {
      var text, rest := ms[0].Bytes(), Documents(ms[1..], more);
      var values, acc := Report(p, jointCount, ms[0]), text + rest;
      assert ms[0].WellFormed();
      DocumentReports(p, jointCount, ms[0], rest);
      assert acc[|text|..] == rest;
      DocumentStream(p, jointCount, ms[1..], more);
      ThenAssociates(Drained(if values == [] then [] else [values], []),
                     Drained(Reports(p, jointCount, ms[1..]), []), Drain(d, more));
    }
  }

  // All elements are read if and only if all hold numbers and those before the
  // last leave a joint unused.
  lemma AllReadExactly(p: Parser, elements: seq<Element>, limit: nat)
    requires elements != []
    ensures ReadCount(p, elements, limit, |elements|) == |elements| <==>
            && (forall i | 0 <= i < |elements| :: IsNumber(p, elements[i]))
            && Used(p, elements, |elements| - 1) < limit
  {
    var m := |elements| - 1;
    assert Reads(p, elements, limit, m) <==> m < ReadCount(p, elements, limit, |elements|);
  }

  // The index is what stands between the first brackets, however many digits it
  // has; a name without them has none.
  lemma IndexBetween(p: Parser, name: seq<Byte>, before: seq<Byte>, digits: seq<Byte>, after: seq<Byte>)
    requires name == before + ([OPEN_BRACKET] + (digits + ([CLOSE_BRACKET] + after)))
    requires OPEN_BRACKET !in before && CLOSE_BRACKET !in before + digits
    ensures BracketIndex(p, name) == p.index(digits)
  {
    hide FindFrom, BracketIndex;
    var opening, closing := [OPEN_BRACKET], [CLOSE_BRACKET];
    var front := before + opening + digits;
    assert name == [] + (before + (opening + (digits + (closing + after))));
    EndFound(name, [], before, opening, digits + (closing + after));
    assert name == [] + (front + (closing + after));
    EndFound(name, [], front, closing, after);
    assert name[|before| + 1..|front|] == digits;
    BracketsAt(p, name, |before|, |front|);
  }

  lemma BracketsAt(p: Parser, name: seq<Byte>, open: nat, close: nat)
    requires FindFrom(name, [OPEN_BRACKET], 0) == Some(open) && FindFrom(name, [CLOSE_BRACKET], 0) == Some(close)
    requires open < close < |name|
    ensures BracketIndex(p, name) == p.index(name[open + 1..close])
  {
    hide FindFrom;
  }

  lemma NoIndex(p: Parser, name: seq<Byte>)
    requires OPEN_BRACKET !in name || CLOSE_BRACKET !in name
    ensures BracketIndex(p, name) == None
  {
    hide FindFrom;
    var missing := [if OPEN_BRACKET !in name then OPEN_BRACKET else CLOSE_BRACKET];
    forall j | 0 <= j ensures !MatchesAt(name, missing, j) {
      if j < |name| {
        assert name[j] in name;
        Mismatch(name, missing, j, 0);
      }
    }
    NotFound(name, missing, 0);
  }

  // An element names its joint, or none that exists and takes the next one.
  predicate NamesNext(p: Parser, e: Element, j: nat) {
    Sends(e) && match BracketIndex(p, e.name)
                case None => true
                case Some(i) => i == j + 1 || i == 0 || i > MAX_JOINTS
  }

  // Numbers for the joints in order: SEND[1], SEND[2], ..., or plain SEND.
  predicate InOrder(p: Parser, elements: seq<Element>) {
    forall j | 0 <= j < |elements| :: NamesNext(p, elements[j], j) && IsNumber(p, elements[j])
  }

  // The document a controller sends: every joint gets its value.
  lemma InOrderDocument(p: Parser, jointCount: nat, elements: seq<Element>, tail: seq<Byte>, more: seq<Byte>, j: nat)
    requires forall e <- elements :: e.WellFormed()
    requires Markup(tail) && InOrder(p, elements) && j < |elements| <= Min(jointCount, MAX_JOINTS)
    ensures var r := KukaDecode(p, jointCount, Document(elements, tail) + more);
            && r.Some? && r.value.consumed == |Document(elements, tail)| && |r.value.values| == MAX_JOINTS
            && r.value.n == |elements|
            && r.value.values[j] == p.number(elements[j].text).value
  {
    hide KukaDecode, Document, Markup, BracketIndex;
    var limit, m := Min(jointCount, MAX_JOINTS), |elements|;
    DocumentSlots(p, jointCount, elements, tail, more, j);
    forall i | 0 <= i <= m ensures Used(p, elements, i) == i {
      UsedInOrder(p, elements, i);
    }
    assert Reads(p, elements, limit, m - 1);
    ReadsEarlier(p, elements, limit, j, m - 1);
    assert Fills(p, elements, limit, j, j);
    assert forall i | j < i < m :: !Fills(p, elements, limit, i, j);
  }

  lemma {:induction false} UsedInOrder(p: Parser, elements: seq<Element>, k: nat)
    requires InOrder(p, elements) && k <= |elements| <= MAX_JOINTS
    ensures Used(p, elements, k) == k
    decreases k
  {
    if k > 0 {
      UsedInOrder(p, elements, k - 1);
    }
  }

  // An element that names the last joint ends the document for all behind it.
  lemma LastJointEnds(p: Parser, elements: seq<Element>, limit: nat, j: nat, i: nat)
    requires j < i < |elements| && Sends(elements[j])
    requires Target(p, elements[j], Used(p, elements, j)) + 1 >= limit
    ensures !Reads(p, elements, limit, i)
  {
    UsedGrows(p, elements, j + 1, i);
  }

  // SEND[d] with a one-digit index.
  function Named(digit: Byte): seq<Byte> {
    SEND + ([OPEN_BRACKET] + ([digit] + [CLOSE_BRACKET]))
  }

  lemma NamedIndex(p: Parser, digit: Byte)
    requires digit != OPEN_BRACKET && digit != CLOSE_BRACKET
    ensures BracketIndex(p, Named(digit)) == p.index([digit])
  {
    IndexBetween(p, Named(digit), SEND, [digit], []);
  }

  lemma NoSlash(s: seq<Byte>)
    requires SLASH !in s
    ensures SlashSafe(s)
  {
    forall i | 0 <= i < |s| ensures ApartAt(s, SLASH, 0x52, i) {
      assert s[i] in s;
    }
  }

  // The witness: six joints, SEND[6] before SEND[1]. Six slots are published,
  // the first of them zero, whatever the second element says.
  lemma OutOfOrderLoses(p: Parser, last: seq<Byte>, first: seq<Byte>, more: seq<Byte>)
    requires p.index([0x36]) == Some(6) && p.index([0x31]) == Some(1)
    requires p.number(last).Some? && p.number(first).Some?
    requires LESS !in last + first && SLASH !in last + first
    ensures var e, f := Element([], Named(0x36), last), Element([], Named(0x31), first);
            var r := KukaDecode(p, 6, Document([e, f], []) + more);
            && r.Some? && r.value.n == 6 && |r.value.values| == MAX_JOINTS
            && r.value.values[5] == p.number(last).value && r.value.values[0] == ZERO
  {
    hide BracketIndex, FindFrom, KukaDecode, Document;
    NamedIndex(p, 0x36);
    var e, f := Element([], Named(0x36), last), Element([], Named(0x31), first);
    NoSlash(last);
    NoSlash(first);
    NoSlash(Named(0x36));
    NoSlash(Named(0x31));
    DocumentDecodes(p, 6, [e, f], [], more);
    assert [e, f][1..] == [f];
    assert SEND <= e.name;
    StoreFills(p, Empty(), e, 5);
    StoreFills(p, Empty(), e, 0);
  }
}
