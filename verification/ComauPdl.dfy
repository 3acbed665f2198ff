// Comau PDL2 telemetry: one text line per message, its fields separated by
// commas or white space. Number parsing is a partial function supplied from
// outside.
module ComauPdl {
  import opened Basics
  import opened ByteSearch
  import opened CommandVectors
  import opened Streaming

  const NEWLINE: Byte := 0x0A
  const COMMA: Byte := 0x2C

  type Number = seq<Byte> -> Option<Word>

  // A comma or ASCII white space.
  predicate Separates(b: Byte) {
    b == COMMA || b == 0x20 || b == 0x09 || b == NEWLINE || b == 0x0C || b == 0x0D
  }

  // The fields of a line; adjacent separators enclose an empty field.
  function Split(line: seq<Byte>): (fields: seq<seq<Byte>>)
    ensures |fields| >= 1
  {
    if line == [] then [[]]
    else if Separates(line[0]) then [[]] + Split(line[1..])
    else
      var rest := Split(line[1..]);
      [[line[0]] + rest[0]] + rest[1..]
  }

  // Field i is read: it is not empty and belongs to a joint.
  predicate Read(fields: seq<seq<Byte>>, limit: nat, i: nat) {
    i < |fields| && i < limit && fields[i] != []
  }

  predicate Parsable(number: Number, fields: seq<seq<Byte>>, limit: nat) {
    forall i | 0 <= i < |fields| :: Read(fields, limit, i) ==> number(fields[i]).Some?
  }

  // Value of slot i: its own field if that is read, 0 otherwise.
  function Slot(number: Number, fields: seq<seq<Byte>>, limit: nat, i: nat): Word {
    if Read(fields, limit, i) && number(fields[i]).Some? then number(fields[i]).value else ZERO
  }

  // One more than the last slot read among the first k.
  function Active(fields: seq<seq<Byte>>, limit: nat, k: nat): (n: nat)
    ensures n <= k && (n > 0 ==> Read(fields, limit, n - 1))
    ensures forall i :: n <= i < k ==> !Read(fields, limit, i)
  {
    if k == 0 then 0 else if Read(fields, limit, k - 1) then k else Active(fields, limit, k - 1)
  }

  function ComauDecode(number: Number, jointCount: nat, acc: seq<Byte>): Option<Decoded<Word>> {
    match FindFrom(acc, [NEWLINE], 0)
    case None => None
    case Some(end) =>
      var fields, limit := Split(acc[..end]), Min(jointCount, MAX_JOINTS);
      if !Parsable(number, fields, limit) then None
      else Some(Decoded(end + 1, seq(MAX_JOINTS, i requires 0 <= i => Slot(number, fields, limit, i)),
                        Active(fields, limit, limit)))
  }

  function Comau(number: Number, jointCount: nat): Decoder<Word> {
    acc => ComauDecode(number, jointCount, acc)
  }

  // The fields of one line, in place; None if one of them is not a number.
  method ReadFields(number: Number, fields: seq<seq<Byte>>, limit: nat, values: array<Word>) returns (n: Option<nat>)
    requires limit <= MAX_JOINTS == values.Length && forall k | 0 <= k < MAX_JOINTS :: values[k] == ZERO
    modifies values
    ensures n == if Parsable(number, fields, limit) then Some(Active(fields, limit, limit)) else None
    ensures n.Some? ==> values[..] == seq(MAX_JOINTS, i requires 0 <= i => Slot(number, fields, limit, i))
  {
    var active := 0;
    for i := 0 to |fields|
      invariant forall k :: 0 <= k < i && Read(fields, limit, k) ==> number(fields[k]).Some?
      invariant forall k :: 0 <= k < MAX_JOINTS ==> values[k] == if k < i then Slot(number, fields, limit, k) else ZERO
      invariant active == Active(fields, limit, Min(i, limit))
    {
      if i < limit && fields[i] != [] {
        assert Read(fields, limit, i);
        var value := number(fields[i]);
        if value.None? {
          return None;
        }
        values[i] := value.value;
        active := i + 1;
      }
    }
    ActiveBeyondFields(fields, limit, Min(|fields|, limit));
    return Some(active);
  }

  method DecodeComau(number: Number, acc: seq<Byte>, jointCount: nat) returns (r: Option<Decoded<Word>>)
    ensures r == ComauDecode(number, jointCount, acc)
  {
    hide FindFrom, Split, Parsable, Slot, Active;
    var end := FindFrom(acc, [NEWLINE], 0);
    if end.None? {
      return None;
    }
    var fields, limit := Split(acc[..end.value]), Min(jointCount, MAX_JOINTS);
    var values := new Word[MAX_JOINTS](_ => ZERO);
    var n := ReadFields(number, fields, limit, values);
    if n.None? {
      return None;
    }
    return Some(Decoded(end.value + 1, values[..], n.value));
  }

  lemma {:induction false} ActiveBeyondFields(fields: seq<seq<Byte>>, limit: nat, k: nat)
    requires Min(|fields|, limit) <= k <= limit
    ensures Active(fields, limit, limit) == Active(fields, limit, k)
    decreases limit - k
  {
    if k < limit {
      ActiveBeyondFields(fields, limit, k + 1);
    }
  }

  lemma ComauIsStable(number: Number, jointCount: nat)
    ensures Progressing(Comau(number, jointCount)) && Stable(Comau(number, jointCount))
  {
    var d := Comau(number, jointCount);
    forall acc ensures ProgressesOn(d, acc) {
    }
    forall acc, more ensures StableOn(d, acc, more) {
      if d(acc).Some? {
        FindInAppend(acc, more, [NEWLINE], 0);
        var end := FindFrom(acc, [NEWLINE], 0).value;
        assert (acc + more)[..end] == acc[..end];
      }
    }
  }

  lemma NoLine(number: Number, jointCount: nat)
    ensures ComauDecode(number, jointCount, []).None?
  {
  }

  lemma ComauChunking(number: Number, jointCount: nat, chunks: seq<seq<Byte>>)
    ensures Progressing(Comau(number, jointCount))
    ensures Feed(Comau(number, jointCount), [], chunks) == Drain(Comau(number, jointCount), Flatten(chunks))
  {
    hide ComauDecode, Drain, Feed, Flatten;
    ComauIsStable(number, jointCount);
    NoLine(number, jointCount);
    ChunkingIndependence(Comau(number, jointCount), [], chunks);
    assert [] + Flatten(chunks) == Flatten(chunks);
  }

  // Once a line is buffered, it is ever decoded if and only if all the fields
  // it reads are numbers ...
  lemma LineCompletes(number: Number, jointCount: nat, acc: seq<Byte>)
    requires FindFrom(acc, [NEWLINE], 0).Some?
    ensures var line := acc[..FindFrom(acc, [NEWLINE], 0).value];
            (exists more :: ComauDecode(number, jointCount, acc + more).Some?) <==>
            Parsable(number, Split(line), Min(jointCount, MAX_JOINTS))
  {
    var end := FindFrom(acc, [NEWLINE], 0).value;
    forall more
      ensures FindFrom(acc + more, [NEWLINE], 0) == Some(end) && (acc + more)[..end] == acc[..end]
    {
      FindInAppend(acc, more, [NEWLINE], 0);
    }
    assert acc + [] == acc;
  }

  // ... and one bad line silences the connection for good: every later line is
  // kept behind it.
  lemma LineStall(number: Number, jointCount: nat, acc: seq<Byte>, chunks: seq<seq<Byte>>)
    requires FindFrom(acc, [NEWLINE], 0).Some?
    requires !Parsable(number, Split(acc[..FindFrom(acc, [NEWLINE], 0).value]), Min(jointCount, MAX_JOINTS))
    ensures Progressing(Comau(number, jointCount))
    ensures Feed(Comau(number, jointCount), acc, chunks) == Drained([], acc + Flatten(chunks))
  {
    var d, all := Comau(number, jointCount), acc + Flatten(chunks);
    ComauIsStable(number, jointCount);
    ChunkingIndependence(d, acc, chunks);
    FindInAppend(acc, Flatten(chunks), [NEWLINE], 0);
    var end := FindFrom(acc, [NEWLINE], 0).value;
    assert all[..end] == acc[..end];
    assert d(all).None?;
  }

  // ----------------------------------------------------------------- Lines

  predicate Plain(field: seq<Byte>) {
    forall b <- field :: b !in {0x2C, 0x20, 0x09, 0x0A, 0x0C, 0x0D}
  }

  // A line as a controller writes it: fields, and what separates them.
  datatype Line = Line(fields: seq<seq<Byte>>, seps: seq<Byte>) {
    // Fields hold neither comma nor white space; commas, blanks, tabs, form feeds
    // and carriage returns separate.
    predicate WellFormed() {
      && |fields| == |seps| + 1
      && (forall i | 0 <= i < |fields| :: Plain(fields[i]))
      && forall i | 0 <= i < |seps| :: seps[i] in {0x2C, 0x20, 0x09, 0x0C, 0x0D}
    }

    function Text(): seq<Byte>
      decreases |seps|
    {
      if fields == [] then []
      else if seps == [] then fields[0]
      else fields[0] + ([seps[0]] + Line(fields[1..], seps[1..]).Text())
    }
  }

  lemma {:induction false} SplitText(text: seq<Byte>, rest: seq<Byte>)
    requires forall b <- text :: !Separates(b)
    ensures Split(text + rest) == [text + Split(rest)[0]] + Split(rest)[1..]
    decreases |text|
  {
    if text == [] {
      assert text + rest == rest;
      assert text + Split(rest)[0] == Split(rest)[0];
    } else {
      assert !Separates(text[0]);
      assert (text + rest)[1..] == text[1..] + rest;
      SplitText(text[1..], rest);
      assert [text[0]] + (text[1..] + Split(rest)[0]) == text + Split(rest)[0];
    }
  }

  lemma SplitField(field: seq<Byte>, sep: Byte, rest: seq<Byte>)
    requires Plain(field) && sep in {0x2C, 0x20, 0x09, 0x0C, 0x0D}
    ensures Split(field + ([sep] + rest)) == [field] + Split(rest)
  {
    assert forall b <- field :: !Separates(b);
    SplitText(field, [sep] + rest);
    assert ([sep] + rest)[1..] == rest;
    assert Split([sep] + rest) == [[]] + Split(rest);
    assert field + [] == field;
  }

  lemma SplitLast(field: seq<Byte>)
    requires Plain(field)
    ensures Split(field) == [field]
  {
    assert forall b <- field :: !Separates(b);
    SplitText(field, []);
    assert field + [] == field;
  }

  // Splitting a line undoes joining its fields, whatever separates them.
  lemma {:induction false} SplitLine(l: Line)
    requires l.WellFormed()
    ensures Split(l.Text()) == l.fields
    decreases |l.seps|
  {
    hide Split, Plain;
    if l.seps == [] {
      SplitLast(l.fields[0]);
    } else {
      var tail := Line(l.fields[1..], l.seps[1..]);
      assert tail.WellFormed();
      SplitLine(tail);
      SplitField(l.fields[0], l.seps[0], tail.Text());
    }
  }

  lemma {:induction false} OneLine(l: Line)
    requires l.WellFormed()
    ensures forall b <- l.Text() :: b != NEWLINE
    decreases |l.seps|
  {
    assert Plain(l.fields[0]);
    if l.seps != [] {
      OneLine(Line(l.fields[1..], l.seps[1..]));
    }
  }

  lemma FirstNewline(line: seq<Byte>, more: seq<Byte>)
    requires forall b <- line :: b != NEWLINE
    ensures FindFrom(line + [NEWLINE] + more, [NEWLINE], 0) == Some(|line|)
    ensures (line + [NEWLINE] + more)[..|line|] == line
  {
    hide FindFrom;
    var acc := line + [NEWLINE] + more;
    forall j | 0 <= j < |line| ensures !MatchesAt(acc, [NEWLINE], j) {
      assert acc[j] == line[j] && line[j] in line;
      Mismatch(acc, [NEWLINE], j, 0);
    }
    assert MatchesAt(acc, [NEWLINE], |line|);
    FoundAt(acc, [NEWLINE], 0, |line|);
  }

  // A line whose read fields are numbers.
  predicate Readable(number: Number, jointCount: nat, l: Line) {
    l.WellFormed() && Parsable(number, l.fields, Min(jointCount, MAX_JOINTS))
  }

  // What it then means: a value per joint up to the last one read.
  function Report(number: Number, jointCount: nat, fields: seq<seq<Byte>>): (values: seq<Word>)
    ensures |values| <= MAX_JOINTS
  {
    var limit := Min(jointCount, MAX_JOINTS);
    seq(Active(fields, limit, limit), i requires 0 <= i => Slot(number, fields, limit, i))
  }

  // A readable line is consumed whole and reports what it means, whatever
  // follows it.
  lemma LineReports(number: Number, l: Line, jointCount: nat, more: seq<Byte>)
    requires Readable(number, jointCount, l)
    ensures var r, values := ComauDecode(number, jointCount, l.Text() + [NEWLINE] + more),
                             Report(number, jointCount, l.fields);
            && r.Some? && r.value.consumed == |l.Text()| + 1
            && r.value.n == |values| && |r.value.values| == MAX_JOINTS && r.value.values[..|values|] == values
  {
    hide FindFrom, Split, Slot, Active, Parsable;
    SplitLine(l);
    OneLine(l);
    FirstNewline(l.Text(), more);
  }

  // A line of numbers gives one slot per number, and is consumed whole.
  lemma LineDecodes(number: Number, l: Line, jointCount: nat, more: seq<Byte>)
    requires l.WellFormed() && |l.fields| <= Min(jointCount, MAX_JOINTS)
    requires forall f <- l.fields :: f != [] && number(f).Some?
    ensures var r := ComauDecode(number, jointCount, l.Text() + [NEWLINE] + more);
            && r.Some? && r.value.consumed == |l.Text()| + 1
            && r.value.n == |l.fields| && |r.value.values| == MAX_JOINTS
            && forall i :: 0 <= i < |l.fields| ==> r.value.values[i] == number(l.fields[i]).value
  {
    hide ComauDecode, Report;
    NumbersReport(number, l, jointCount);
    LineReports(number, l, jointCount, more);
    var values := Report(number, jointCount, l.fields);
    var all := ComauDecode(number, jointCount, l.Text() + [NEWLINE] + more).value.values;
    assert forall i :: 0 <= i < |values| ==> all[i] == all[..|values|][i];
  }

  lemma NumbersReport(number: Number, l: Line, jointCount: nat)
    requires l.WellFormed() && |l.fields| <= Min(jointCount, MAX_JOINTS)
    requires forall f <- l.fields :: f != [] && number(f).Some?
    ensures Readable(number, jointCount, l)
    ensures |Report(number, jointCount, l.fields)| == |l.fields|
    ensures forall i :: 0 <= i < |l.fields| ==> Report(number, jointCount, l.fields)[i] == number(l.fields[i]).value
  {
    hide Active, Slot, Parsable;
    AllFieldsRead(number, l.fields, Min(jointCount, MAX_JOINTS));
  }

  lemma AllFieldsRead(number: Number, texts: seq<seq<Byte>>, limit: nat)
    requires 1 <= |texts| <= limit && forall t <- texts :: t != [] && number(t).Some?
    ensures Parsable(number, texts, limit) && Active(texts, limit, limit) == |texts|
    ensures forall i :: 0 <= i < |texts| ==> Slot(number, texts, limit, i) == number(texts[i]).value
  {
    forall i | 0 <= i < |texts| ensures Read(texts, limit, i) && number(texts[i]).Some? {
      assert texts[i] in texts;
    }
    ActiveBeyondFields(texts, limit, |texts|);
  }

  // Lines one after another, in front of anything.
  function Lines(lines: seq<Line>, more: seq<Byte>): seq<Byte> {
    if lines == [] then more else lines[0].Text() + [NEWLINE] + Lines(lines[1..], more)
  }

  function Reports(number: Number, jointCount: nat, lines: seq<Line>): seq<seq<Word>> {
    if lines == [] then []
    else
      var values := Report(number, jointCount, lines[0].fields);
      (if values == [] then [] else [values]) + Reports(number, jointCount, lines[1..])
  }

  // Any number of readable lines drain to what they mean, in order, and leave
  // exactly what follows them.
  lemma {:induction false} LineStream(number: Number, jointCount: nat, lines: seq<Line>, more: seq<Byte>)
    requires forall l <- lines :: Readable(number, jointCount, l)
    ensures Progressing(Comau(number, jointCount))
    ensures Drain(Comau(number, jointCount), Lines(lines, more)) ==
            Then(Drained(Reports(number, jointCount, lines), []), Drain(Comau(number, jointCount), more))
    ensures Drain(Comau(number, jointCount), []) == Drained([], [])
    decreases |lines|
  {
    hide ComauDecode, Report, Parsable;
    var d := Comau(number, jointCount);
    ComauIsStable(number, jointCount);
    NoLine(number, jointCount);
    if lines == [] {
      assert [] + Drain(d, more).telemetry == Drain(d, more).telemetry;
    } else {
      assert Readable(number, jointCount, lines[0]);
      var line, rest := lines[0].Text(), Lines(lines[1..], more);
      var values, acc := Report(number, jointCount, lines[0].fields), line + [NEWLINE] + rest;
      LineReports(number, lines[0], jointCount, rest);
      assert acc[|line| + 1..] == rest;
      LineStream(number, jointCount, lines[1..], more);
      ThenAssociates(Drained(if values == [] then [] else [values], []),
                     Drained(Reports(number, jointCount, lines[1..]), []), Drain(d, more));
    }
  }
}
