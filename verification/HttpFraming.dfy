/** Which texts are requests: a grammar, and that the parser accepts exactly what it describes. */
module HttpFraming {
  import opened Options
  import opened Sequences
  import opened Text
  import opened HttpText
  import opened HttpParser

  datatype Field = Field(name: string, raw: string)

  predicate ValidField(f: Field) {
    ValidName(f.name) && !HasControl(f.raw)
  }

  predicate ValidFields(fields: seq<Field>) {
    forall i | 0 <= i < |fields| :: ValidField(fields[i])
  }

  function FieldLine(f: Field): string {
    f.name + ":" + f.raw
  }

  function FieldsText(fields: seq<Field>): string {
    if fields == [] then "" else FieldLine(fields[0]) + CRLF + FieldsText(fields[1..])
  }

  /** What the fields together say of the body's length. */
  function Framing(fields: seq<Field>, length: Option<U64>): Result<Option<U64>> {
    if fields == [] then Ok(length)
    else
      var effect := FieldEffect(fields[0].name, Trim(fields[0].raw), length);
      if effect.Err? then effect else Framing(fields[1..], effect.value)
  }

  /** The head of a request: request line, fields and the empty line. */
  function HeadText(m: string, t: string, v: string, fields: seq<Field>): string {
    RequestLine(m, t, v) + CRLF + FieldsText(fields) + CRLF
  }

  predicate ValidHead(m: string, t: string, v: string, fields: seq<Field>) {
    ValidMethod(m) && ValidTarget(t) && ValidVersion(v) && ValidFields(fields)
  }

  // One line

  /** A line that a CR can only follow. */
  predicate Line(line: string) {
    line != "" && forall i | 0 <= i < |line| :: line[i] != '\r'
  }

  lemma FieldIsLine(f: Field)
    requires ValidField(f)
    ensures Line(FieldLine(f))
  {
    var line := FieldLine(f);
    forall i | 0 <= i < |line| ensures line[i] != '\r' {
      if i < |f.name| {
        assert line[i] == f.name[i];
      } else if i > |f.name| {
        assert line[i] == f.raw[i - |f.name| - 1];
        assert !Control(line[i]);
      }
    }
  }

  lemma RequestLineIsLine(m: string, t: string, v: string)
    requires ValidMethod(m) && ValidTarget(t) && ValidVersion(v)
    ensures Line(RequestLine(m, t, v))
  {
    var line := RequestLine(m, t, v);
    assert |v| == 8 && forall i | 0 <= i < 8 :: v[i] != '\r';
    forall i | 0 <= i < |line| ensures line[i] != '\r' {
      if i < |m| {
        assert line[i] == m[i];
      } else if |m| < i <= |m| + |t| {
        assert line[i] == t[i - |m| - 1];
        assert !Control(line[i]);
      } else if i > |m| + |t| + 1 {
        assert line[i] == v[i - |m| - |t| - 2];
      }
    }
  }

  lemma FindLineEnd(line: string, rest: string)
    requires Line(line)
    ensures var text := line + CRLF + rest;
            Find(text, CRLF) == Some(|line|) && text[..|line|] == line && text[|line| + 2..] == rest
  {
    hide Find;
    var text := line + CRLF + rest;
    forall j: nat | j < |line| ensures !At(text, CRLF, j) {
      assert text[j + 0] == line[j] != CRLF[0];
    }
    FindIs(text, CRLF, |line|);
  }

  lemma ControlsOutsideBlanks(raw: string)
    ensures HasControl(Trim(raw)) <==> HasControl(raw)
  {
    var i, j := TrimCuts(raw);
    hide Trim;
    if k :| 0 <= k < |raw| && Control(raw[k]) {
      assert i <= k < j;
      assert raw[i..j][k - i] == raw[k];
    }
  }

  /** A well-formed field is read back as it is. */
  lemma FieldReadsBack(f: Field, length: Option<U64>)
    requires ValidField(f)
    ensures CheckLine(FieldLine(f), length) == FieldEffect(f.name, Trim(f.raw), length)
  {
    hide Find, Trim, FieldEffect;
    var line := FieldLine(f);
    ControlsOutsideBlanks(f.raw);
    hide HasControl;
    forall j: nat | j < |f.name| ensures !At(line, ":", j) {
      assert line[j + 0] == f.name[j] != ":"[0];
    }
    FindIs(line, ":", |f.name|);
    assert line[..|f.name|] == f.name && line[|f.name| + 1..] == f.raw;
  }

  /** An accepted line is a well-formed field. */
  lemma AcceptedLine(line: string, length: Option<U64>) returns (f: Field)
    requires CheckLine(line, length).Ok?
    ensures ValidField(f) && line == FieldLine(f)
  {
    hide Trim, FieldEffect, HasControl, ValidName;
    var colon := Find(line, ":").value;
    hide Find;
    f := Field(line[..colon], line[colon + 1..]);
    ControlsOutsideBlanks(f.raw);
    assert line[colon + 0] == ":"[0];
  }

  // All lines

  lemma {:induction false} FieldsReadBack(fields: seq<Field>, length: Option<U64>)
    requires ValidFields(fields)
    ensures ScanLines(FieldsText(fields), length) == Framing(fields, length)
  {
    if fields != [] {
      var f, rest := fields[0], FieldsText(fields[1..]);
      assert FieldLine(f) != "";
      hide FieldEffect, ValidField, CheckLine, FieldLine, Line;
      FieldIsLine(f);
      FindLineEnd(FieldLine(f), rest);
      FieldReadsBack(f, length);
      var effect := FieldEffect(f.name, Trim(f.raw), length);
      if effect.Ok? {
        FieldsReadBack(fields[1..], effect.value);
      }
      ScanOne(FieldsText(fields), FieldLine(f), rest, length);
    }
  }

  lemma ScanOne(text: string, line: string, rest: string, length: Option<U64>)
    requires line != "" && text == line + CRLF + rest && Find(text, CRLF) == Some(|line|)
    ensures var effect := CheckLine(line, length);
            ScanLines(text, length) == if effect.Err? then effect else ScanLines(rest, effect.value)
  {
    hide CheckLine, Find;
    assert text[..|line|] == line && text[|line| + 2..] == rest;
  }

  lemma {:induction false} AcceptedLines(text: string, length: Option<U64>) returns (fields: seq<Field>)
    requires ScanLines(text, length).Ok?
    ensures ValidFields(fields) && text == FieldsText(fields) && ScanLines(text, length) == Framing(fields, length)
    decreases |text|
  {
    if text == "" {
      fields := [];
    } else {
      hide *;
      ScanUnfold(text, length);
      var end := Find(text, CRLF).value;
      var line, rest := text[..end], text[end + 2..];
      var effect := CheckLine(line, length).value;
      SplitAtLineEnd(text, end);
      var f := AcceptedLine(line, length);
      FieldReadsBack(f, length);
      var later := AcceptedLines(rest, effect);
      fields := [f] + later;
      ConsField(f, later, length);
    }
  }

  lemma ScanUnfold(text: string, length: Option<U64>)
    requires text != "" && ScanLines(text, length).Ok?
    ensures Find(text, CRLF).Some? && Find(text, CRLF).value + 2 <= |text|
    ensures var end := Find(text, CRLF).value;
            CheckLine(text[..end], length).Ok?
            && ScanLines(text, length) == ScanLines(text[end + 2..], CheckLine(text[..end], length).value)
  {
    hide CheckLine;
  }

  lemma SplitAtLineEnd(text: string, end: nat)
    requires Find(text, CRLF) == Some(end)
    ensures end + 2 <= |text| && text == text[..end] + CRLF + text[end + 2..]
  {
    hide Find;
    assert text[end + 0] == CRLF[0] && text[end + 1] == CRLF[1];
  }

  lemma ConsField(f: Field, fields: seq<Field>, length: Option<U64>)
    requires ValidField(f) && ValidFields(fields)
    ensures ValidFields([f] + fields) && FieldsText([f] + fields) == FieldLine(f) + CRLF + FieldsText(fields)
    ensures var effect := FieldEffect(f.name, Trim(f.raw), length);
            Framing([f] + fields, length) == if effect.Err? then effect else Framing(fields, effect.value)
  {
    assert ([f] + fields)[1..] == fields;
  }

  // The end of the head

  /** A line that more follows on hides no marker. */
  lemma NoMarkerIn(line: string, rest: string)
    requires Line(line) && (rest != "" ==> rest[0] != '\r')
    ensures forall j: nat | j < |line| + 2 :: !At(line + CRLF + rest, MARKER, j)
  {
    var text := line + CRLF + rest;
    forall j: nat | j < |line| + 2 ensures !At(text, MARKER, j) {
      if j < |line| {
        assert text[j + 0] == line[j] != MARKER[0];
      } else if j == |line| {
        if j + 2 < |text| {
          assert text[j + 2] == rest[0] != MARKER[2];
        }
      } else {
        assert text[j + 0] == '\n' != MARKER[0];
      }
    }
  }

  lemma MarkerLater(prefix: string, rest: string)
    requires forall j: nat | j < |prefix| :: !At(prefix + rest, MARKER, j)
    requires Find(rest, MARKER).Some?
    ensures Find(prefix + rest, MARKER) == Some(|prefix| + Find(rest, MARKER).value)
  {
    hide *;
    var text, found := prefix + rest, Find(rest, MARKER).value;
    forall j: nat | j < |prefix| + found ensures !At(text, MARKER, j) {
      if j >= |prefix| {
        AtLater(prefix, rest, j - |prefix|);
        assert !At(rest, MARKER, j - |prefix|);
      }
    }
    AtLater(prefix, rest, found);
    FindIs(text, MARKER, |prefix| + found);
  }

  lemma AtLater(prefix: string, rest: string, j: nat)
    ensures At(prefix + rest, MARKER, |prefix| + j) <==> At(rest, MARKER, j)
  {
    var text := prefix + rest;
    assert forall i | |prefix| <= i < |text| :: text[i] == rest[i - |prefix|];
  }

  lemma MarkerAtOnce(line: string, rest: string)
    requires Line(line)
    ensures Find(line + CRLF + (CRLF + rest), MARKER) == Some(|line|)
  {
    hide Find;
    var text := line + CRLF + (CRLF + rest);
    forall j: nat | j < |line| ensures !At(text, MARKER, j) {
      assert text[j + 0] == line[j] != MARKER[0];
    }
    FindIs(text, MARKER, |line|);
  }

  /** The first marker ends the last line. */
  lemma {:induction false} MarkerEndsFields(line: string, fields: seq<Field>, rest: string)
    requires Line(line) && ValidFields(fields)
    ensures Find(line + CRLF + (FieldsText(fields) + (CRLF + rest)), MARKER) == Some(|line| + |FieldsText(fields)|)
    decreases |fields|
  {
    hide *;
    if fields == [] {
      MarkerAtOnce(line, rest);
      NoFields(fields, rest);
    } else {
      var next, later := FieldLine(fields[0]), FieldsText(fields[1..]) + (CRLF + rest);
      FieldsOneByOne(fields);
      FieldIsLine(fields[0]);
      LineStarts(next);
      MarkerEndsFields(next, fields[1..], rest);
      FieldsUnfold(fields, rest);
      var tail := next + CRLF + later;
      StartsWith(next, CRLF + later);
      assert next + (CRLF + later) == tail;
      NoMarkerIn(line, tail);
      MarkerLater(line + CRLF, tail);
    }
  }

  lemma FieldsOneByOne(fields: seq<Field>)
    requires ValidFields(fields) && fields != []
    ensures ValidField(fields[0]) && ValidFields(fields[1..])
  {
    hide ValidField;
  }

  lemma LineStarts(line: string)
    requires Line(line)
    ensures line != "" && line[0] != '\r'
  {
  }

  lemma NoFields(fields: seq<Field>, rest: string)
    requires fields == []
    ensures FieldsText(fields) == "" && FieldsText(fields) + (CRLF + rest) == CRLF + rest
  {
  }

  lemma StartsWith(line: string, rest: string)
    requires line != ""
    ensures (line + rest)[0] == line[0]
  {
  }

  lemma FieldsUnfold(fields: seq<Field>, rest: string)
    requires fields != []
    ensures FieldsText(fields) + (CRLF + rest) == FieldLine(fields[0]) + CRLF + (FieldsText(fields[1..]) + (CRLF + rest))
    ensures |FieldsText(fields)| == |FieldLine(fields[0])| + 2 + |FieldsText(fields[1..])|
  {
    var line, later := FieldLine(fields[0]), FieldsText(fields[1..]);
    assert FieldsText(fields) == line + CRLF + later;
    hide *;
    Regroup(line + CRLF, later, CRLF + rest);
  }
}
