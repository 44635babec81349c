/** What the HTTP parser promises: it accepts exactly the well-formed requests, reads back what was written, and no
    request is the beginning of another. */
module HttpGuarantees {
  import opened Options
  import opened Text
  import opened HttpText
  import opened HttpParser
  import opened HttpFraming

  // The head

  lemma HeadJoined(m: string, t: string, v: string, fields: seq<Field>, rest: string)
    ensures var line, text := RequestLine(m, t, v), HeadText(m, t, v, fields) + rest;
            && text == line + CRLF + (FieldsText(fields) + (CRLF + rest))
            && |HeadText(m, t, v, fields)| == |line| + |FieldsText(fields)| + 4
            && text[..|line| + |FieldsText(fields)| + 2] == line + CRLF + FieldsText(fields)
            && text[..|HeadText(m, t, v, fields)|] == HeadText(m, t, v, fields)
            && text[|HeadText(m, t, v, fields)|..] == rest
  {
    hide RequestLine, FieldsText;
  }

  /** A well-formed head is found whole, whatever follows it, and is judged by its size and its fields alone. */
  lemma HeadReadsBack(m: string, t: string, v: string, fields: seq<Field>, rest: string, maxHeaderBytes: nat, maxRequestBytes: nat)
    requires ValidHead(m, t, v, fields)
    ensures var text, size := HeadText(m, t, v, fields) + rest, |HeadText(m, t, v, fields)|;
            && size >= 4 && Find(text, MARKER) == Some(size - 4)
            && HeadersOf(text, maxHeaderBytes, maxRequestBytes) ==
               if size > maxHeaderBytes then Err(HeadersTooLarge)
               else if size > maxRequestBytes then Err(RequestTooLarge)
               else if Framing(fields, None).Err? then Err(Framing(fields, None).error)
               else Ok(Headers(size, Framing(fields, None).value))
    ensures Find((HeadText(m, t, v, fields) + rest)[..|HeadText(m, t, v, fields)| - 2], CRLF) == Some(|RequestLine(m, t, v)|)
    ensures (HeadText(m, t, v, fields) + rest)[..|RequestLine(m, t, v)|] == RequestLine(m, t, v)
  {
    hide *;
    var line := RequestLine(m, t, v);
    HeadParts(m, t, v, fields);
    RequestLineIsLine(m, t, v);
    RequestLineReadsBack(m, t, v);
    HeadJoined(m, t, v, fields, rest);
    MarkerEndsFields(line, fields, rest);
    FindLineEnd(line, FieldsText(fields));
    FieldsReadBack(fields, None);
    var text := HeadText(m, t, v, fields) + rest;
    assert text[..|line|] == (line + CRLF + FieldsText(fields))[..|line|];
    HeadersFrom(text, |HeadText(m, t, v, fields)| - 4, |line|, maxHeaderBytes, maxRequestBytes);
  }

  lemma HeadParts(m: string, t: string, v: string, fields: seq<Field>)
    requires ValidHead(m, t, v, fields)
    ensures ValidMethod(m) && ValidTarget(t) && ValidVersion(v) && ValidFields(fields)
  {
    hide ValidMethod, ValidTarget, ValidVersion, ValidFields;
  }

  /** The result for a head whose ends are known. */
  lemma HeadersFrom(text: string, marker: nat, lineEnd: nat, maxHeaderBytes: nat, maxRequestBytes: nat)
    requires Find(text, MARKER) == Some(marker) && marker + 4 <= |text|
    requires Find(text[..marker + 2], CRLF) == Some(lineEnd) && lineEnd + 2 <= marker + 2
    requires ReadRequestLine(text[..marker + 2][..lineEnd]).Some?
    ensures var length := ScanLines(text[..marker + 2][lineEnd + 2..], None);
            HeadersOf(text, maxHeaderBytes, maxRequestBytes) ==
            if marker + 4 > maxHeaderBytes then Err(HeadersTooLarge)
            else if marker + 4 > maxRequestBytes then Err(RequestTooLarge)
            else if length.Err? then Err(length.error)
            else Ok(Headers(marker + 4, length.value))
  {
    hide Find, ScanLines, ReadRequestLine;
  }

  /** Only well-formed heads are accepted, and only those whose fields make the framing clear. */
  lemma AcceptedHead(block: string, maxHeaderBytes: nat, maxRequestBytes: nat)
    returns (m: string, t: string, v: string, fields: seq<Field>)
    requires HeadersOf(block, maxHeaderBytes, maxRequestBytes).Ok?
    ensures ValidHead(m, t, v, fields)
    ensures var headers := HeadersOf(block, maxHeaderBytes, maxRequestBytes).value;
            && headers.headerBytes <= |block| && block[..headers.headerBytes] == HeadText(m, t, v, fields)
            && headers.headerBytes <= maxHeaderBytes && headers.headerBytes <= maxRequestBytes
            && Framing(fields, None) == Ok(headers.contentLength)
  {
    hide Find, At, ScanLines, ReadRequestLine, Framing, FieldsText, RequestLine, ValidMethod, ValidTarget, ValidVersion, ValidFields;
    var marker := Find(block, MARKER).value;
    MarkerIsCrlfTwice(block, marker);
    var head := block[..marker + 2];
    var firstEnd := Find(head, CRLF).value;
    SplitAtLineEnd(head, firstEnd);
    var line := head[..firstEnd];
    v := AcceptedRequestLine(line);
    m, t := ReadRequestLine(line).value.0, ReadRequestLine(line).value.1;
    fields := AcceptedLines(head[firstEnd + 2..], None);
  }

  lemma MarkerIsCrlfTwice(block: string, marker: nat)
    requires Find(block, MARKER) == Some(marker)
    ensures marker + 4 <= |block| && block[..marker + 4] == block[..marker + 2] + CRLF
    ensures At(block[..marker + 2], CRLF, marker)
  {
    hide *;
    MarkerBytes(block, marker);
    CrlfAt(block[..marker + 2], marker);
    TwoBytes(block[marker + 2..marker + 4]);
    assert block[..marker + 4] == block[..marker + 2] + block[marker + 2..marker + 4];
  }

  lemma TwoBytes(text: string)
    requires |text| == 2 && text[0] == '\r' && text[1] == '\n'
    ensures text == CRLF
  {
  }

  lemma CrlfAt(text: string, i: nat)
    requires i + 2 <= |text| && text[i] == '\r' && text[i + 1] == '\n'
    ensures At(text, CRLF, i)
  {
    forall k | 0 <= k < 2 ensures text[i + k] == CRLF[k] {
      assert k == 0 || k == 1;
    }
  }

  lemma MarkerBytes(block: string, marker: nat)
    requires At(block, MARKER, marker)
    ensures marker + 4 <= |block|
    ensures block[marker] == '\r' && block[marker + 1] == '\n' && block[marker + 2] == '\r' && block[marker + 3] == '\n'
  {
    assert block[marker + 0] == MARKER[0] && block[marker + 1] == MARKER[1]
        && block[marker + 2] == MARKER[2] && block[marker + 3] == MARKER[3];
  }

  /** The error for a missing request line is never reported: what ends with the marker has a first line. */
  lemma RequestLineIsNeverMissing(block: string, maxHeaderBytes: nat, maxRequestBytes: nat)
    ensures HeadersOf(block, maxHeaderBytes, maxRequestBytes) != Err(RequestLineMissing)
  {
    hide ScanLines, ReadRequestLine, Find;
    if Find(block, MARKER).Some? {
      MarkerIsCrlfTwice(block, Find(block, MARKER).value);
      assert Find(block[..Find(block, MARKER).value + 2], CRLF).Some?;
      ScanErrors(block[..Find(block, MARKER).value + 2][Find(block[..Find(block, MARKER).value + 2], CRLF).value + 2..], None);
    }
  }

  lemma {:induction false} ScanErrors(text: string, length: Option<U64>)
    ensures ScanLines(text, length) != Err(RequestLineMissing)
    decreases |text|
  {
    hide Find, CheckLine;
    if text != "" && Find(text, CRLF).Some? && Find(text, CRLF).value != 0 {
      var end := Find(text, CRLF).value;
      LineErrors(text[..end], length);
      if CheckLine(text[..end], length).Ok? {
        ScanErrors(text[end + 2..], CheckLine(text[..end], length).value);
      }
    }
  }

  lemma LineErrors(line: string, length: Option<U64>)
    ensures CheckLine(line, length) != Err(RequestLineMissing)
  {
    hide Find, Trim, HasControl, SameIgnoringCase, IsDecimal, ValidName;
  }

  // The request

  /** Path and query are what the first question mark separates. */
  lemma TargetRejoins(target: string)
    ensures var (path, query) := SplitTarget(target);
            && (forall i | 0 <= i < |path| :: path[i] != '?')
            && target == path + (if path == target then "" else "?" + query)
            && (path == target ==> query == "")
  {
    var mark := Find(target, "?");
    var path := SplitTarget(target).0;
    hide Find;
    forall i: nat | i < |path| ensures path[i] != '?' {
      assert !At(target, "?", i);
      assert path[i] == target[i + 0];
    }
    if mark.Some? {
      assert target[mark.value + 0] == "?"[0];
    }
  }

  /** The body length that the fields announce. */
  function Announced(length: Option<U64>): nat {
    if length.None? then 0 else length.value
  }

  lemma HeadersOfPrefix(m: string, t: string, v: string, fields: seq<Field>)
    ensures HeadText(m, t, v, fields) + "" == HeadText(m, t, v, fields)
  {
  }

  /** Every well-formed request within the limits is accepted and read back part by part. */
  lemma RequestReadsBack(m: string, t: string, v: string, fields: seq<Field>, body: string, maxHeaderBytes: nat, maxRequestBytes: nat)
    requires ValidHead(m, t, v, fields) && Framing(fields, None).Ok?
    requires |body| == Announced(Framing(fields, None).value)
    requires |HeadText(m, t, v, fields)| <= maxHeaderBytes && |HeadText(m, t, v, fields)| + |body| <= maxRequestBytes
    ensures var (path, query) := SplitTarget(t);
            RequestOf(HeadText(m, t, v, fields) + body, maxHeaderBytes, maxRequestBytes) ==
            Ok(Request(m, path, query, body, Headers(|HeadText(m, t, v, fields)|, Framing(fields, None).value)))
  {
    hide *;
    HeadParts(m, t, v, fields);
    HeadReadsBack(m, t, v, fields, body, maxHeaderBytes, maxRequestBytes);
    HeadReadsBack(m, t, v, fields, "", maxHeaderBytes, maxRequestBytes);
    HeadersOfPrefix(m, t, v, fields);
    HeadJoined(m, t, v, fields, body);
    RequestLineReadsBack(m, t, v);
    var text, line, size := HeadText(m, t, v, fields) + body, RequestLine(m, t, v), |HeadText(m, t, v, fields)|;
    assert text[..size - 2][..|line|] == line;
    Framed(|text|, size, Framing(fields, None).value, maxRequestBytes);
    RequestFrom(text, size - 4, |line|, Headers(size, Framing(fields, None).value), m, t, maxHeaderBytes, maxRequestBytes);
  }

  lemma Framed(size: nat, bodyStart: nat, length: Option<U64>, maxRequestBytes: nat)
    requires size == bodyStart + Announced(length) <= maxRequestBytes
    ensures Frame(size, bodyStart, length, maxRequestBytes) == None
  {
  }

  /** The result for a request whose ends are known. */
  lemma RequestFrom(text: string, marker: nat, lineEnd: nat, headers: Headers, m: string, t: string,
                    maxHeaderBytes: nat, maxRequestBytes: nat)
    requires |text| <= maxRequestBytes && Find(text, MARKER) == Some(marker) && marker + 4 <= |text|
    requires HeadersOf(text[..marker + 4], maxHeaderBytes, maxRequestBytes) == Ok(headers)
    requires Find(text[..marker + 2], CRLF) == Some(lineEnd) && lineEnd <= marker + 2
    requires ReadRequestLine(text[..marker + 2][..lineEnd]) == Some((m, t))
    requires Frame(|text|, marker + 4, headers.contentLength, maxRequestBytes) == None
    ensures var (path, query) := SplitTarget(t);
            RequestOf(text, maxHeaderBytes, maxRequestBytes) == Ok(Request(m, path, query, text[marker + 4..], headers))
  {
    hide Find, At, HeadersOf, ReadRequestLine, Frame, SplitTarget, MARKER, CRLF;
  }

  /** Only well-formed requests within the limits are accepted. */
  lemma AcceptedRequest(text: string, maxHeaderBytes: nat, maxRequestBytes: nat)
    returns (m: string, t: string, v: string, fields: seq<Field>, body: string)
    requires RequestOf(text, maxHeaderBytes, maxRequestBytes).Ok?
    ensures ValidHead(m, t, v, fields) && Framing(fields, None).Ok? && text == HeadText(m, t, v, fields) + body
    ensures |body| == Announced(Framing(fields, None).value)
    ensures |HeadText(m, t, v, fields)| <= maxHeaderBytes && |text| <= maxRequestBytes
  {
    hide Find, At, HeadersOf, HeadText, ReadRequestLine, Framing, ValidHead, SplitTarget;
    var marker := Find(text, MARKER).value;
    MarkerIsCrlfTwice(text, marker);
    m, t, v, fields := AcceptedHead(text[..marker + 4], maxHeaderBytes, maxRequestBytes);
    HeaderBytesAre(text, marker, maxHeaderBytes, maxRequestBytes);
    body := text[marker + 4..];
    assert text[..marker + 4][..marker + 4] == text[..marker + 4];
    assert text == text[..marker + 4] + body;
  }

  lemma HeaderBytesAre(text: string, marker: nat, maxHeaderBytes: nat, maxRequestBytes: nat)
    requires Find(text, MARKER) == Some(marker) && marker + 4 <= |text|
    requires HeadersOf(text[..marker + 4], maxHeaderBytes, maxRequestBytes).Ok?
    ensures HeadersOf(text[..marker + 4], maxHeaderBytes, maxRequestBytes).value.headerBytes == marker + 4
  {
    hide Find, At, ScanLines, ReadRequestLine;
    PrefixKeepsMarker(text, text[..marker + 4], marker);
  }

  lemma PrefixKeepsMarker(text: string, prefix: string, marker: nat)
    requires Find(text, MARKER) == Some(marker) && marker + 4 <= |prefix| <= |text| && prefix == text[..|prefix|]
    ensures Find(prefix, MARKER) == Some(marker)
  {
    hide Find;
    forall j: nat | j < marker ensures !At(prefix, MARKER, j) {
      assert !At(text, MARKER, j);
    }
    FindIs(prefix, MARKER, marker);
  }

  /** Main result: the texts that are accepted are exactly the well-formed requests within the limits. */
  lemma AcceptedExactlyWhen(text: string, maxHeaderBytes: nat, maxRequestBytes: nat)
    ensures RequestOf(text, maxHeaderBytes, maxRequestBytes).Ok? <==>
            exists m, t, v, fields, body ::
              && text == HeadText(m, t, v, fields) + body && ValidHead(m, t, v, fields) && Framing(fields, None).Ok?
              && |body| == Announced(Framing(fields, None).value)
              && |HeadText(m, t, v, fields)| <= maxHeaderBytes && |text| <= maxRequestBytes
  {
    hide *;
    if RequestOf(text, maxHeaderBytes, maxRequestBytes).Ok? {
      var m, t, v, fields, body := AcceptedRequest(text, maxHeaderBytes, maxRequestBytes);
    }
    if m, t, v, fields, body :|
      && text == HeadText(m, t, v, fields) + body && ValidHead(m, t, v, fields) && Framing(fields, None).Ok?
      && |body| == Announced(Framing(fields, None).value)
      && |HeadText(m, t, v, fields)| <= maxHeaderBytes && |text| <= maxRequestBytes {
      RequestReadsBack(m, t, v, fields, body, maxHeaderBytes, maxRequestBytes);
    }
  }

  /** Main result: no accepted request is the beginning of another, so that framing is unambiguous. */
  lemma NoRequestBeginsAnother(a: string, b: string, maxHeaderBytes: nat, maxRequestBytes: nat)
    requires RequestOf(a, maxHeaderBytes, maxRequestBytes).Ok? && RequestOf(b, maxHeaderBytes, maxRequestBytes).Ok?
    requires a <= b
    ensures a == b
  {
    hide Find, At, HeadersOf, ReadRequestLine, SplitTarget;
    var marker := Find(a, MARKER).value;
    MarkerIsCrlfTwice(a, marker);
    MarkerGoesOn(a, b, marker);
    assert a[..marker + 4] == b[..marker + 4];
  }

  lemma MarkerGoesOn(a: string, b: string, marker: nat)
    requires a <= b && Find(a, MARKER) == Some(marker)
    ensures Find(b, MARKER) == Some(marker)
  {
    hide Find;
    forall j: nat | j < marker ensures !At(b, MARKER, j) {
      assert !At(a, MARKER, j);
    }
    FindIs(b, MARKER, marker);
  }

  // Framing

  predicate LengthField(f: Field) {
    SameIgnoringCase(f.name, "content-length")
  }

  predicate EncodingField(f: Field) {
    SameIgnoringCase(f.name, "transfer-encoding")
  }

  predicate Neutral(fields: seq<Field>) {
    forall i | 0 <= i < |fields| :: !LengthField(fields[i]) && !EncodingField(fields[i])
  }

  /** After a length, fields are accepted exactly when they say nothing more about the framing. */
  lemma {:induction false} FramingAfterLength(fields: seq<Field>, length: U64)
    ensures Framing(fields, Some(length)).Ok? <==> Neutral(fields)
    ensures Neutral(fields) ==> Framing(fields, Some(length)) == Ok(Some(length))
  {
    if fields != [] {
      hide SameIgnoringCase, Trim, IsDecimal;
      FramingAfterLength(fields[1..], length);
      assert fields == [fields[0]] + fields[1..];
    }
  }

  ghost predicate OnlyLength(fields: seq<Field>, i: int) {
    && 0 <= i < |fields| && LengthField(fields[i]) && !EncodingField(fields[i])
    && Neutral(fields[..i]) && Neutral(fields[i + 1..]) && IsDecimal(Trim(fields[i].raw))
  }

  /** The body's length is announced by one Content-Length field, a decimal number of 64 bits, or by none; and no
      field is a Transfer-Encoding. */
  lemma {:induction false} FramingMeans(fields: seq<Field>)
    ensures Framing(fields, None) == Ok(None) <==> Neutral(fields)
    ensures forall i | OnlyLength(fields, i) :: Framing(fields, None) == Ok(Some(DecimalValue(Trim(fields[i].raw))))
    ensures Framing(fields, None).Ok? ==> Neutral(fields) || exists i :: OnlyLength(fields, i)
  {
    if fields != [] {
      hide SameIgnoringCase, Trim, IsDecimal, DecimalValue;
      var f, rest := fields[0], fields[1..];
      assert fields == [f] + rest;
      FramingMeans(rest);
      forall i | OnlyLength(fields, i) ensures Framing(fields, None) == Ok(Some(DecimalValue(Trim(fields[i].raw)))) {
        if i == 0 {
          FramingAfterLength(rest, DecimalValue(Trim(f.raw)));
        } else {
          LaterLength(fields, i);
        }
      }
      if Framing(fields, None).Ok? && !Neutral(fields) {
        if LengthField(f) {
          FramingAfterLength(rest, DecimalValue(Trim(f.raw)));
          assert fields[..0] == [] && fields[1..] == rest;
          assert OnlyLength(fields, 0);
        } else {
          var i :| OnlyLength(rest, i);
          EarlierNeutral(f, rest, i);
          assert OnlyLength(fields, i + 1);
        }
      }
    }
  }

  lemma LaterLength(fields: seq<Field>, i: nat)
    requires 0 < i && OnlyLength(fields, i)
    ensures OnlyLength(fields[1..], i - 1) && !LengthField(fields[0]) && !EncodingField(fields[0])
  {
    hide SameIgnoringCase;
    assert fields[..i][0] == fields[0];
    assert fields[1..][..i - 1] == fields[..i][1..] && fields[1..][i..] == fields[i + 1..];
  }

  lemma EarlierNeutral(f: Field, rest: seq<Field>, i: int)
    requires OnlyLength(rest, i) && !LengthField(f) && !EncodingField(f)
    ensures OnlyLength([f] + rest, i + 1)
  {
    hide SameIgnoringCase;
    var fields := [f] + rest;
    assert fields[..i + 1] == [f] + rest[..i] && fields[i + 2..] == rest[i + 1..];
  }

  /** The field that a client writes for a body. */
  function LengthOf(body: string): Field {
    Field("Content-Length", " " + Decimal(|body|))
  }

  /** Main result: a request written with the length of its body is read back as it was meant. */
  lemma WrittenRequestReadsBack(m: string, t: string, v: string, fields: seq<Field>, body: string,
                                maxHeaderBytes: nat, maxRequestBytes: nat)
    requires ValidHead(m, t, v, fields) && Neutral(fields) && maxRequestBytes <= MAX_U64
    requires |HeadText(m, t, v, fields + [LengthOf(body)])| <= maxHeaderBytes
    requires |HeadText(m, t, v, fields + [LengthOf(body)])| + |body| <= maxRequestBytes
    ensures var (path, query) := SplitTarget(t);
            var head := HeadText(m, t, v, fields + [LengthOf(body)]);
            RequestOf(head + body, maxHeaderBytes, maxRequestBytes) ==
            Ok(Request(m, path, query, body, Headers(|head|, Some(|body|))))
  {
    hide *;
    var f, all := LengthOf(body), fields + [LengthOf(body)];
    LengthFieldIsClear(body);
    LengthIsLast(fields, f);
    FramingMeans(all);
    HeadWithField(m, t, v, fields, f);
    AnnouncedLength(|body|);
    RequestReadsBack(m, t, v, all, body, maxHeaderBytes, maxRequestBytes);
  }

  lemma LengthIsLast(fields: seq<Field>, f: Field)
    requires Neutral(fields) && LengthField(f) && !EncodingField(f) && IsDecimal(Trim(f.raw))
    ensures OnlyLength(fields + [f], |fields|) && (fields + [f])[|fields|] == f
  {
    hide LengthField, EncodingField, IsDecimal, Trim;
    assert (fields + [f])[..|fields|] == fields;
  }

  lemma HeadWithField(m: string, t: string, v: string, fields: seq<Field>, f: Field)
    requires ValidHead(m, t, v, fields) && ValidField(f)
    ensures ValidHead(m, t, v, fields + [f])
  {
    hide ValidField, ValidMethod, ValidTarget, ValidVersion;
  }

  lemma AnnouncedLength(n: U64)
    ensures Announced(Some(n)) == n
  {
  }

  lemma LengthFieldIsClear(body: string)
    requires |body| <= MAX_U64
    ensures var f := LengthOf(body);
            && ValidField(f) && LengthField(f) && !EncodingField(f)
            && IsDecimal(Trim(f.raw)) && DecimalValue(Trim(f.raw)) == |body|
  {
    var text := Decimal(|body|);
    DecimalReadsBack(|body|);
    hide Decimal, DecimalValue;
    assert !Ows(text[0]) && !Ows(text[|text| - 1]);
    TrimKeeps(text);
    var raw := " " + text;
    forall i | 0 <= i < |raw| ensures !Control(raw[i]) {
      if i > 0 {
        assert raw[i] == text[i - 1];
      }
    }
    NameOfLength();
  }

  lemma NameOfLength()
    ensures ValidName("Content-Length") && SameIgnoringCase("Content-Length", "content-length")
    ensures !SameIgnoringCase("Content-Length", "transfer-encoding")
  {
    NameIsValid("Content-Length");
    hide ValidName;
    assert |"Content-Length"| == 14;
  }

  lemma NameIsValid(name: string)
    requires name == "Content-Length"
    ensures ValidName(name)
  {
    assert forall i | 0 <= i < |name| :: 'a' <= name[i] <= 'z' || name[i] == 'C' || name[i] == '-' || name[i] == 'L';
    assert TokenChar('-');
  }
}
