/** The strict HTTP request parser.  Every check is in the order of the program, so that the error reported is its
    error. */
module HttpParser {
  import opened Options
  import opened Text
  import opened HttpText

  const MARKER := "\r\n\r\n"

  datatype Error =
    | HeadersIncomplete | HeadersTooLarge | RequestTooLarge | RequestLineMissing | MalformedRequestLine
    | MalformedHeaderLine | InvalidHeaderName | InvalidHeaderValue | TransferEncodingUnsupported
    | DuplicateContentLength | InvalidContentLength | BodyLengthRequired | BodyIncomplete | TrailingBytes

  datatype Result<T> = Ok(value: T) | Err(error: Error)

  datatype Headers = Headers(headerBytes: nat, contentLength: Option<U64>)

  datatype Request = Request(method_: string, path: string, query: string, body: string, headers: Headers)

  // The request line

  predicate ValidMethod(m: string) {
    m != "" && forall i | 0 <= i < |m| :: TokenChar(m[i]) && !LowerCase(m[i])
  }

  predicate ValidTarget(t: string) {
    t != "" && t[0] == '/' && !HasControl(t) && forall i | 0 <= i < |t| :: t[i] != ' '
  }

  predicate ValidVersion(v: string) {
    v == "HTTP/1.0" || v == "HTTP/1.1"
  }

  function RequestLine(m: string, t: string, v: string): string {
    m + " " + t + " " + v
  }

  /** The method and the target of a well-formed request line. */
  function ReadRequestLine(line: string): Option<(string, string)> {
    var firstSpace := Find(line, " ");
    if firstSpace.None? || firstSpace.value == 0 then None
    else
      var methodView, rest := line[..firstSpace.value], line[firstSpace.value + 1..];
      var secondSpace := Find(rest, " ");
      if secondSpace.None? || secondSpace.value == 0 then None
      else
        var targetView, version := rest[..secondSpace.value], rest[secondSpace.value + 1..];
        if Find(version, " ").Some? || !ValidVersion(version) || !ValidMethod(methodView) || !ValidTarget(targetView)
        then None
        else Some((methodView, targetView))
  }

  method ParseRequestLine(line: string) returns (r: Option<(string, string)>)
    ensures r == ReadRequestLine(line)
  {
    hide Find, At, ValidMethod, ValidTarget, HasControl, TokenChar;
    var firstSpace := Find(line, " ");
    if firstSpace.None? || firstSpace.value == 0 {
      return None;
    }
    var methodView, rest := line[..firstSpace.value], line[firstSpace.value + 1..];
    var secondSpace := Find(rest, " ");
    if secondSpace.None? || secondSpace.value == 0 {
      return None;
    }
    var targetView, version := rest[..secondSpace.value], rest[secondSpace.value + 1..];
    if Find(version, " ").Some? {
      return None;
    }
    if version != "HTTP/1.0" && version != "HTTP/1.1" {
      return None;
    }
    var token := IsMethod(methodView);
    if !token {
      return None;
    }
    NoSpaceBefore(rest, secondSpace.value);
    var target := IsTarget(targetView);
    if !target {
      return None;
    }
    return Some((methodView, targetView));
  }

  /** The checks of a target that has no blank. */
  method IsTarget(targetView: string) returns (r: bool)
    requires forall i | 0 <= i < |targetView| :: targetView[i] != ' '
    ensures r == ValidTarget(targetView)
  {
    hide Find, HasControl;
    var control := FindControl(targetView);
    if targetView == "" || targetView[0] != '/' || control {
      return false;
    }
    NulIsControl(targetView);
    if Find(targetView, "\0").Some? {
      return false;
    }
    return true;
  }

  method IsMethod(methodView: string) returns (r: bool)
    requires methodView != ""
    ensures r == ValidMethod(methodView)
  {
    for i := 0 to |methodView|
      invariant forall j | 0 <= j < i :: TokenChar(methodView[j]) && !LowerCase(methodView[j])
    {
      if !TokenChar(methodView[i]) || LowerCase(methodView[i]) {
        return false;
      }
    }
    return true;
  }

  lemma NoSpaceBefore(text: string, n: nat)
    requires Find(text, " ") == Some(n)
    ensures forall i | 0 <= i < n :: text[..n][i] != ' '
  {
    forall i: nat | i < n ensures text[..n][i] != ' ' {
      assert !At(text, " ", i);
    }
  }

  /** The search for a NUL after the search for controls finds nothing. */
  lemma NulIsControl(text: string)
    requires !HasControl(text)
    ensures Find(text, "\0").None?
  {
    forall j: nat ensures !At(text, "\0", j) {
      if j < |text| {
        assert !Control(text[j]);
        assert text[j + 0] != "\0"[0];
      }
    }
  }

  /** Every well-formed line is accepted and gives back what it was made of. */
  lemma RequestLineReadsBack(m: string, t: string, v: string)
    requires ValidMethod(m) && ValidTarget(t) && ValidVersion(v)
    ensures ReadRequestLine(RequestLine(m, t, v)) == Some((m, t))
  {
    assert (forall i | 0 <= i < |m| :: m[i] != ' ') && (forall i | 0 <= i < |t| :: t[i] != ' ') && |m| > 0 && |t| > 0;
    hide Find, At, RequestLine, ValidMethod, ValidTarget, ValidVersion;
    JoinedTwice(m, t, v);
    FindSpace(m, t + " " + v);
    FindSpace(t, v);
    NoSpaceInVersion(v);
  }

  lemma NoSpaceInVersion(v: string)
    requires ValidVersion(v)
    ensures Find(v, " ").None?
  {
    hide Find;
    assert forall i | 0 <= i < 8 :: v[i] != ' ';
    forall j: nat ensures !At(v, " ", j) {
      if j < |v| {
        assert v[j + 0] != " "[0];
      }
    }
  }

  lemma JoinedTwice(m: string, t: string, v: string)
    ensures RequestLine(m, t, v) == m + " " + (t + " " + v)
  {
  }

  lemma FindSpace(word: string, rest: string)
    requires forall i | 0 <= i < |word| :: word[i] != ' '
    ensures var text := word + " " + rest;
            Find(text, " ") == Some(|word|) && text[..|word|] == word && text[|word| + 1..] == rest
  {
    var text := word + " " + rest;
    forall j: nat | j < |word| ensures !At(text, " ", j) {
      assert text[j + 0] == word[j] != " "[0];
    }
    FindIs(text, " ", |word|);
  }

  /** Only well-formed lines are accepted. */
  lemma AcceptedRequestLine(line: string) returns (v: string)
    requires ReadRequestLine(line).Some?
    ensures var (m, t) := ReadRequestLine(line).value;
            ValidMethod(m) && ValidTarget(t) && ValidVersion(v) && line == RequestLine(m, t, v)
  {
    hide Find, At, RequestLine, ValidMethod, ValidTarget, ValidVersion;
    var firstSpace := Find(line, " ").value;
    SplitAtSpace(line, firstSpace);
    var rest := line[firstSpace + 1..];
    var secondSpace := Find(rest, " ").value;
    SplitAtSpace(rest, secondSpace);
    v := rest[secondSpace + 1..];
    JoinedTwice(line[..firstSpace], rest[..secondSpace], v);
  }

  lemma SplitAtSpace(text: string, n: nat)
    requires Find(text, " ") == Some(n)
    ensures n < |text| && text == text[..n] + " " + text[n + 1..]
  {
    hide Find;
    assert text[n + 0] == " "[0];
  }

  // Header lines

  predicate ValidName(name: string) {
    name != "" && forall i | 0 <= i < |name| :: TokenChar(name[i])
  }

  /** What a field means for the framing, when `length` is what earlier fields said. */
  function FieldEffect(name: string, value: string, length: Option<U64>): Result<Option<U64>> {
    if SameIgnoringCase(name, "transfer-encoding") then Err(TransferEncodingUnsupported)
    else if SameIgnoringCase(name, "content-length") then
      if length.Some? then Err(DuplicateContentLength)
      else if !IsDecimal(value) then Err(InvalidContentLength)
      else Ok(Some(DecimalValue(value)))
    else Ok(length)
  }

  function CheckLine(line: string, length: Option<U64>): Result<Option<U64>> {
    var colon := Find(line, ":");
    if colon.None? || colon.value == 0 then Err(MalformedHeaderLine)
    else if !ValidName(line[..colon.value]) then Err(InvalidHeaderName)
    else if HasControl(Trim(line[colon.value + 1..])) then Err(InvalidHeaderValue)
    else FieldEffect(line[..colon.value], Trim(line[colon.value + 1..]), length)
  }

  function ScanLines(rest: string, length: Option<U64>): Result<Option<U64>>
    decreases |rest|
  {
    if rest == "" then Ok(length)
    else
      var end := Find(rest, CRLF);
      if end.None? || end.value == 0 then Err(MalformedHeaderLine)
      else
        var effect := CheckLine(rest[..end.value], length);
        if effect.Err? then effect else ScanLines(rest[end.value + 2..], effect.value)
  }

  function HeadersOf(block: string, maxHeaderBytes: nat, maxRequestBytes: nat): Result<Headers> {
    var marker := Find(block, MARKER);
    if marker.None? then Err(HeadersIncomplete)
    else if marker.value + 4 > maxHeaderBytes then Err(HeadersTooLarge)
    else if marker.value + 4 > maxRequestBytes then Err(RequestTooLarge)
    else
      var head := block[..marker.value + 2];
      var firstEnd := Find(head, CRLF);
      if firstEnd.None? then Err(RequestLineMissing)
      else if ReadRequestLine(head[..firstEnd.value]).None? then Err(MalformedRequestLine)
      else
        var length := ScanLines(head[firstEnd.value + 2..], None);
        if length.Err? then Err(length.error) else Ok(Headers(marker.value + 4, length.value))
  }

  method CheckHeaderLine(line: string, length: Option<U64>) returns (r: Result<Option<U64>>)
    ensures r == CheckLine(line, length)
  {
    hide Find, Trim, HasControl, SameIgnoringCase, IsDecimal, DecimalValue, TokenChar;
    var colon := Find(line, ":");
    if colon.None? || colon.value == 0 {
      return Err(MalformedHeaderLine);
    }
    var name := line[..colon.value];
    for i := 0 to |name|
      invariant forall j | 0 <= j < i :: TokenChar(name[j])
    {
      if !TokenChar(name[i]) {
        return Err(InvalidHeaderName);
      }
    }
    var value := TrimOws(line[colon.value + 1..]);
    var control := FindControl(value);
    if control {
      return Err(InvalidHeaderValue);
    }
    var encoding := EqualsInsensitive(name, "transfer-encoding");
    if encoding {
      return Err(TransferEncodingUnsupported);
    }
    var isLength := EqualsInsensitive(name, "content-length");
    if isLength {
      if length.Some? {
        return Err(DuplicateContentLength);
      }
      var parsed := ParseUnsignedDecimal(value);
      if parsed.None? {
        return Err(InvalidContentLength);
      }
      return Ok(parsed);
    }
    return Ok(length);
  }

  method ParseHeaders(block: string, maxHeaderBytes: nat, maxRequestBytes: nat) returns (r: Result<Headers>)
    ensures r == HeadersOf(block, maxHeaderBytes, maxRequestBytes)
  {
    hide Find, CheckLine, ReadRequestLine;
    var marker := Find(block, MARKER);
    if marker.None? {
      return Err(HeadersIncomplete);
    }
    var headerBytes := marker.value + 4;
    if headerBytes > maxHeaderBytes {
      return Err(HeadersTooLarge);
    }
    if headerBytes > maxRequestBytes {
      return Err(RequestTooLarge);
    }
    var head := block[..marker.value + 2];
    var firstEnd := Find(head, CRLF);
    if firstEnd.None? {
      return Err(RequestLineMissing);
    }
    var requestLine := ParseRequestLine(head[..firstEnd.value]);
    if requestLine.None? {
      return Err(MalformedRequestLine);
    }
    var lineStart := firstEnd.value + 2;
    var contentLength: Option<U64> := None;
    ghost var outcome := ScanLines(head[lineStart..], None);
    while lineStart < |head|
      invariant lineStart <= |head| && ScanLines(head[lineStart..], contentLength) == outcome
    {
      var length := Find(head[lineStart..], CRLF);
      if length.None? || length.value == 0 {
        return Err(MalformedHeaderLine);
      }
      var lineEnd := lineStart + length.value;
      var line := head[lineStart..lineEnd];
      assert head[lineStart..][..length.value] == line && head[lineStart..][length.value + 2..] == head[lineEnd + 2..];
      var checked := CheckHeaderLine(line, contentLength);
      if checked.Err? {
        return Err(checked.error);
      }
      contentLength := checked.value;
      lineStart := lineEnd + 2;
    }
    return Ok(Headers(headerBytes, contentLength));
  }

  // Whole requests

  function SplitTarget(target: string): (string, string) {
    var query := Find(target, "?");
    if query.None? then (target, "") else (target[..query.value], target[query.value + 1..])
  }

  /** The parser of one complete request. */
  function RequestOf(request: string, maxHeaderBytes: nat, maxRequestBytes: nat): Result<Request> {
    if |request| > maxRequestBytes then Err(RequestTooLarge)
    else
      var marker := Find(request, MARKER);
      if marker.None? then Err(HeadersIncomplete)
      else
        var headers := HeadersOf(request[..marker.value + 4], maxHeaderBytes, maxRequestBytes);
        if headers.Err? then Err(headers.error)
        else
          var head := request[..marker.value + 2];
          var firstEnd := Find(head, CRLF);
          var line := ReadRequestLine(if firstEnd.None? then head else head[..firstEnd.value]);
          if line.None? then Err(MalformedRequestLine)
          else
            var bodyStart := marker.value + 4;
            var framing := Frame(|request|, bodyStart, headers.value.contentLength, maxRequestBytes);
            if framing.Some? then Err(framing.value)
            else
              var (path, query) := SplitTarget(line.value.1);
              Ok(Request(line.value.0, path, query, request[bodyStart..], headers.value))
  }

  /** What is wrong with the size of a request, if anything is. */
  function Frame(size: nat, bodyStart: nat, contentLength: Option<U64>, maxRequestBytes: nat): Option<Error> {
    if contentLength.None? then
      if size != bodyStart then Some(BodyLengthRequired) else None
    else if contentLength.value > maxRequestBytes || bodyStart > maxRequestBytes
         || contentLength.value > maxRequestBytes - bodyStart then Some(RequestTooLarge)
    else if size < bodyStart + contentLength.value then Some(BodyIncomplete)
    else if size > bodyStart + contentLength.value then Some(TrailingBytes)
    else None
  }

  method ParseRequest(request: string, maxHeaderBytes: nat, maxRequestBytes: nat) returns (r: Result<Request>)
    ensures r == RequestOf(request, maxHeaderBytes, maxRequestBytes)
  {
    hide Find, HeadersOf, ReadRequestLine;
    if |request| > maxRequestBytes {
      return Err(RequestTooLarge);
    }
    var marker := Find(request, MARKER);
    if marker.None? {
      return Err(HeadersIncomplete);
    }
    var headers := ParseHeaders(request[..marker.value + 4], maxHeaderBytes, maxRequestBytes);
    if headers.Err? {
      return Err(headers.error);
    }
    var head := request[..marker.value + 2];
    var firstEnd := Find(head, CRLF);
    var line := ParseRequestLine(if firstEnd.None? then head else head[..firstEnd.value]);
    if line.None? {
      return Err(MalformedRequestLine);
    }
    var target := line.value.1;
    var path, query := target, "";
    var queryStart := Find(target, "?");
    if queryStart.Some? {
      path := target[..queryStart.value];
      query := target[queryStart.value + 1..];
    }
    var bodyStart := marker.value + 4;
    if headers.value.contentLength.None? {
      if |request| != bodyStart {
        return Err(BodyLengthRequired);
      }
    } else {
      var contentLength := headers.value.contentLength.value;
      if contentLength > maxRequestBytes || bodyStart > maxRequestBytes
      || contentLength > maxRequestBytes - bodyStart {
        return Err(RequestTooLarge);
      }
      var expected := bodyStart + contentLength;
      if |request| < expected {
        return Err(BodyIncomplete);
      }
      if |request| > expected {
        return Err(TrailingBytes);
      }
    }
    return Ok(Request(line.value.0, path, query, request[bodyStart..], headers.value));
  }
}
