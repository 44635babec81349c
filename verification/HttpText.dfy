/** The small scanners of the HTTP parser.  Every character stands for one byte. */
module HttpText {
  import opened Options
  import opened Text

  const CRLF := "\r\n"

  predicate TokenChar(c: char) {
    Digit(c) || LowerCase(c) || 'A' <= c <= 'Z' || c in "!#$%&'*+-.^_`|~"
  }

  predicate Control(c: char) {
    c != '\t' && (c < ' ' || c == 0x7F as char)
  }

  predicate Ows(c: char) {
    c == ' ' || c == '\t'
  }

  // Trimming

  function TrimLeft(value: string): string {
    if value != "" && Ows(value[0]) then TrimLeft(value[1..]) else value
  }

  function TrimRight(value: string): string {
    if value != "" && Ows(value[|value| - 1]) then TrimRight(value[..|value| - 1]) else value
  }

  function Trim(value: string): string {
    TrimRight(TrimLeft(value))
  }

  method TrimOws(value: string) returns (r: string)
    ensures r == Trim(value)
  {
    var first := 0;
    while first < |value| && Ows(value[first])
      invariant first <= |value| && TrimLeft(value[first..]) == TrimLeft(value)
    {
      assert value[first..][1..] == value[first + 1..];
      first := first + 1;
    }
    var last := |value|;
    assert value[first..last] == value[first..];
    while last > first && Ows(value[last - 1])
      invariant first <= last <= |value| && TrimRight(value[first..last]) == Trim(value)
    {
      assert value[first..last][..last - first - 1] == value[first..last - 1];
      last := last - 1;
    }
    return value[first..last];
  }

  /** Trimming takes blanks off both ends and leaves no more of them there. */
  lemma TrimCuts(value: string) returns (i: nat, j: nat)
    ensures i <= j <= |value| && Trim(value) == value[i..j]
    ensures (forall k | 0 <= k < i || j <= k < |value| :: Ows(value[k]))
    ensures i < j ==> !Ows(value[i]) && !Ows(value[j - 1])
  {
    i := CutLeft(value);
    var n := CutRight(value[i..]);
    j := i + n;
  }

  lemma {:induction false} CutLeft(value: string) returns (i: nat)
    ensures i <= |value| && TrimLeft(value) == value[i..] && (forall k | 0 <= k < i :: Ows(value[k]))
    ensures i < |value| ==> !Ows(value[i])
  {
    if value != "" && Ows(value[0]) {
      var rest := CutLeft(value[1..]);
      i := rest + 1;
    } else {
      i := 0;
    }
  }

  lemma {:induction false} CutRight(value: string) returns (n: nat)
    ensures n <= |value| && TrimRight(value) == value[..n] && (forall k | n <= k < |value| :: Ows(value[k]))
    ensures n > 0 ==> !Ows(value[n - 1])
  {
    if value != "" && Ows(value[|value| - 1]) {
      n := CutRight(value[..|value| - 1]);
      assert value[..|value| - 1][..n] == value[..n];
    } else {
      n := |value|;
      assert value[..n] == value;
    }
  }

  /** Nothing is trimmed from text with other characters at its ends. */
  lemma TrimKeeps(value: string)
    requires value != "" ==> !Ows(value[0]) && !Ows(value[|value| - 1])
    ensures Trim(value) == value && Trim(" " + value) == value
  {
    assert (" " + value)[1..] == value;
  }

  // Scanning

  predicate HasControl(value: string) {
    exists i | 0 <= i < |value| :: Control(value[i])
  }

  method FindControl(value: string) returns (found: bool)
    ensures found == HasControl(value)
  {
    for i := 0 to |value|
      invariant forall j | 0 <= j < i :: !Control(value[j])
    {
      if value[i] == '\t' {
        continue;
      }
      if value[i] < ' ' || value[i] == 0x7F as char {
        return true;
      }
    }
    return false;
  }

  predicate SameIgnoringCase(left: string, right: string) {
    |left| == |right| && forall i | 0 <= i < |left| :: Lower(left[i]) == Lower(right[i])
  }

  method EqualsInsensitive(left: string, right: string) returns (equal: bool)
    ensures equal == SameIgnoringCase(left, right)
  {
    if |left| != |right| {
      return false;
    }
    for i := 0 to |left|
      invariant forall j | 0 <= j < i :: Lower(left[j]) == Lower(right[j])
    {
      if Lower(left[i]) != Lower(right[i]) {
        return false;
      }
    }
    return true;
  }

  // Decimal numbers

  predicate AllDigits(text: string) {
    forall i | 0 <= i < |text| :: Digit(text[i])
  }

  function DecimalValue(text: string): nat
    requires AllDigits(text)
  {
    if text == "" then 0 else DecimalValue(text[..|text| - 1]) * 10 + (text[|text| - 1] - '0') as nat
  }

  predicate IsDecimal(text: string) {
    text != "" && AllDigits(text) && DecimalValue(text) <= MAX_U64
  }

  lemma {:induction false} ValueGrows(text: string, i: nat)
    requires AllDigits(text) && i <= |text|
    ensures DecimalValue(text[..i]) <= DecimalValue(text)
  {
    if i < |text| {
      ValueGrows(text[..|text| - 1], i);
      assert text[..|text| - 1][..i] == text[..i];
    } else {
      assert text[..i] == text;
    }
  }

  /** Accepts exactly the non-empty digit strings of value at most 2^64-1; the test before the multiplication is
      exact, so that the sum never wraps. */
  method ParseUnsignedDecimal(text: string) returns (value: Option<U64>)
    ensures value.Some? <==> IsDecimal(text)
    ensures value.Some? ==> value.value == DecimalValue(text)
  {
    if text == "" {
      return None;
    }
    var parsed: U64 := 0;
    for i := 0 to |text|
      invariant AllDigits(text[..i]) && parsed == DecimalValue(text[..i])
    {
      var c := text[i];
      if c < '0' || c > '9' {
        return None;
      }
      var digit := (c - '0') as nat;
      assert AllDigits(text[..i + 1]) && text[..i + 1][..i] == text[..i];
      assert DecimalValue(text[..i + 1]) == DecimalValue(text[..i]) * 10 + digit;
      if parsed > (MAX_U64 - digit) / 10 {
        if AllDigits(text) {
          ValueGrows(text, i + 1);
        }
        return None;
      }
      parsed := parsed * 10 + digit;
    }
    assert text[..|text|] == text;
    return Some(parsed);
  }

  function Decimal(n: nat): string {
    (if n < 10 then "" else Decimal(n / 10)) + [(n % 10) as char + '0']
  }

  lemma {:induction false} DecimalReadsBack(n: nat)
    ensures Decimal(n) != "" && AllDigits(Decimal(n)) && DecimalValue(Decimal(n)) == n
  {
    var text := Decimal(n);
    if n >= 10 {
      DecimalReadsBack(n / 10);
      assert text[..|text| - 1] == Decimal(n / 10);
    } else {
      assert text[..0] == "";
    }
  }
}
