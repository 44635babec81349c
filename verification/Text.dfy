/** Searching and ordering texts, and the character classes that several parsers share. */
module Text {
  import opened Options

  predicate Digit(c: char) {
    '0' <= c <= '9'
  }

  predicate LowerCase(c: char) {
    'a' <= c <= 'z'
  }

  function Lower(c: char): char {
    if 'A' <= c <= 'Z' then c - 'A' + 'a' else c
  }

  // Searching

  predicate At(text: string, pattern: string, i: nat) {
    i + |pattern| <= |text| && forall k | 0 <= k < |pattern| :: text[i + k] == pattern[k]
  }

  /** `std::string_view::find`. */
  function Find(text: string, pattern: string): (r: Option<nat>)
    ensures r.Some? ==> r.value + |pattern| <= |text|
    ensures r.Some? ==> At(text, pattern, r.value) && forall j: nat | j < r.value :: !At(text, pattern, j)
    ensures r.None? ==> forall j: nat :: !At(text, pattern, j)
    decreases |text|
  {
    if At(text, pattern, 0) then Some(0)
    else if text == "" then None
    else
      var rest := Find(text[1..], pattern);
      assert forall j: nat :: At(text[1..], pattern, j) <==> At(text, pattern, j + 1);
      FoundLater(text, pattern, rest);
      if rest.Some? then Some(rest.value + 1) else None
  }

  lemma FoundLater(text: string, pattern: string, rest: Option<nat>)
    requires text != "" && !At(text, pattern, 0)
    requires rest.Some? ==> At(text[1..], pattern, rest.value) && forall j: nat | j < rest.value :: !At(text[1..], pattern, j)
    requires rest.None? ==> forall j: nat :: !At(text[1..], pattern, j)
    ensures rest.Some? ==> At(text, pattern, rest.value + 1) && forall j: nat | j < rest.value + 1 :: !At(text, pattern, j)
    ensures rest.None? ==> forall j: nat :: !At(text, pattern, j)
  {
    forall j: nat | At(text, pattern, j) ensures j > 0 && At(text[1..], pattern, j - 1) {
    }
  }

  /** The first place is the only first place. */
  lemma FindIs(text: string, pattern: string, i: nat)
    requires At(text, pattern, i) && forall j: nat | j < i :: !At(text, pattern, j)
    ensures Find(text, pattern) == Some(i)
  {
  }

  // Ordering

  /** The lexicographic order of `std::string::operator<` and of ordinal comparison. */
  predicate Less(a: string, b: string) {
    if b == "" then false
    else if a == "" then true
    else if a[0] != b[0] then a[0] < b[0]
    else Less(a[1..], b[1..])
  }

  lemma {:induction false} LessIsTotal(a: string, b: string)
    ensures Less(a, b) || a == b || Less(b, a)
    ensures !(Less(a, b) && Less(b, a))
    ensures a == b ==> !Less(a, b)
  {
    if a != "" && b != "" && a[0] == b[0] {
      LessIsTotal(a[1..], b[1..]);
      assert a == [a[0]] + a[1..] && b == [b[0]] + b[1..];
    }
  }

  lemma {:induction false} LessIsTransitive(a: string, b: string, c: string)
    requires Less(a, b) && Less(b, c)
    ensures Less(a, c)
  {
    if a != "" && a[0] == b[0] == c[0] {
      LessIsTransitive(a[1..], b[1..], c[1..]);
    }
  }
}
