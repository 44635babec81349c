/** Little-endian numbers inside a byte string, and adding to them modulo their width. */
module LittleEndian {
  import opened Options

  type Bytes = seq<Byte>

  function Power256(w: nat): (p: nat)
    ensures p > 0
  {
    if w == 0 then 1 else 256 * Power256(w - 1)
  }

  function Value(bytes: Bytes): nat {
    if bytes == [] then 0 else bytes[0] as int + 256 * Value(bytes[1..])
  }

  function Encode(v: nat, w: nat): (bytes: Bytes)
    ensures |bytes| == w
  {
    if w == 0 then [] else [v % 256] + Encode(v / 256, w - 1)
  }

  lemma {:induction false} ValueIsBounded(bytes: Bytes)
    ensures Value(bytes) < Power256(|bytes|)
  {
    if bytes != [] {
      ValueIsBounded(bytes[1..]);
    }
  }

  lemma {:induction false} ValueOfEncode(v: nat, w: nat)
    requires v < Power256(w)
    ensures Value(Encode(v, w)) == v
  {
    if w > 0 {
      ValueOfEncode(v / 256, w - 1);
      assert Encode(v, w)[1..] == Encode(v / 256, w - 1);
    }
  }

  lemma {:induction false} EncodeOfValue(bytes: Bytes)
    ensures Encode(Value(bytes), |bytes|) == bytes
  {
    if bytes != [] {
      EncodeOfValue(bytes[1..]);
      assert bytes == [bytes[0]] + bytes[1..];
      var low, high := bytes[0] as int, Value(bytes[1..]);
      assert Value(bytes) == low + 256 * high;
      LowestByte(low, high);
      hide Value;
    }
  }

  lemma LowestByte(low: nat, high: nat)
    requires low < 256
    ensures (low + 256 * high) % 256 == low && (low + 256 * high) / 256 == high
  {}

  // Remainders

  lemma MultipleAtLeast(k: int, m: nat)
    requires k >= 1
    ensures k * m >= m
  {}

  lemma RemainderIsUnique(x: int, q: int, r: int, m: nat)
    requires m > 0 && 0 <= r < m && x == q * m + r
    ensures x % m == r
  {
    var q', r' := x / m, x % m;
    assert x == q' * m + r';
    assert (q' - q) * m == r - r';
    if q' > q {
      MultipleAtLeast(q' - q, m);
    } else if q' < q {
      MultipleAtLeast(q - q', m);
    }
  }

  /** A remainder may be taken early. */
  lemma RemainderAdds(x: int, y: int, m: nat)
    requires m > 0
    ensures (x % m + y) % m == (x + y) % m
  {
    var q, r := x / m, x % m;
    assert x == q * m + r;
    var q', r' := (r + y) / m, (r + y) % m;
    assert r + y == q' * m + r';
    assert x + y == (q + q') * m + r' by {
      assert (q + q') * m == q * m + q' * m;
    }
    RemainderIsUnique(x + y, q + q', r', m);
  }

  // Fields of an image

  function Splice(image: Bytes, at: nat, field: Bytes): (r: Bytes)
    requires at + |field| <= |image|
    ensures |r| == |image|
  {
    image[..at] + field + image[at + |field|..]
  }

  function Field(image: Bytes, at: nat, w: nat): (field: Bytes)
    requires at + w <= |image|
    ensures |field| == w
  {
    image[at..at + w]
  }

  /** Adds `d` to the `w`-byte number at `at`, modulo the width. */
  function Add(image: Bytes, at: nat, w: nat, d: int): (r: Bytes)
    requires at + w <= |image|
    ensures |r| == |image|
  {
    Splice(image, at, Encode((Value(Field(image, at, w)) + d) % Power256(w), w))
  }

  predicate Apart(a: nat, b: nat, w: nat) {
    a + w <= b || b + w <= a
  }

  lemma AddChangesField(image: Bytes, at: nat, w: nat, d: int)
    requires at + w <= |image|
    ensures Value(Field(Add(image, at, w, d), at, w)) == (Value(Field(image, at, w)) + d) % Power256(w)
  {
    var v := (Value(Field(image, at, w)) + d) % Power256(w);
    ValueOfEncode(v, w);
    assert Field(Add(image, at, w, d), at, w) == Encode(v, w);
  }

  lemma AddKeepsOthers(image: Bytes, at: nat, w: nat, d: int, i: nat)
    requires at + w <= |image| && i < |image| && !(at <= i < at + w)
    ensures Add(image, at, w, d)[i] == image[i]
  {}

  /** Two additions at one place are one. */
  lemma AddTwice(image: Bytes, at: nat, w: nat, d: int, e: int)
    requires at + w <= |image|
    ensures Add(Add(image, at, w, d), at, w, e) == Add(image, at, w, d + e)
  {
    AddChangesField(image, at, w, d);
    RemainderAdds(Value(Field(image, at, w)) + d, e, Power256(w));
  }

  lemma AddNothing(image: Bytes, at: nat, w: nat)
    requires at + w <= |image|
    ensures Add(image, at, w, 0) == image
  {
    var field := Field(image, at, w);
    ValueIsBounded(field);
    EncodeOfValue(field);
    RemainderIsUnique(Value(field), 0, Value(field), Power256(w));
    assert Splice(image, at, field) == image;
  }

  lemma SpliceApart(image: Bytes, a: nat, f: Bytes, b: nat, g: Bytes)
    requires a + |f| <= |image| && b + |g| <= |image| && |f| == |g| && Apart(a, b, |f|)
    ensures Splice(Splice(image, a, f), b, g) == Splice(Splice(image, b, g), a, f)
    ensures Field(Splice(image, a, f), b, |g|) == Field(image, b, |g|)
  {}

  /** Additions at places that coincide or do not overlap can be exchanged. */
  lemma AddsCommute(image: Bytes, a: nat, b: nat, w: nat, d: int, e: int)
    requires a + w <= |image| && b + w <= |image| && (a == b || Apart(a, b, w))
    ensures Add(Add(image, a, w, d), b, w, e) == Add(Add(image, b, w, e), a, w, d)
  {
    if a == b {
      AddTwice(image, a, w, d, e);
      AddTwice(image, a, w, e, d);
      assert d + e == e + d;
    } else {
      hide Encode, Value, Power256, Splice, Field;
      var f := Encode((Value(Field(image, a, w)) + d) % Power256(w), w);
      var g := Encode((Value(Field(image, b, w)) + e) % Power256(w), w);
      SpliceApart(image, a, f, b, g);
      SpliceApart(image, b, g, a, f);
    }
  }

  // Many places

  ghost predicate InRange(places: seq<nat>, w: nat, size: nat) {
    forall p | p in places :: p + w <= size
  }

  ghost predicate Compatible(places: seq<nat>, w: nat) {
    forall p, q | p in places && q in places :: p == q || Apart(p, q, w)
  }

  lemma HeadAndTail(places: seq<nat>)
    requires places != []
    ensures places[0] in places && forall p | p in places[1..] :: p in places
  {}

  ghost function AddAll(image: Bytes, places: seq<nat>, w: nat, d: int): (r: Bytes)
    requires InRange(places, w, |image|)
    ensures |r| == |image|
    decreases |places|
  {
    if places == [] then image
    else
      HeadAndTail(places);
      AddAll(Add(image, places[0], w, d), places[1..], w, d)
  }

  lemma {:induction false} AddPasses(image: Bytes, places: seq<nat>, w: nat, d: int, at: nat, e: int)
    requires at + w <= |image| && InRange(places, w, |image|)
    requires forall p | p in places :: at == p || Apart(at, p, w)
    ensures AddAll(Add(image, at, w, e), places, w, d) == Add(AddAll(image, places, w, d), at, w, e)
    decreases |places|
  {
    if places != [] {
      hide Add, Apart;
      HeadAndTail(places);
      AddsCommute(image, at, places[0], w, e, d);
      AddPasses(Add(image, places[0], w, d), places[1..], w, d, at, e);
    }
  }

  /** Adding and then taking away again, in the same order, restores the image. */
  lemma {:induction false} AddAllCancels(image: Bytes, places: seq<nat>, w: nat, d: int)
    requires InRange(places, w, |image|) && Compatible(places, w)
    ensures AddAll(AddAll(image, places, w, d), places, w, -d) == image
    decreases |places|
  {
    if places != [] {
      hide Add, Apart;
      var first, rest := places[0], places[1..];
      HeadAndTail(places);
      AddPasses(image, rest, w, d, first, d);
      AddTwice(AddAll(image, rest, w, d), first, w, d, -d);
      AddNothing(AddAll(image, rest, w, d), first, w);
      AddAllCancels(image, rest, w, d);
    }
  }

  lemma {:induction false} AddAllKeepsOthers(image: Bytes, places: seq<nat>, w: nat, d: int, i: nat)
    requires InRange(places, w, |image|)
    requires i < |image| && forall p | p in places :: !(p <= i < p + w)
    ensures AddAll(image, places, w, d)[i] == image[i]
    decreases |places|
  {
    if places != [] {
      hide Add;
      HeadAndTail(places);
      AddKeepsOthers(image, places[0], w, d, i);
      AddAllKeepsOthers(Add(image, places[0], w, d), places[1..], w, d, i);
    }
  }

  lemma {:induction false} AddAllAppends(image: Bytes, places: seq<nat>, more: seq<nat>, w: nat, d: int)
    requires InRange(places + more, w, |image|)
    ensures InRange(places, w, |image|) && InRange(more, w, |image|)
    ensures AddAll(image, places + more, w, d) == AddAll(AddAll(image, places, w, d), more, w, d)
    decreases |places|
  {
    assert forall p :: p in places + more <==> p in places || p in more;
    if places == [] {
      assert places + more == more;
    } else {
      hide Add;
      HeadAndTail(places + more);
      assert (places + more)[1..] == places[1..] + more;
      AddAllAppends(Add(image, places[0], w, d), places[1..], more, w, d);
    }
  }
}
