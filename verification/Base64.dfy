/** The strict Base64 codec of RFC 4648, section 4.  Shifts and masks of the 24-bit groups are
    written as divisions and remainders. */
module Base64 {
  import opened Options
  import opened Sequences

  type Sextet = v: int | 0 <= v < 64

  function Letter(v: Sextet): char {
    if v < 26 then 'A' + v as char
    else if v < 52 then 'a' + (v - 26) as char
    else if v < 62 then '0' + (v - 52) as char
    else if v == 62 then '+'
    else '/'
  }

  /** The value of a letter of the alphabet, or -1. */
  function Base64Value(c: char): int {
    if 'A' <= c <= 'Z' then (c - 'A') as int
    else if 'a' <= c <= 'z' then 26 + (c - 'a') as int
    else if '0' <= c <= '9' then 52 + (c - '0') as int
    else if c == '+' then 62
    else if c == '/' then 63
    else -1
  }

  // The 24 bits of a group, cut by shifts and masks

  lemma Cut64(q: nat, r: nat)
    requires r < 64
    ensures (q * 64 + r) / 64 == q && (q * 64 + r) % 64 == r
  {}

  lemma Cut4096(q: nat, r: nat)
    requires r < 0x1000
    ensures (q * 0x1000 + r) / 0x1000 == q
  {}

  lemma Cut262144(q: nat, r: nat)
    requires r < 0x4_0000
    ensures (q * 0x4_0000 + r) / 0x4_0000 == q
  {}

  lemma Cut256(q: nat, r: nat)
    requires r < 256
    ensures (q * 256 + r) / 256 == q && (q * 256 + r) % 256 == r
  {}

  lemma Cut65536(q: nat, r: nat)
    requires r < 0x1_0000
    ensures (q * 0x1_0000 + r) / 0x1_0000 == q
  {}

  lemma SextetsOfPacked(v0: nat, v1: nat, v2: nat, v3: nat, p: nat)
    requires v0 < 64 && v1 < 64 && v2 < 64 && v3 < 64
    requires p == v0 * 0x4_0000 + v1 * 0x1000 + v2 * 64 + v3
    ensures p / 0x4_0000 == v0 && p / 0x1000 % 64 == v1 && p / 64 % 64 == v2 && p % 64 == v3
  {
    Cut262144(v0, v1 * 0x1000 + v2 * 64 + v3);
    Cut4096(v0 * 64 + v1, v2 * 64 + v3);
    Cut64(v0, v1);
    Cut64(v0 * 0x1000 + v1 * 64 + v2, v3);
    Cut64(v0 * 64 + v1, v2);
  }

  lemma BytesOfPacked(b0: nat, b1: nat, b2: nat, p: nat)
    requires b0 < 256 && b1 < 256 && b2 < 256
    requires p == b0 * 0x1_0000 + b1 * 0x100 + b2
    ensures p / 0x1_0000 == b0 && p / 0x100 % 256 == b1 && p % 256 == b2
  {
    Cut65536(b0, b1 * 0x100 + b2);
    Cut256(b0 * 256 + b1, b2);
    Cut256(b0, b1);
  }

  // Groups of up to three bytes

  type Chunk = b: seq<Byte> | 1 <= |b| <= 3 witness [0]

  function At(b: Chunk, i: nat): Byte {
    if i < |b| then b[i] else 0
  }

  function Group(b: Chunk): (g: string)
    ensures |g| == 4
  {
    [Letter(At(b, 0) / 4),
     Letter(At(b, 0) % 4 * 16 + At(b, 1) / 16),
     if |b| > 1 then Letter(At(b, 1) % 16 * 4 + At(b, 2) / 64) else '=',
     if |b| > 2 then Letter(At(b, 2) % 64) else '=']
  }

  function Encoding(bytes: seq<Byte>): string {
    if bytes == [] then ""
    else if |bytes| <= 3 then Group(bytes)
    else Group(bytes[..3]) + Encoding(bytes[3..])
  }

  /** `data` is absent for a null pointer. */
  method EncodeBase64(data: Option<seq<Byte>>, size: nat) returns (encoded: string)
    requires data.Some? ==> |data.value| == size
    ensures encoded == if data.Some? then Encoding(data.value) else ""
  {
    if size != 0 && data.None? {
      return "";
    }
    var bytes := if data.Some? then data.value else [];
    encoded := EncodeLoop(bytes);
  }

  method EncodeLoop(bytes: seq<Byte>) returns (encoded: string)
    ensures encoded == Encoding(bytes)
  {
    hide Group;
    encoded := "";
    var offset := 0;
    while offset < |bytes|
      invariant 0 <= offset
      invariant encoded + Remaining(bytes, offset) == Encoding(bytes)
    {
      var remaining := |bytes| - offset;
      var packed := bytes[offset] as int * 0x1_0000
                  + (if remaining > 1 then bytes[offset + 1] as int * 0x100 else 0)
                  + (if remaining > 2 then bytes[offset + 2] as int else 0);
      ghost var chunk := if remaining <= 3 then bytes[offset..] else bytes[offset..][..3];
      var group := EncodeGroup(packed, remaining, chunk);
      RemainingStep(bytes, offset, chunk);
      hide *;
      assert encoded + (group + Remaining(bytes, offset + 3)) == encoded + group + Remaining(bytes, offset + 3);
      encoded := encoded + group;
      offset := offset + 3;
    }
  }

  ghost function Remaining(bytes: seq<Byte>, offset: nat): string {
    if offset < |bytes| then Encoding(bytes[offset..]) else ""
  }

  lemma RemainingStep(bytes: seq<Byte>, offset: nat, chunk: Chunk)
    requires offset < |bytes|
    requires chunk == if |bytes| - offset <= 3 then bytes[offset..] else bytes[offset..][..3]
    ensures Remaining(bytes, offset) == Group(chunk) + Remaining(bytes, offset + 3)
  {
    assert |bytes| - offset > 3 ==> bytes[offset..][3..] == bytes[offset + 3..];
    hide Group;
  }

  /** The four letters that one pass of the loop pushes. */
  method EncodeGroup(packed: nat, remaining: nat, ghost b: Chunk) returns (group: string)
    requires |b| == if remaining <= 3 then remaining else 3
    requires packed == At(b, 0) as int * 0x1_0000 + At(b, 1) as int * 0x100 + At(b, 2) as int
    ensures group == Group(b)
  {
    SextetsOfPacked(At(b, 0) / 4, At(b, 0) % 4 * 16 + At(b, 1) / 16, At(b, 1) % 16 * 4 + At(b, 2) / 64,
                    At(b, 2) % 64, packed);
    group := [Letter(packed / 0x4_0000)];
    group := group + [Letter(packed / 0x1000 % 64)];
    group := group + [if remaining > 1 then Letter(packed / 64 % 64) else '='];
    group := group + [if remaining > 2 then Letter(packed % 64) else '='];
  }

  // What a group says about its bytes

  /** The three shapes of a group, and the unused bits that must be zero. */
  ghost predicate GoodGroup(g: string) {
    && |g| == 4
    && Base64Value(g[0]) >= 0 && Base64Value(g[1]) >= 0
    && (if g[3] != '=' then Base64Value(g[2]) >= 0 && Base64Value(g[3]) >= 0
        else if g[2] != '=' then Base64Value(g[2]) >= 0 && Base64Value(g[2]) % 4 == 0
        else Base64Value(g[1]) % 16 == 0)
  }

  function GroupPadding(g: string): nat
    requires |g| == 4
  {
    (if g[3] == '=' then 1 else 0) + (if g[2] == '=' then 1 else 0)
  }

  lemma LettersHaveValues()
    ensures forall v: Sextet :: Base64Value(Letter(v)) == v && Letter(v) != '='
    ensures forall c :: Base64Value(c) >= 0 ==> Base64Value(c) < 64 && c == Letter(Base64Value(c))
  {}

  lemma GroupIsGood(b: Chunk)
    ensures GoodGroup(Group(b)) && GroupPadding(Group(b)) == 3 - |b|
  {
    LettersHaveValues();
    hide Letter, Base64Value;
  }

  /** The chunk of a good group whose letters have the values `v0` to `v3`. */
  function DecodedGroup(v0: Sextet, v1: Sextet, v2: Sextet, v3: Sextet, padding: nat): (b: Chunk) {
    [v0 as int * 4 + v1 as int / 16]
    + (if padding < 2 then [v1 as int % 16 * 16 + v2 as int / 4] else [])
    + (if padding == 0 then [v2 as int % 4 * 64 + v3 as int] else [])
  }

  /** Decoding a good group gives a chunk that encodes to it. */
  lemma GoodGroupDecodes(g: string, v0: Sextet, v1: Sextet, v2: Sextet, v3: Sextet)
    requires GoodGroup(g)
    requires v0 == Base64Value(g[0]) && v1 == Base64Value(g[1])
    requires v2 == (if g[2] == '=' then 0 else Base64Value(g[2]))
    requires v3 == (if g[3] == '=' then 0 else Base64Value(g[3]))
    ensures var b := DecodedGroup(v0, v1, v2, v3, GroupPadding(g));
            Group(b) == g && |b| == 3 - GroupPadding(g)
  {
    LettersHaveValues();
    hide Letter, Base64Value;
    var b := DecodedGroup(v0, v1, v2, v3, GroupPadding(g));
    assert At(b, 0) / 4 == v0;
    assert At(b, 0) % 4 * 16 + At(b, 1) / 16 == v1;
    assert |b| > 1 ==> At(b, 1) % 16 * 4 + At(b, 2) / 64 == v2;
    assert |b| > 2 ==> At(b, 2) % 64 == v3;
  }

  lemma GroupIsInjective(a: Chunk, b: Chunk)
    requires Group(a) == Group(b)
    ensures a == b
  {
    GroupIsGood(a);
    GroupIsGood(b);
    LettersHaveValues();
    hide Letter, Base64Value;
    assert At(a, 0) / 4 == At(b, 0) / 4;
    assert At(a, 0) % 4 * 16 + At(a, 1) / 16 == At(b, 0) % 4 * 16 + At(b, 1) / 16;
    assert |a| > 1 ==> At(a, 1) % 16 * 4 + At(a, 2) / 64 == At(b, 1) % 16 * 4 + At(b, 2) / 64;
    assert |a| > 2 ==> At(a, 2) % 64 == At(b, 2) % 64;
  }

  // The whole text

  lemma {:induction false} EncodingLength(bytes: seq<Byte>)
    ensures |Encoding(bytes)| == (|bytes| + 2) / 3 * 4
  {
    hide Group;
    if |bytes| > 3 {
      EncodingLength(bytes[3..]);
    }
  }

  /** Group `k` of the text is the encoding of chunk `k`; it is short only at the end. */
  lemma {:induction false} GroupAt(bytes: seq<Byte>, k: nat)
    requires 3 * k < |bytes|
    ensures |Encoding(bytes)| >= 4 * k + 4
    ensures Encoding(bytes)[4 * k..4 * k + 4]
         == Group(if 3 * k + 3 <= |bytes| then bytes[3 * k..3 * k + 3] else bytes[3 * k..])
  {
    hide Group;
    EncodingLength(bytes);
    if |bytes| > 3 {
      var text := Group(bytes[..3]) + Encoding(bytes[3..]);
      if k == 0 {
        assert text[..4] == Group(bytes[..3]);
      } else {
        GroupAt(bytes[3..], k - 1);
        assert text[4 * k..4 * k + 4] == Encoding(bytes[3..])[4 * (k - 1)..4 * (k - 1) + 4];
        var rest := bytes[3..];
        if 3 * k + 3 <= |bytes| {
          assert rest[3 * (k - 1)..3 * (k - 1) + 3] == bytes[3 * k..3 * k + 3];
        } else {
          assert rest[3 * (k - 1)..] == bytes[3 * k..];
        }
      }
    } else {
      assert bytes[0..] == bytes && (|bytes| == 3 ==> bytes[0..3] == bytes);
    }
  }

  lemma {:induction false} EncodingAppends(bytes: seq<Byte>, chunk: Chunk)
    requires |bytes| % 3 == 0
    ensures Encoding(bytes + chunk) == Encoding(bytes) + Group(chunk)
  {
    hide Group;
    if bytes == [] {
      assert bytes + chunk == chunk;
    } else {
      EncodingAppends(bytes[3..], chunk);
      assert (bytes + chunk)[..3] == bytes[..3];
      assert (bytes + chunk)[3..] == bytes[3..] + chunk;
      if |bytes| == 3 {
        assert bytes[..3] == bytes;
      }
    }
  }

  lemma {:induction false} EncodingIsInjective(a: seq<Byte>, b: seq<Byte>)
    requires Encoding(a) == Encoding(b)
    ensures a == b
  {
    hide Group;
    EncodingLength(a);
    EncodingLength(b);
    if a != [] && b != [] {
      GroupAt(a, 0);
      GroupAt(b, 0);
      var headA, headB := if |a| >= 3 then a[0..3] else a[0..], if |b| >= 3 then b[0..3] else b[0..];
      GroupIsInjective(headA, headB);
      if |a| > 3 || |b| > 3 {
        assert |a| > 3 && |b| > 3;
        assert Encoding(a)[4..] == Encoding(a[3..]) && Encoding(b)[4..] == Encoding(b[3..]);
        EncodingIsInjective(a[3..], b[3..]);
        assert a == headA + a[3..] && b == headB + b[3..];
      }
    }
  }

  // Decoding

  datatype GroupError = PaddingInvalid | CharacterInvalid | NoncanonicalBits

  datatype DecodeError = LengthInvalid | TooLarge | InGroup(error: GroupError)

  datatype DecodeResult = Decoded(bytes: seq<Byte>) | Refused(error: DecodeError, errorOffset: nat)

  datatype GroupResult = GroupOk(chunk: Chunk) | GroupBad(error: GroupError, index: nat)

  /** One group: the inner loop and the checks after it.  Only the last group may be padded.  The
      check for data after padding is never met: its branch is proved dead. */
  method DecodeGroup(group: string, finalGroup: bool, padding: nat) returns (result: GroupResult)
    requires |group| == 4 && padding <= 2
    requires finalGroup ==> padding == GroupPadding(group)
    ensures result.GroupOk? <==> GoodGroup(group) && (finalGroup || GroupPadding(group) == 0)
    ensures result.GroupOk? ==> Group(result.chunk) == group && |result.chunk| == 3 - GroupPadding(group)
    ensures result.GroupBad? ==> result.index < 4
  {
    var values: seq<Sextet> := [0, 0, 0, 0];
    var index := 0;
    while index < 4
      invariant 0 <= index <= 4 && |values| == 4
      invariant forall i | 0 <= i < index ::
                  if group[i] == '=' then values[i] == 0 && finalGroup && i >= 2 && (i == 2 ==> group[3] == '=')
                  else values[i] == Base64Value(group[i])
    {
      var ch := group[index];
      if ch == '=' {
        if !finalGroup || index < 2 || (index == 2 && group[3] != '=') {
          return GroupBad(PaddingInvalid, index);
        }
        values := values[index := 0];
        index := index + 1;
        continue;
      }
      if Base64Value(ch) < 0 {
        return GroupBad(CharacterInvalid, index);
      }
      LettersHaveValues();
      values := values[index := Base64Value(ch)];
      if finalGroup && padding != 0 && index >= 4 - padding {
        assert false;  // data after padding: the padding itself was refused before
      }
      index := index + 1;
    }
    if finalGroup && padding == 2 && values[1] % 16 != 0 {
      return GroupBad(NoncanonicalBits, 1);
    }
    if finalGroup && padding == 1 && values[2] % 4 != 0 {
      return GroupBad(NoncanonicalBits, 2);
    }
    GoodGroupDecodes(group, values[0], values[1], values[2], values[3]);
    var chunk := AssembleGroup(values[0], values[1], values[2], values[3], finalGroup, padding);
    result := GroupOk(chunk);
  }

  method AssembleGroup(v0: Sextet, v1: Sextet, v2: Sextet, v3: Sextet, finalGroup: bool, padding: nat)
    returns (chunk: Chunk)
    requires padding <= 2
    ensures chunk == DecodedGroup(v0, v1, v2, v3, if finalGroup then padding else 0)
  {
    var packed: nat := v0 as int * 0x4_0000 + v1 as int * 0x1000 + v2 as int * 64 + v3 as int;
    BytesOfPacked(v0 as int * 4 + v1 as int / 16, v1 as int % 16 * 16 + v2 as int / 4,
                  v2 as int % 4 * 64 + v3 as int, packed);
    var bytes: seq<Byte> := [packed / 0x1_0000];
    if !finalGroup || padding < 2 {
      bytes := bytes + [packed / 0x100 % 256];
    }
    if !finalGroup || padding == 0 {
      bytes := bytes + [packed % 256];
    }
    chunk := bytes;
  }

  /** Main result: decoding succeeds exactly on the encoding of some bytes within the limit, and
      then returns them. */
  method DecodeBase64Strict(encoded: string, maxDecodedBytes: U64) returns (result: DecodeResult)
    ensures result.Decoded? ==> Encoding(result.bytes) == encoded && |result.bytes| <= maxDecodedBytes
    ensures forall bytes | Encoding(bytes) == encoded && |bytes| <= maxDecodedBytes :: result == Decoded(bytes)
    ensures forall bytes | Encoding(bytes) == encoded && |bytes| > maxDecodedBytes :: result == Refused(TooLarge, 0)
    ensures result.Refused? ==> (result.error == LengthInvalid <==> |encoded| % 4 != 0)
  {
    if encoded == "" {
      OnlyEmptyEncodesToEmpty();
      return Decoded([]);
    }
    hide Encoding, Group, GoodGroup;
    if |encoded| % 4 != 0 {
      forall bytes: seq<Byte> ensures Encoding(bytes) != encoded { EncodingLength(bytes); }
      return Refused(LengthInvalid, |encoded|);
    }
    var padding := 0;
    if encoded[|encoded| - 1] == '=' {
      padding := padding + 1;
    }
    if encoded[|encoded| - 2] == '=' {
      padding := padding + 1;
    }
    var groups := |encoded| / 4;
    var decodedSize: nat := groups * 3 - padding;
    if groups > MAX_U64 / 3 || decodedSize > maxDecodedBytes {
      forall bytes | Encoding(bytes) == encoded ensures |bytes| == decodedSize {
        DecodedSize(bytes, encoded);
      }
      return Refused(TooLarge, 0);
    }
    result := DecodeGroups(encoded, padding);
    if result.Decoded? {
      forall candidate | Encoding(candidate) == encoded ensures candidate == result.bytes {
        EncodingIsInjective(candidate, result.bytes);
      }
      DecodedSize(result.bytes, encoded);
    }
  }

  /** The loop over the groups. */
  method DecodeGroups(encoded: string, padding: nat) returns (result: DecodeResult)
    requires |encoded| % 4 == 0 && |encoded| >= 4 && padding <= 2 && padding == GroupPadding(encoded[|encoded| - 4..])
    ensures result.Decoded? ==> Encoding(result.bytes) == encoded
    ensures result.Refused? ==> forall bytes :: Encoding(bytes) != encoded
    ensures result.Refused? ==> result.error.InGroup?
  {
    var bytes: seq<Byte> := [];
    assert Encoding(bytes) == "";
    hide *;
    var offset := 0;
    ghost var k := 0;
    while offset < |encoded|
      invariant 0 <= offset <= |encoded| && offset == 4 * k
      invariant Encoding(bytes) == encoded[..offset]
      invariant offset < |encoded| ==> |bytes| == 3 * k
    {
      var finalGroup := offset + 4 == |encoded|;
      var group := encoded[offset..offset + 4];
      LastGroup(encoded, offset);
      var decoded := DecodeGroup(group, finalGroup, padding);
      if decoded.GroupBad? {
        BadGroupRefutes(encoded, k, group);
        return Refused(InGroup(decoded.error), offset + decoded.index);
      }
      EncodingGrows(encoded, k, bytes, decoded.chunk);
      bytes := bytes + decoded.chunk;
      offset := offset + 4;
      k := k + 1;
    }
    assert encoded[..offset] == encoded;
    result := Decoded(bytes);
  }

  lemma LastGroup(text: string, offset: nat)
    requires offset + 4 <= |text|
    ensures offset + 4 == |text| ==> text[offset..offset + 4] == text[|text| - 4..]
  {}

  lemma EncodingGrows(text: string, k: nat, bytes: seq<Byte>, chunk: Chunk)
    requires 4 * k + 4 <= |text| && |bytes| == 3 * k
    requires Encoding(bytes) == text[..4 * k] && Group(chunk) == text[4 * k..4 * k + 4]
    ensures Encoding(bytes + chunk) == text[..4 * k + 4]
  {
    hide *;
    EncodingAppends(bytes, chunk);
    PrefixGrows(text, 4 * k, 4 * k + 4);
  }

  lemma OnlyEmptyEncodesToEmpty()
    ensures forall bytes :: Encoding(bytes) == "" ==> bytes == []
  {
    forall bytes | Encoding(bytes) == "" ensures bytes == [] {
      EncodingLength(bytes);
    }
  }

  /** Every group of an encoding is good, and only the last one can be padded. */
  lemma GroupsAreGood(bytes: seq<Byte>, k: nat, text: string)
    requires 4 * k + 4 <= |text|
    ensures Encoding(bytes) == text ==>
              var group := text[4 * k..4 * k + 4];
              GoodGroup(group) && (4 * k + 4 == |text| || GroupPadding(group) == 0)
  {
    hide Encoding, Group, GoodGroup;
    if Encoding(bytes) == text {
      EncodingLength(bytes);
      GroupAt(bytes, k);
      GroupIsGood(if 3 * k + 3 <= |bytes| then bytes[3 * k..3 * k + 3] else bytes[3 * k..]);
    }
  }

  lemma BadGroupRefutes(text: string, k: nat, group: string)
    requires 4 * k + 4 <= |text| && group == text[4 * k..4 * k + 4]
    requires !GoodGroup(group) || (4 * k + 4 < |text| && GroupPadding(group) != 0)
    ensures forall bytes :: Encoding(bytes) != text
  {
    forall bytes ensures Encoding(bytes) != text {
      GroupsAreGood(bytes, k, text);
    }
  }

  lemma DecodedSize(bytes: seq<Byte>, text: string)
    requires Encoding(bytes) == text && text != "" && |text| % 4 == 0
    ensures |bytes| == |text| / 4 * 3 - GroupPadding(text[|text| - 4..])
  {
    hide Encoding, Group, GoodGroup;
    EncodingLength(bytes);
    var k := |text| / 4 - 1;
    assert text[4 * k..] == text[4 * k..4 * k + 4];
    GroupAt(bytes, k);
    GroupIsGood(if 3 * k + 3 <= |bytes| then bytes[3 * k..3 * k + 3] else bytes[3 * k..]);
  }
}
