/** The rules that decide what happens to an exception: reading selectors, merging updates, choosing a rule. */
module ExceptionPolicy {
  import opened Options
  import opened Text

  const MAX_RULES := 64
  const MAX_SELECTORS_PER_RULE := 32
  const MAX_SELECTORS_TOTAL := 512
  const ALL_BITS: bv32 := 0xFFFF_FFFF

  datatype SelectorKind = Wildcard | Masked | Exact

  datatype Chance = AnyChance | FirstChance | SecondChance

  datatype Action = Pause | Handled | NotHandled

  datatype Selector = Selector(kind: SelectorKind, value: bv32, mask: bv32, maskBits: nat, canonical: string)

  datatype Rule = Rule(ruleId: string, selectors: seq<Selector>, chance: Chance, action: Action, priority: int,
                       enabled: bool, insertionOrder: U64)

  datatype Policy = Policy(enabled: bool, firstChanceDefault: Action, secondChanceDefault: Action, version: U64,
                           nextInsertionOrder: U64, rules: seq<Rule>)

  datatype Update = Update(replace: bool, enabled: Option<bool>, firstDefault: Option<Action>,
                           secondDefault: Option<Action>, rules: seq<Rule>)

  // Counting bits

  function LowBit(v: bv32): (b: nat)
    ensures b <= 1
  {
    if v & 1 == 1 then 1 else 0
  }

  function Half(v: bv32): bv32 {
    v >> 1
  }

  function Cleared(v: bv32): bv32 {
    v & (v - 1)
  }

  /** How many of the lowest `n` bits are set. */
  function BitsBelow(v: bv32, n: nat): nat {
    if n == 0 then 0 else LowBit(v) + BitsBelow(Half(v), n - 1)
  }

  function BitCount(v: bv32): nat {
    BitsBelow(v, 32)
  }

  /** The number whose lowest `n` bits are set. */
  function LowBits(n: nat): bv32 {
    if n == 0 then 0 else LowBits(n - 1) * 2 + 1
  }

  predicate Fits(v: bv32, n: nat) {
    v & !LowBits(n) == 0
  }

  lemma FourMoreBits(n: nat)
    ensures LowBits(n + 4) == LowBits(n) * 16 + 15
  {
    assert LowBits(n + 2) == LowBits(n) * 4 + 3;
  }

  lemma EverythingFits(v: bv32)
    ensures Fits(v, 32)
  {
    FourMoreBits(0); FourMoreBits(4); FourMoreBits(8); FourMoreBits(12);
    FourMoreBits(16); FourMoreBits(20); FourMoreBits(24); FourMoreBits(28);
    hide LowBits;
    assert v & !LowBits(32) == 0;
  }

  lemma OddBits(v: bv32)
    requires LowBit(v) == 1
    ensures LowBit(Cleared(v)) == 0 && Half(Cleared(v)) == Half(v)
  {
  }

  lemma EvenBits(v: bv32)
    requires LowBit(v) == 0
    ensures LowBit(Cleared(v)) == 0 && Half(Cleared(v)) == Cleared(Half(v))
    ensures v != 0 ==> Half(v) != 0
  {
  }

  lemma FitsHalf(v: bv32, n: nat)
    requires Fits(v, n) && n > 0
    ensures Fits(Half(v), n - 1)
  {
  }

  lemma FitsNothing(v: bv32)
    requires Fits(v, 0)
    ensures v == 0
  {
  }

  /** Taking one from a number and keeping the common bits clears the lowest set bit. */
  lemma {:induction false} LowestBitCleared(v: bv32, n: nat)
    requires v != 0 && Fits(v, n)
    ensures BitsBelow(Cleared(v), n) + 1 == BitsBelow(v, n)
    decreases n
  {
    hide LowBit, Half, Cleared, Fits;
    if n == 0 {
      FitsNothing(v);
    } else if LowBit(v) == 1 {
      OddBits(v);
    } else {
      EvenBits(v);
      FitsHalf(v, n);
      LowestBitCleared(Half(v), n - 1);
    }
  }

  lemma NothingSet(v: bv32)
    ensures v == 0 <==> LowBit(v) == 0 && Half(v) == 0
  {
  }

  lemma {:induction false} BitsBounded(v: bv32, n: nat)
    requires Fits(v, n)
    ensures BitsBelow(v, n) <= n && (BitsBelow(v, n) == 0 <==> v == 0)
    decreases n
  {
    hide Half, Fits, LowBit;
    if n == 0 {
      FitsNothing(v);
    } else {
      FitsHalf(v, n);
      BitsBounded(Half(v), n - 1);
      NothingSet(v);
    }
  }

  method Popcount(value0: bv32) returns (count: nat)
    ensures count == BitCount(value0)
  {
    hide BitsBelow, Cleared, Fits;
    count := 0;
    var value := value0;
    while value != 0
      invariant count + BitCount(value) == BitCount(value0)
      decreases BitCount(value)
    {
      EverythingFits(value);
      LowestBitCleared(value, 32);
      value := Cleared(value);
      count := count + 1;
    }
    EverythingFits(value);
    BitsBounded(value, 32);
  }

  // Selectors

  predicate ValidSelector(s: Selector) {
    match s.kind
    case Wildcard => s.value == 0 && s.mask == 0 && s.maskBits == 0
    case Masked => s.mask != 0 && s.maskBits == BitCount(s.mask) && 1 <= s.maskBits <= 32 && s.value & s.mask == s.value
    case Exact => s.mask == ALL_BITS && s.maskBits == 32
  }

  predicate Matches(s: Selector, code: bv32) {
    if s.kind.Exact? then code == s.value
    else if s.kind.Masked? then code & s.mask == s.value & s.mask
    else true
  }

  /** Reading numbers, trimming blanks and writing canonical forms are the caller's. */
  datatype Lexer = Lexer(trim: string -> string, readU32: string -> Option<bv32>, canonical: bv32 -> string)

  function SelectorOf(lexer: Lexer, token: string): (r: Option<Selector>) {
    if token == "*" then Some(Selector(Wildcard, 0, 0, 0, "*"))
    else
      var slash := Find(token, "/");
      if slash.None? then
        var value := lexer.readU32(token);
        if value.None? then None
        else Some(Selector(Exact, value.value, ALL_BITS, 32, lexer.canonical(value.value)))
      else
        var value, mask := lexer.readU32(token[..slash.value]), lexer.readU32(token[slash.value + 1..]);
        if Find(token[slash.value + 1..], "/").Some? || value.None? || mask.None? || mask.value == 0 then None
        else
          var kept := value.value & mask.value;
          Some(Selector(Masked, kept, mask.value, BitCount(mask.value),
                        lexer.canonical(kept) + "/" + lexer.canonical(mask.value)))
  }

  method ReadSelector(lexer: Lexer, token: string) returns (r: Option<Selector>)
    ensures r == SelectorOf(lexer, token)
  {
    hide Find, BitCount;
    if token == "*" {
      return Some(Selector(Wildcard, 0, 0, 0, "*"));
    }
    var slash := Find(token, "/");
    if slash.None? {
      var value := lexer.readU32(token);
      if value.None? {
        return None;
      }
      return Some(Selector(Exact, value.value, ALL_BITS, 32, lexer.canonical(value.value)));
    }
    var value, mask := lexer.readU32(token[..slash.value]), lexer.readU32(token[slash.value + 1..]);
    if Find(token[slash.value + 1..], "/").Some? || value.None? || mask.None? || mask.value == 0 {
      return None;
    }
    var bits := Popcount(mask.value);
    var kept := value.value & mask.value;
    return Some(Selector(Masked, kept, mask.value, bits, lexer.canonical(kept) + "/" + lexer.canonical(mask.value)));
  }

  /** What lies between the commas. */
  function Tokens(raw: string): (r: seq<string>)
    ensures r != []
    decreases |raw|
  {
    var comma := Find(raw, ",");
    if comma.None? then [raw] else [raw[..comma.value]] + Tokens(raw[comma.value + 1..])
  }

  /** A list of selectors is read whole or not at all: every item must be one, and there may be at most 32. */
  method ParseSelectors(lexer: Lexer, raw: string) returns (r: Option<seq<Selector>>)
    ensures r.Some? <==> |Tokens(raw)| <= MAX_SELECTORS_PER_RULE
                         && forall i | 0 <= i < |Tokens(raw)| ::
                              lexer.trim(Tokens(raw)[i]) != "" && SelectorOf(lexer, lexer.trim(Tokens(raw)[i])).Some?
    ensures r.Some? ==> |r.value| == |Tokens(raw)|
                        && forall i | 0 <= i < |r.value| :: SelectorOf(lexer, lexer.trim(Tokens(raw)[i])) == Some(r.value[i])
  {
    hide Find, SelectorOf, Tokens;
    var out: seq<Selector> := [];
    var start := 0;
    ghost var tokens := Tokens(raw);
    ghost var done: nat := 0;
    assert raw[0..] == raw;
    while true
      invariant start <= |raw| && done < |tokens| && Tokens(raw[start..]) == tokens[done..]
      invariant |out| == done <= MAX_SELECTORS_PER_RULE
      invariant forall i | 0 <= i < done ::
                  lexer.trim(tokens[i]) != "" && SelectorOf(lexer, lexer.trim(tokens[i])) == Some(out[i])
      decreases |raw| - start
    {
      var comma := Find(raw[start..], ",");
      var token := if comma.None? then raw[start..] else raw[start..start + comma.value];
      TokensUnfold(raw, start, tokens, done);
      token := lexer.trim(token);
      if token == "" {
        return None;
      }
      var selector := ReadSelector(lexer, token);
      if selector.None? {
        return None;
      }
      out := out + [selector.value];
      if |out| > MAX_SELECTORS_PER_RULE {
        return None;
      }
      if comma.None? {
        return Some(out);
      }
      start := start + comma.value + 1;
      done := done + 1;
    }
  }

  lemma TokensUnfold(raw: string, start: nat, tokens: seq<string>, done: nat)
    requires start <= |raw| && done < |tokens| && Tokens(raw[start..]) == tokens[done..]
    ensures var comma := Find(raw[start..], ",");
            if comma.None? then tokens[done] == raw[start..] && |tokens| == done + 1
            else
              && start + comma.value + 1 <= |raw| && tokens[done] == raw[start..start + comma.value]
              && done + 1 < |tokens| && Tokens(raw[start + comma.value + 1..]) == tokens[done + 1..]
  {
    hide Find;
    var comma := Find(raw[start..], ",");
    assert tokens[done..][0] == tokens[done] && tokens[done..][1..] == tokens[done + 1..];
    if comma.Some? {
      assert raw[start..][..comma.value] == raw[start..start + comma.value];
      assert raw[start..][comma.value + 1..] == raw[start + comma.value + 1..];
    }
  }

  /** Every selector that is read is well-formed. */
  lemma ReadSelectorIsValid(lexer: Lexer, token: string)
    requires SelectorOf(lexer, token).Some?
    ensures ValidSelector(SelectorOf(lexer, token).value)
  {
    hide Find;
    var s := SelectorOf(lexer, token).value;
    if s.kind.Masked? {
      EverythingFits(s.mask);
      BitsBounded(s.mask, 32);
      hide BitsBelow;
      var value := lexer.readU32(token[..Find(token, "/").value]).value;
      assert (value & s.mask) & s.mask == value & s.mask;
    }
  }
}
