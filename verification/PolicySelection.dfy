/** Choosing the rule for an exception: the best match, whatever the order of the rules. */
module PolicySelection {
  import opened Options
  import opened Text
  import opened ExceptionPolicy
  import opened PolicyMerge

  datatype Source = PolicyDisabled | ByRule | FirstChanceDefault | SecondChanceDefault

  datatype Decision = Decision(action: Action, source: Source, ruleId: string, matchedSelector: string)

  // Ranks

  /** What makes one match better than another. */
  datatype Rank = Rank(kind: int, bits: int, priority: int, order: int, id: string)

  predicate Better(a: Rank, b: Rank) {
    a.kind > b.kind || (a.kind == b.kind && a.bits > b.bits)
    || (a.kind == b.kind && a.bits == b.bits && a.priority > b.priority)
    || (a.kind == b.kind && a.bits == b.bits && a.priority == b.priority && a.order < b.order)
    || (a.kind == b.kind && a.bits == b.bits && a.priority == b.priority && a.order == b.order && Less(a.id, b.id))
  }

  /** Ranks are totally ordered. */
  lemma BetterOrders(a: Rank, b: Rank, c: Rank)
    ensures Better(a, b) && Better(b, c) ==> Better(a, c)
    ensures Better(a, b) ==> !Better(b, a)
    ensures Better(a, b) || Better(b, a) || a == b
  {
    LessIsTotal(a.id, b.id);
    if Less(a.id, b.id) && Less(b.id, c.id) {
      LessIsTransitive(a.id, b.id, c.id);
    }
    hide Less;
  }

  // Candidates

  function KindRank(kind: SelectorKind): int {
    match kind
    case Exact => 2
    case Masked => 1
    case Wildcard => 0
  }

  function RankOf(rule: Rule, selector: Selector): Rank {
    Rank(KindRank(selector.kind), if selector.kind.Masked? then selector.maskBits else 0, rule.priority,
         rule.insertionOrder, rule.ruleId)
  }

  /** The rule is asked about exceptions of this chance. */
  predicate Applies(rule: Rule, firstChance: bool) {
    rule.enabled && !(rule.chance.FirstChance? && !firstChance) && !(rule.chance.SecondChance? && firstChance)
  }

  /** Selector `j` of rule `i` takes the exception. */
  predicate Candidate(rules: seq<Rule>, code: bv32, firstChance: bool, i: nat, j: nat) {
    i < |rules| && j < |rules[i].selectors| && Applies(rules[i], firstChance) && Matches(rules[i].selectors[j], code)
  }

  function RankAt(rules: seq<Rule>, i: nat, j: nat): Rank
    requires i < |rules| && j < |rules[i].selectors|
  {
    RankOf(rules[i], rules[i].selectors[j])
  }

  predicate Earlier(k: nat, l: nat, i: nat, j: nat) {
    k < i || (k == i && l < j)
  }

  /** Among the candidates scanned before rule `iEnd`, selector `jEnd`, this one is best, and the first of its rank. */
  ghost predicate BestBefore(rules: seq<Rule>, code: bv32, firstChance: bool, iEnd: nat, jEnd: nat, i: nat, j: nat) {
    && Candidate(rules, code, firstChance, i, j) && Earlier(i, j, iEnd, jEnd)
    && (forall k: nat, l: nat | Candidate(rules, code, firstChance, k, l) && Earlier(k, l, iEnd, jEnd) ::
          && !Better(RankAt(rules, k, l), RankAt(rules, i, j))
          && (Earlier(k, l, i, j) ==> Better(RankAt(rules, i, j), RankAt(rules, k, l))))
  }

  ghost predicate NoneBefore(rules: seq<Rule>, code: bv32, firstChance: bool, iEnd: nat, jEnd: nat) {
    forall k: nat, l: nat | Candidate(rules, code, firstChance, k, l) :: !Earlier(k, l, iEnd, jEnd)
  }

  ghost predicate Best(rules: seq<Rule>, code: bv32, firstChance: bool, i: nat, j: nat) {
    BestBefore(rules, code, firstChance, |rules|, 0, i, j)
  }

  ghost predicate ScanState(rules: seq<Rule>, code: bv32, firstChance: bool, iEnd: nat, jEnd: nat, best: Option<(nat, nat)>) {
    if best.None? then NoneBefore(rules, code, firstChance, iEnd, jEnd)
    else BestBefore(rules, code, firstChance, iEnd, jEnd, best.value.0, best.value.1)
  }

  lemma ScanStep(rules: seq<Rule>, code: bv32, firstChance: bool, i: nat, j: nat, best: Option<(nat, nat)>)
    requires i < |rules| && j < |rules[i].selectors| && ScanState(rules, code, firstChance, i, j, best)
    requires best.Some? ==> Candidate(rules, code, firstChance, best.value.0, best.value.1)
    ensures if !Candidate(rules, code, firstChance, i, j) then ScanState(rules, code, firstChance, i, j + 1, best)
            else if best.None? || Better(RankAt(rules, i, j), RankAt(rules, best.value.0, best.value.1))
            then ScanState(rules, code, firstChance, i, j + 1, Some((i, j)))
            else ScanState(rules, code, firstChance, i, j + 1, best)
  {
    hide Better, RankAt, Matches, Applies;
    var x := RankAt(rules, i, j);
    BetterOrders(x, x, x);
    if best.Some? && Candidate(rules, code, firstChance, i, j) {
      var b := RankAt(rules, best.value.0, best.value.1);
      forall k: nat, l: nat | Better(x, b) && Candidate(rules, code, firstChance, k, l) && Earlier(k, l, i, j + 1)
        ensures !Better(RankAt(rules, k, l), x) && (Earlier(k, l, i, j) ==> Better(x, RankAt(rules, k, l))) {
        var c := RankAt(rules, k, l);
        BetterOrders(x, b, c);
        BetterOrders(c, x, b);
        BetterOrders(c, b, x);
      }
    }
  }

  lemma NextRule(rules: seq<Rule>, code: bv32, firstChance: bool, i: nat, best: Option<(nat, nat)>)
    requires i < |rules| && ScanState(rules, code, firstChance, i, |rules[i].selectors|, best)
    ensures ScanState(rules, code, firstChance, i + 1, 0, best)
  {
    hide Better, RankAt, Matches, Applies;
  }

  lemma SkippedRule(rules: seq<Rule>, code: bv32, firstChance: bool, i: nat, best: Option<(nat, nat)>)
    requires i < |rules| && ScanState(rules, code, firstChance, i, 0, best) && !Applies(rules[i], firstChance)
    ensures ScanState(rules, code, firstChance, i + 1, 0, best)
  {
    hide Better, RankAt, Matches, Applies;
  }

  // The choice

  /** What the policy decides: the action of the best match, or the default for the chance. */
  ghost predicate Decides(policy: Policy, code: bv32, firstChance: bool, d: Decision) {
    if !policy.enabled then d == Decision(Pause, PolicyDisabled, "", "")
    else if NoneBefore(policy.rules, code, firstChance, |policy.rules|, 0) then
      d == (if firstChance then Decision(policy.firstChanceDefault, FirstChanceDefault, "", "")
            else Decision(policy.secondChanceDefault, SecondChanceDefault, "", ""))
    else exists i: nat, j: nat :: Best(policy.rules, code, firstChance, i, j) && d == DecisionAt(policy.rules, i, j)
  }

  function DecisionAt(rules: seq<Rule>, i: nat, j: nat): Decision {
    if i < |rules| && j < |rules[i].selectors|
    then Decision(rules[i].action, ByRule, rules[i].ruleId, rules[i].selectors[j].canonical)
    else Decision(Pause, ByRule, "", "")
  }

  lemma ScanStart(rules: seq<Rule>, code: bv32, firstChance: bool)
    ensures ScanState(rules, code, firstChance, 0, 0, None)
  {
  }

  lemma ScanEnd(rules: seq<Rule>, code: bv32, firstChance: bool, best: Option<(nat, nat)>)
    requires ScanState(rules, code, firstChance, |rules|, 0, best)
    ensures NoneBefore(rules, code, firstChance, |rules|, 0) <==> best.None?
    ensures best.Some? ==> Best(rules, code, firstChance, best.value.0, best.value.1)
  {
    hide Better, RankAt, Matches, Applies;
  }

  method SelectPolicy(policy: Policy, code: bv32, firstChance: bool) returns (d: Decision)
    ensures Decides(policy, code, firstChance, d)
  {
    ScanStart(policy.rules, code, firstChance);
    hide BestBefore, NoneBefore, Better, Matches, ScanState;
    if !policy.enabled {
      return Decision(Pause, PolicyDisabled, "", "");
    }
    var rules := policy.rules;
    var best: Option<(nat, nat)> := None;
    for i := 0 to |rules|
      invariant ScanState(rules, code, firstChance, i, 0, best)
      invariant best.Some? ==> Candidate(rules, code, firstChance, best.value.0, best.value.1)
    {
      if !rules[i].enabled || (rules[i].chance.FirstChance? && !firstChance)
         || (rules[i].chance.SecondChance? && firstChance) {
        SkippedRule(rules, code, firstChance, i, best);
        continue;
      }
      for j := 0 to |rules[i].selectors|
        invariant ScanState(rules, code, firstChance, i, j, best)
        invariant best.Some? ==> Candidate(rules, code, firstChance, best.value.0, best.value.1)
      {
        ScanStep(rules, code, firstChance, i, j, best);
        if !Matches(rules[i].selectors[j], code) {
          continue;
        }
        if best.None? || Better(RankAt(rules, i, j), RankAt(rules, best.value.0, best.value.1)) {
          best := Some((i, j));
        }
      }
      NextRule(rules, code, firstChance, i, best);
    }
    if best.Some? {
      d := DecisionAt(rules, best.value.0, best.value.1);
      ScanEnd(rules, code, firstChance, best);
    } else {
      d := if firstChance then Decision(policy.firstChanceDefault, FirstChanceDefault, "", "")
           else Decision(policy.secondChanceDefault, SecondChanceDefault, "", "");
      ScanEnd(rules, code, firstChance, best);
    }
  }

  // What the choice means

  ghost predicate InOrder(rules: seq<Rule>) {
    forall i, k | 0 <= i < k < |rules| :: rules[i].insertionOrder != rules[k].insertionOrder
  }

  /** Main result: of all matches the chosen one is of the most specific kind; of those it has the most mask bits; of
      those the highest priority; and of those it is of the rule that was inserted first. */
  lemma BestIsLexicographic(rules: seq<Rule>, code: bv32, firstChance: bool, i: nat, j: nat, k: nat, l: nat)
    requires Best(rules, code, firstChance, i, j) && Candidate(rules, code, firstChance, k, l)
    ensures var best, other := RankAt(rules, i, j), RankAt(rules, k, l);
            && other.kind <= best.kind
            && (other.kind == best.kind ==> other.bits <= best.bits)
            && (other.kind == best.kind && other.bits == best.bits ==> other.priority <= best.priority)
            && (other.kind == best.kind && other.bits == best.bits && other.priority == best.priority ==>
                  best.order <= other.order)
    ensures InOrder(rules) && RankAt(rules, i, j) == RankAt(rules, k, l) ==> i == k && j <= l
  {
    hide Less, Matches, Applies;
    assert Earlier(k, l, |rules|, 0);
    assert !Better(RankAt(rules, k, l), RankAt(rules, i, j));
    if RankAt(rules, i, j) == RankAt(rules, k, l) {
      BetterOrders(RankAt(rules, i, j), RankAt(rules, i, j), RankAt(rules, i, j));
      assert !Earlier(k, l, i, j);
    }
  }

  /** Nothing is left to chance: there is one best match, if there is any. */
  lemma BestIsUnique(rules: seq<Rule>, code: bv32, firstChance: bool, i: nat, j: nat, k: nat, l: nat)
    requires Best(rules, code, firstChance, i, j) && Best(rules, code, firstChance, k, l)
    ensures i == k && j == l
  {
    hide Better, Matches, Applies;
    var a, b := RankAt(rules, i, j), RankAt(rules, k, l);
    assert Earlier(i, j, |rules|, 0) && Earlier(k, l, |rules|, 0);
    BetterOrders(a, b, a);
  }

  /** Mask bits are those of the mask, so that of two masks the one with more set bits wins. */
  lemma MoreBitsWin(rules: seq<Rule>, code: bv32, firstChance: bool, i: nat, j: nat, k: nat, l: nat)
    requires forall r | 0 <= r < |rules| :: ValidRule(rules[r])
    requires Best(rules, code, firstChance, i, j) && Candidate(rules, code, firstChance, k, l)
    requires rules[i].selectors[j].kind.Masked? && rules[k].selectors[l].kind.Masked?
    ensures BitCount(rules[k].selectors[l].mask) <= BitCount(rules[i].selectors[j].mask)
  {
    BestIsLexicographic(rules, code, firstChance, i, j, k, l);
    hide Best, Candidate, BitCount;
    assert ValidRule(rules[i]) && ValidRule(rules[k]);
    assert ValidSelector(rules[i].selectors[j]) && ValidSelector(rules[k].selectors[l]);
  }

  ghost predicate SameRules(rules1: seq<Rule>, rules2: seq<Rule>) {
    forall r :: r in rules1 <==> r in rules2
  }

  /** Main result: when insertion orders tell the rules apart, the decision does not depend on their order. */
  lemma OrderOfRulesDoesNotMatter(policy1: Policy, policy2: Policy, code: bv32, firstChance: bool, d1: Decision, d2: Decision)
    requires InOrder(policy1.rules) && InOrder(policy2.rules) && SameRules(policy1.rules, policy2.rules)
    requires policy2.(rules := policy1.rules) == policy1
    requires Decides(policy1, code, firstChance, d1) && Decides(policy2, code, firstChance, d2)
    ensures d1 == d2
  {
    hide Best, NoneBefore, InOrder, DecisionAt, Candidate;
    var rules1, rules2 := policy1.rules, policy2.rules;
    SameCandidates(rules1, rules2, code, firstChance);
    if policy1.enabled && !NoneBefore(rules1, code, firstChance, |rules1|, 0) {
      var i1: nat, j1: nat :| Best(rules1, code, firstChance, i1, j1) && d1 == DecisionAt(rules1, i1, j1);
      var i2: nat, j2: nat :| Best(rules2, code, firstChance, i2, j2) && d2 == DecisionAt(rules2, i2, j2);
      BestIsCandidate(rules1, code, firstChance, i1, j1);
      BestIsCandidate(rules2, code, firstChance, i2, j2);
      var k2 := Moved(rules1, rules2, code, firstChance, i1, j1);
      var k1 := Moved(rules2, rules1, code, firstChance, i2, j2);
      BothBest(rules1, rules2, code, firstChance, i1, j1, k2, i2, j2, k1);
      SameDecision(rules1, i1, rules2, i2, j1);
    }
  }

  lemma BestIsCandidate(rules: seq<Rule>, code: bv32, firstChance: bool, i: nat, j: nat)
    requires Best(rules, code, firstChance, i, j)
    ensures Candidate(rules, code, firstChance, i, j) && i < |rules|
  {
    hide Better, RankAt, Matches, Applies;
  }

  lemma SameDecision(rules1: seq<Rule>, i1: nat, rules2: seq<Rule>, i2: nat, j: nat)
    requires i1 < |rules1| && i2 < |rules2| && rules1[i1] == rules2[i2]
    ensures DecisionAt(rules1, i1, j) == DecisionAt(rules2, i2, j)
  {
  }

  lemma Moved(rules1: seq<Rule>, rules2: seq<Rule>, code: bv32, firstChance: bool, i: nat, j: nat) returns (k: nat)
    requires SameRules(rules1, rules2) && Candidate(rules1, code, firstChance, i, j)
    ensures Candidate(rules2, code, firstChance, k, j) && rules2[k] == rules1[i]
  {
    hide Matches, Applies;
    assert rules1[i] in rules2;
    k :| 0 <= k < |rules2| && rules2[k] == rules1[i];
  }

  lemma SameCandidates(rules1: seq<Rule>, rules2: seq<Rule>, code: bv32, firstChance: bool)
    requires SameRules(rules1, rules2)
    ensures NoneBefore(rules1, code, firstChance, |rules1|, 0) <==> NoneBefore(rules2, code, firstChance, |rules2|, 0)
  {
    hide Matches, Applies;
    if i: nat, j: nat :| Candidate(rules1, code, firstChance, i, j) {
      var k := Moved(rules1, rules2, code, firstChance, i, j);
      assert Earlier(i, j, |rules1|, 0) && Earlier(k, j, |rules2|, 0);
    }
    if i: nat, j: nat :| Candidate(rules2, code, firstChance, i, j) {
      var k := Moved(rules2, rules1, code, firstChance, i, j);
      assert Earlier(i, j, |rules2|, 0) && Earlier(k, j, |rules1|, 0);
    }
  }

  /** The best of each list, found in the other. */
  lemma BothBest(rules1: seq<Rule>, rules2: seq<Rule>, code: bv32, firstChance: bool,
                 i1: nat, j1: nat, k2: nat, i2: nat, j2: nat, k1: nat)
    requires Best(rules1, code, firstChance, i1, j1) && Best(rules2, code, firstChance, i2, j2)
    requires InOrder(rules1) && InOrder(rules2)
    requires Candidate(rules2, code, firstChance, k2, j1) && rules2[k2] == rules1[i1]
    requires Candidate(rules1, code, firstChance, k1, j2) && rules1[k1] == rules2[i2]
    ensures rules1[i1] == rules2[i2] && j1 == j2
  {
    hide Better, Matches, Applies;
    var a, b := RankAt(rules1, i1, j1), RankAt(rules2, i2, j2);
    assert RankAt(rules2, k2, j1) == a && RankAt(rules1, k1, j2) == b;
    assert Earlier(k1, j2, |rules1|, 0) && Earlier(k2, j1, |rules2|, 0);
    BetterOrders(a, b, a);
    assert a == b;
    BestIsLexicographic(rules1, code, firstChance, i1, j1, k1, j2);
    BestIsLexicographic(rules2, code, firstChance, i2, j2, k2, j1);
  }

  /** Under the invariant of merged policies the insertion orders tell the rules apart. */
  lemma MergedPoliciesAreInOrder(policy: Policy)
    requires PolicyInv(policy)
    ensures InOrder(policy.rules)
  {
    hide ValidRule, DistinctIds, SelectorCount;
    forall i, k | 0 <= i < k < |policy.rules| ensures policy.rules[i].insertionOrder != policy.rules[k].insertionOrder {
      assert policy.rules[i].insertionOrder == i + 1 && policy.rules[k].insertionOrder == k + 1;
    }
  }
}
