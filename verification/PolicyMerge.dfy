/** Merging an update into the policy, and what every chain of merges keeps. */
module PolicyMerge {
  import opened Options
  import opened Text
  import opened ExceptionPolicy

  predicate IdChar(c: char) {
    Digit(c) || LowerCase(c) || 'A' <= c <= 'Z' || c in "_-.:"
  }

  predicate ValidId(id: string) {
    id != "" && |id| <= 64 && forall i | 0 <= i < |id| :: IdChar(id[i])
  }

  function Folded(id: string): string {
    seq(|id|, i requires 0 <= i < |id| => Lower(id[i]))
  }

  const EMPTY := Policy(false, Pause, Pause, 0, 1, [])

  function SelectorCount(rules: seq<Rule>): nat {
    if rules == [] then 0 else SelectorCount(rules[..|rules| - 1]) + |rules[|rules| - 1].selectors|
  }

  predicate DistinctIds(rules: seq<Rule>) {
    forall i, j | 0 <= i < j < |rules| :: Folded(rules[i].ruleId) != Folded(rules[j].ruleId)
  }

  predicate CheckedRule(rule: Rule) {
    ValidId(rule.ruleId) && 1 <= |rule.selectors| <= MAX_SELECTORS_PER_RULE
  }

  predicate CheckedRules(rules: seq<Rule>) {
    forall i | 0 <= i < |rules| :: CheckedRule(rules[i])
  }

  /** The rules that the update starts from. */
  function Kept(current: Policy, update: Update): seq<Rule> {
    if update.replace then [] else current.rules
  }

  /** The new rules bring no id that is taken and go over no limit. */
  predicate RoomFor(kept: seq<Rule>, rules: seq<Rule>) {
    && DistinctIds(kept + rules)
    && (rules != [] ==> |kept + rules| <= MAX_RULES && SelectorCount(kept + rules) <= MAX_SELECTORS_TOTAL)
  }

  /** When an update can be merged. */
  predicate Mergeable(current: Policy, update: Update) {
    var kept := Kept(current, update);
    && |kept| <= MAX_RULES && CheckedRules(kept) && DistinctIds(kept) && SelectorCount(kept) <= MAX_SELECTORS_TOTAL
    && RoomFor(kept, update.rules)
  }

  function Wrapped(n: int): U64 {
    n % (MAX_U64 + 1)
  }

  /** The update's rules numbered in order from `order`. */
  function Numbered(rules: seq<Rule>, order: U64): (r: seq<Rule>)
    ensures |r| == |rules|
  {
    seq(|rules|, i requires 0 <= i < |rules| => rules[i].(insertionOrder := Wrapped(order + i)))
  }

  function Merged(current: Policy, update: Update): Policy {
    var order: U64 := if update.replace then 1 else current.nextInsertionOrder;
    var base := if update.replace then EMPTY else current;
    Policy(if update.enabled.Some? then update.enabled.value else base.enabled,
           if update.firstDefault.Some? then update.firstDefault.value else base.firstChanceDefault,
           if update.secondDefault.Some? then update.secondDefault.value else base.secondChanceDefault,
           Wrapped(current.version + 1), Wrapped(order + |update.rules|),
           Kept(current, update) + Numbered(update.rules, order))
  }

  // The loops

  ghost predicate IdsAre(ids: set<string>, rules: seq<Rule>) {
    forall id :: id in ids <==> exists i :: 0 <= i < |rules| && Folded(rules[i].ruleId) == id
  }

  lemma IdsStep(ids: set<string>, rules: seq<Rule>, rule: Rule)
    requires IdsAre(ids, rules) && DistinctIds(rules)
    ensures IdsAre(ids + {Folded(rule.ruleId)}, rules + [rule])
    ensures DistinctIds(rules + [rule]) <==> Folded(rule.ruleId) !in ids
  {
    hide Folded;
    var after := rules + [rule];
    assert after[|rules|] == rule;
    assert forall i | 0 <= i < |rules| :: after[i] == rules[i];
    if Folded(rule.ruleId) in ids {
      var i :| 0 <= i < |rules| && Folded(rules[i].ruleId) == Folded(rule.ruleId);
      assert Folded(after[i].ruleId) == Folded(after[|rules|].ruleId);
    }
    forall id ensures id in ids + {Folded(rule.ruleId)} <==> exists i :: 0 <= i < |after| && Folded(after[i].ruleId) == id {
      if id in ids {
        var i :| 0 <= i < |rules| && Folded(rules[i].ruleId) == id;
        assert Folded(after[i].ruleId) == id;
      }
    }
  }

  /** The check of the rules that are already there. */
  method CheckExisting(rules: seq<Rule>) returns (ok: bool, ids: set<string>, selectors: nat)
    ensures ok <==> |rules| <= MAX_RULES && CheckedRules(rules) && DistinctIds(rules) && SelectorCount(rules) <= MAX_SELECTORS_TOTAL
    ensures ok ==> IdsAre(ids, rules) && selectors == SelectorCount(rules)
  {
    hide Folded, ValidId;
    ok, ids, selectors := false, {}, 0;
    if |rules| > MAX_RULES {
      return;
    }
    for i := 0 to |rules|
      invariant !ok && CheckedRules(rules[..i]) && DistinctIds(rules[..i]) && IdsAre(ids, rules[..i])
      invariant selectors == SelectorCount(rules[..i])
    {
      var rule := rules[i];
      assert rules[..i + 1] == rules[..i] + [rule] && rules[..i + 1][..i] == rules[..i];
      IdsStep(ids, rules[..i], rule);
      DistinctPrefix(rules, i + 1);
      if !ValidId(rule.ruleId) || Folded(rule.ruleId) in ids {
        assert !CheckedRule(rule) || !DistinctIds(rules[..i + 1]);
        return;
      }
      ids := ids + {Folded(rule.ruleId)};
      if rule.selectors == [] || |rule.selectors| > MAX_SELECTORS_PER_RULE {
        assert !CheckedRule(rule);
        return;
      }
      selectors := selectors + |rule.selectors|;
    }
    assert rules[..|rules|] == rules;
    ok := selectors <= MAX_SELECTORS_TOTAL;
  }

  lemma DistinctPrefix(rules: seq<Rule>, n: nat)
    requires n <= |rules|
    ensures DistinctIds(rules) ==> DistinctIds(rules[..n])
  {
    hide Folded;
  }

  lemma {:induction false} CountGrows(rules: seq<Rule>, n: nat)
    requires n <= |rules|
    ensures SelectorCount(rules[..n]) <= SelectorCount(rules)
  {
    if n < |rules| {
      CountGrows(rules[..|rules| - 1], n);
      assert rules[..|rules| - 1][..n] == rules[..n];
    } else {
      assert rules[..n] == rules;
    }
  }

  /** The loop over the new rules. */
  method AppendRules(kept: seq<Rule>, ids0: set<string>, selectors0: nat, rules: seq<Rule>, first: U64)
    returns (r: Option<(seq<Rule>, U64)>)
    requires IdsAre(ids0, kept) && DistinctIds(kept) && selectors0 == SelectorCount(kept)
    ensures r == if RoomFor(kept, rules) then Some((kept + Numbered(rules, first), Wrapped(first + |rules|))) else None
  {
    hide IdsAre, DistinctIds, SelectorCount, Numbered, Wrapped, Folded;
    var out, ids, selectors, order := kept, ids0, selectors0, first;
    ghost var all, numbered := kept + rules, kept + Numbered(rules, first);
    WrappedSmall(first);
    assert all[..|kept|] == kept && numbered[..|kept|] == kept;
    for i := 0 to |rules|
      invariant out == numbered[..|kept| + i] && order == Wrapped(first + i)
      invariant IdsAre(ids, all[..|kept| + i]) && DistinctIds(all[..|kept| + i])
      invariant selectors == SelectorCount(all[..|kept| + i])
      invariant i > 0 ==> |kept| + i <= MAX_RULES && selectors <= MAX_SELECTORS_TOTAL
    {
      var rule := rules[i];
      PrefixStep(kept, rules, first, i);
      IdsStep(ids, all[..|kept| + i], rule);
      DistinctPrefix(all, |kept| + i + 1);
      CountGrows(all, |kept| + i + 1);
      if Folded(rule.ruleId) in ids {
        return None;
      }
      ids := ids + {Folded(rule.ruleId)};
      selectors := selectors + |rule.selectors|;
      if |out| >= MAX_RULES || selectors > MAX_SELECTORS_TOTAL {
        return None;
      }
      out := out + [rule.(insertionOrder := order)];
      order := Wrapped(order as int + 1);
      WrappedStep(first + i);
    }
    assert all[..|kept| + |rules|] == all && numbered[..|kept| + |rules|] == numbered;
    return Some((out, order));
  }

  lemma WrappedStep(n: int)
    ensures Wrapped(Wrapped(n) + 1) == Wrapped(n + 1)
  {
  }

  lemma PrefixStep(kept: seq<Rule>, rules: seq<Rule>, first: U64, i: nat)
    requires i < |rules|
    ensures var all, numbered := kept + rules, kept + Numbered(rules, first);
            && all[..|kept| + i + 1] == all[..|kept| + i] + [rules[i]]
            && numbered[..|kept| + i + 1] == numbered[..|kept| + i] + [rules[i].(insertionOrder := Wrapped(first + i))]
            && SelectorCount(all[..|kept| + i + 1]) == SelectorCount(all[..|kept| + i]) + |rules[i].selectors|
  {
    var all := kept + rules;
    assert all[..|kept| + i + 1][..|kept| + i] == all[..|kept| + i];
  }

  /** An update is merged whole or not at all. */
  method MergePolicy(current: Policy, update: Update) returns (merged: Option<Policy>)
    ensures merged == if Mergeable(current, update) then Some(Merged(current, update)) else None
  {
    hide Folded, IdsAre, DistinctIds, SelectorCount, CheckedRules, RoomFor, Numbered, Wrapped;
    var candidate := if update.replace then EMPTY else current;
    if update.enabled.Some? {
      candidate := candidate.(enabled := update.enabled.value);
    }
    if update.firstDefault.Some? {
      candidate := candidate.(firstChanceDefault := update.firstDefault.value);
    }
    if update.secondDefault.Some? {
      candidate := candidate.(secondChanceDefault := update.secondDefault.value);
    }
    var ok, ids, selectors := CheckExisting(candidate.rules);
    if !ok {
      return None;
    }
    var order: U64 := if update.replace then 1 else candidate.nextInsertionOrder;
    var appended := AppendRules(candidate.rules, ids, selectors, update.rules, order);
    if appended.None? {
      return None;
    }
    candidate := candidate.(rules := appended.value.0, nextInsertionOrder := appended.value.1,
                            version := Wrapped(current.version + 1));
    return Some(candidate);
  }

  // What every chain of merges keeps

  ghost predicate ValidRule(rule: Rule) {
    CheckedRule(rule) && forall i | 0 <= i < |rule.selectors| :: ValidSelector(rule.selectors[i])
  }

  /** What a parsed update brings: every rule was read field by field. */
  ghost predicate Parsed(update: Update) {
    |update.rules| <= MAX_RULES && forall i | 0 <= i < |update.rules| :: ValidRule(update.rules[i])
  }

  /** Rules are few, well-formed, told apart by their ids, and numbered 1, 2, 3, … in their order. */
  ghost predicate PolicyInv(policy: Policy) {
    && |policy.rules| <= MAX_RULES && SelectorCount(policy.rules) <= MAX_SELECTORS_TOTAL
    && (forall i | 0 <= i < |policy.rules| :: ValidRule(policy.rules[i]) && policy.rules[i].insertionOrder == i + 1)
    && DistinctIds(policy.rules) && policy.nextInsertionOrder == |policy.rules| + 1
  }

  lemma {:induction false} NumberingKeepsCount(kept: seq<Rule>, rules: seq<Rule>, order: U64)
    ensures SelectorCount(kept + Numbered(rules, order)) == SelectorCount(kept + rules)
  {
    var numbered := Numbered(rules, order);
    if rules == [] {
      assert kept + numbered == kept + rules;
    } else {
      var init := rules[..|rules| - 1];
      NumberingKeepsCount(kept, init, order);
      assert (kept + rules)[..|kept + rules| - 1] == kept + init;
      assert numbered[..|rules| - 1] == Numbered(init, order);
      assert (kept + numbered)[..|kept + numbered| - 1] == kept + Numbered(init, order);
    }
  }

  lemma NumberingKeepsIds(kept: seq<Rule>, rules: seq<Rule>, order: U64)
    requires DistinctIds(kept + rules)
    ensures DistinctIds(kept + Numbered(rules, order))
  {
    hide Folded;
    var before, after := kept + rules, kept + Numbered(rules, order);
    assert forall i | 0 <= i < |after| :: after[i].ruleId == before[i].ruleId;
  }

  /** Main result: a successful merge of a parsed update keeps the invariant; the insertion order cannot run out. */
  lemma MergeKeepsInv(current: Policy, update: Update)
    requires PolicyInv(current) && Parsed(update) && Mergeable(current, update)
    ensures PolicyInv(Merged(current, update))
  {
    hide Folded, DistinctIds, SelectorCount, ValidRule, CheckedRules, Numbered, Wrapped;
    var kept, merged := Kept(current, update), Merged(current, update);
    var order: U64 := if update.replace then 1 else current.nextInsertionOrder;
    assert order == |kept| + 1 && order + |update.rules| <= 2 * MAX_RULES + 1;
    WrappedSmall(order as int + |update.rules|);
    NumberingKeepsCount(kept, update.rules, order);
    NumberingKeepsIds(kept, update.rules, order);
    RulesStayValid(kept, update.rules, order);
    if update.rules == [] {
      assert kept + update.rules == kept;
    }
  }

  lemma WrappedSmall(n: U64)
    ensures Wrapped(n) == n
  {
  }

  lemma RulesStayValid(kept: seq<Rule>, rules: seq<Rule>, order: U64)
    requires forall i | 0 <= i < |kept| :: ValidRule(kept[i]) && kept[i].insertionOrder == i + 1
    requires forall i | 0 <= i < |rules| :: ValidRule(rules[i])
    requires order == |kept| + 1 && order + |rules| <= MAX_U64
    ensures var all := kept + Numbered(rules, order);
            forall i | 0 <= i < |all| :: ValidRule(all[i]) && all[i].insertionOrder == i + 1
  {
    var all := kept + Numbered(rules, order);
    forall i | 0 <= i < |all| ensures ValidRule(all[i]) && all[i].insertionOrder == i + 1 {
      if i < |kept| {
        assert all[i] == kept[i];
      } else {
        assert all[i] == rules[i - |kept|].(insertionOrder := Wrapped(order + (i - |kept|)));
        assert ValidRule(rules[i - |kept|]);
      }
    }
  }

  /** Under the invariant a merge fails only for what the update brings: an id that is taken, or too much. */
  lemma MergeFailsOnlyForNewRules(current: Policy, update: Update)
    requires PolicyInv(current)
    ensures Mergeable(current, update) <==> RoomFor(Kept(current, update), update.rules)
  {
    hide Folded;
    assert forall i | 0 <= i < |current.rules| :: ValidRule(current.rules[i]);
  }

  /** The policy after a chain of updates; one that cannot be merged leaves it as it is. */
  function After(updates: seq<Update>): Policy {
    if updates == [] then EMPTY
    else
      var current, update := After(updates[..|updates| - 1]), updates[|updates| - 1];
      if Mergeable(current, update) then Merged(current, update) else current
  }

  function Successes(updates: seq<Update>): nat {
    if updates == [] then 0
    else Successes(updates[..|updates| - 1])
         + (if Mergeable(After(updates[..|updates| - 1]), updates[|updates| - 1]) then 1 else 0)
  }

  lemma ChainStep(updates: seq<Update>)
    requires updates != []
    ensures var init, update := updates[..|updates| - 1], updates[|updates| - 1];
            if Mergeable(After(init), update)
            then After(updates) == Merged(After(init), update) && Successes(updates) == Successes(init) + 1
                 && After(updates).version == Wrapped(After(init).version + 1)
            else After(updates) == After(init) && Successes(updates) == Successes(init)
  {
    hide Mergeable, Numbered, Wrapped;
  }

  /** Main result: the invariant holds after every chain, and the version counts the merges that succeeded. */
  lemma {:induction false} ChainKeepsInv(updates: seq<Update>)
    requires forall i | 0 <= i < |updates| :: Parsed(updates[i])
    ensures PolicyInv(After(updates)) && After(updates).version == Wrapped(Successes(updates))
  {
    hide *;
    if updates == [] {
      ChainStart(updates);
    } else {
      var init, update := updates[..|updates| - 1], updates[|updates| - 1];
      ChainKeepsInv(init);
      ChainStep(updates);
      WrappedStep(Successes(init));
      if Mergeable(After(init), update) {
        MergeKeepsInv(After(init), update);
      }
    }
  }

  lemma ChainStart(updates: seq<Update>)
    requires updates == []
    ensures PolicyInv(After(updates)) && After(updates).version == Wrapped(Successes(updates))
  {
  }
}
