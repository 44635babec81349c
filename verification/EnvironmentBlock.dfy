/** Building a Unicode environment block from an inherited environment and overrides, and the
    loop that takes such a block apart again.  Upper-casing is an arbitrary function of single
    characters, a parameter of every operation. */
module EnvironmentBlock {
  import opened Options
  import opened Sequences
  import opened Text

  const BLOCK_LIMIT := 32767

  /** A value sets the variable, its absence deletes it. */
  datatype Entry = Entry(name: string, value: Option<string>)

  type Folding = char -> char

  function Folded(text: string, fold: Folding): string {
    seq(|text|, i requires 0 <= i < |text| => fold(text[i]))
  }

  // Ordinal comparison

  function CompareOrdinal(left: string, right: string): int {
    if Less(left, right) then -1 else if Less(right, left) then 1 else 0
  }

  /** The character loop, with or without folding. */
  method CompareOrdinalLoop(left: string, right: string, ignoreCase: bool, fold: Folding) returns (order: int)
    ensures order == if ignoreCase then CompareOrdinal(Folded(left, fold), Folded(right, fold))
                     else CompareOrdinal(left, right)
  {
    ghost var a := if ignoreCase then Folded(left, fold) else left;
    ghost var b := if ignoreCase then Folded(right, fold) else right;
    var common := if |left| < |right| then |left| else |right|;
    for index := 0 to common
      invariant CompareOrdinal(a, b) == CompareOrdinal(a[index..], b[index..])
    {
      var l, r := left[index], right[index];
      if ignoreCase {
        l, r := fold(l), fold(r);
      }
      assert l == a[index..][0] && r == b[index..][0];
      if l < r {
        return -1;
      }
      if l > r {
        return 1;
      }
      assert a[index..][1..] == a[index + 1..] && b[index..][1..] == b[index + 1..];
    }
    if |left| < |right| {
      return -1;
    }
    if |left| > |right| {
      return 1;
    }
    return 0;
  }

  predicate SameName(left: string, right: string, fold: Folding) {
    Folded(left, fold) == Folded(right, fold)
  }

  /** The order of the block: by folded name, and by name among those that fold alike. */
  predicate Before(left: Entry, right: Entry, fold: Folding) {
    var folded := CompareOrdinal(Folded(left.name, fold), Folded(right.name, fold));
    if folded != 0 then folded < 0 else CompareOrdinal(left.name, right.name) < 0
  }

  // Validation

  datatype EntryError =
    | NameEmpty | NameNul | HiddenNameInvalid | NameEquals | SnapshotDelete | ValueNul | DuplicateName

  predicate HiddenName(name: string) {
    |name| > 1 && name[0] == '=' && '=' !in name[1..]
  }

  function ValidateEntry(entry: Entry, allowDelete: bool): Option<EntryError> {
    if entry.name == "" then Some(NameEmpty)
    else if '\0' in entry.name then Some(NameNul)
    else if entry.name[0] == '=' && !HiddenName(entry.name) then Some(HiddenNameInvalid)
    else if entry.name[0] != '=' && '=' in entry.name then Some(NameEquals)
    else if entry.value.None? then (if allowDelete then None else Some(SnapshotDelete))
    else if '\0' in entry.value.value then Some(ValueNul)
    else None
  }

  predicate HasDuplicate(entries: seq<Entry>, current: nat, fold: Folding)
    requires current < |entries|
  {
    exists index | 0 <= index < current :: SameName(entries[index].name, entries[current].name, fold)
  }

  function EntryProblem(entries: seq<Entry>, current: nat, allowDelete: bool, fold: Folding): Option<EntryError>
    requires current < |entries|
  {
    var problem := ValidateEntry(entries[current], allowDelete);
    if problem.Some? then problem
    else if HasDuplicate(entries, current, fold) then Some(DuplicateName)
    else None
  }

  ghost predicate Acceptable(entries: seq<Entry>, allowDelete: bool, fold: Folding) {
    forall i | 0 <= i < |entries| :: EntryProblem(entries, i, allowDelete, fold) == None
  }

  ghost predicate DistinctNames(entries: seq<Entry>, fold: Folding) {
    forall i, j | 0 <= i < j < |entries| :: !SameName(entries[i].name, entries[j].name, fold)
  }

  ghost predicate AllWritable(entries: seq<Entry>) {
    forall i | 0 <= i < |entries| :: ValidateEntry(entries[i], false) == None
  }

  lemma AcceptableIsDistinct(entries: seq<Entry>, allowDelete: bool, fold: Folding)
    requires Acceptable(entries, allowDelete, fold)
    ensures DistinctNames(entries, fold)
  {
    forall i, j | 0 <= i < j < |entries|
      ensures !SameName(entries[i].name, entries[j].name, fold)
    {
      assert EntryProblem(entries, j, allowDelete, fold) == None;
    }
  }

  /** Validation of one of the two lists; the answer is the first entry at fault. */
  method FindProblem(entries: seq<Entry>, allowDelete: bool, fold: Folding) returns (problem: Option<EntryError>, at: nat)
    ensures problem.None? <==> Acceptable(entries, allowDelete, fold)
    ensures problem.None? ==> at == if entries == [] then 0 else |entries| - 1
    ensures problem.Some? ==>
              && at < |entries| && EntryProblem(entries, at, allowDelete, fold) == problem
              && forall i | 0 <= i < at :: EntryProblem(entries, i, allowDelete, fold) == None
  {
    at := 0;
    for index := 0 to |entries|
      invariant forall i | 0 <= i < index :: EntryProblem(entries, i, allowDelete, fold) == None
      invariant at == if index == 0 then 0 else index - 1
    {
      at := index;
      problem := ValidateEntry(entries[index], allowDelete);
      if problem.Some? {
        assert EntryProblem(entries, index, allowDelete, fold) == problem;
        return;
      }
      if HasDuplicate(entries, index, fold) {
        problem := Some(DuplicateName);
        assert EntryProblem(entries, index, allowDelete, fold) == problem;
        return;
      }
    }
    problem := None;
  }

  // Merging

  /** The first entry of that name, or the end. */
  function IndexOfName(entries: seq<Entry>, name: string, fold: Folding): (i: nat)
    ensures i <= |entries|
    ensures i < |entries| ==> SameName(entries[i].name, name, fold)
    ensures forall j | 0 <= j < i :: !SameName(entries[j].name, name, fold)
  {
    if entries == [] || SameName(entries[0].name, name, fold) then 0
    else 1 + IndexOfName(entries[1..], name, fold)
  }

  function ApplyOverride(entries: seq<Entry>, mutation: Entry, fold: Folding): seq<Entry> {
    var found := IndexOfName(entries, mutation.name, fold);
    if mutation.value.None? then
      if found < |entries| then entries[..found] + entries[found + 1..] else entries
    else if found == |entries| then entries + [mutation]
    else entries[found := mutation]
  }

  function Merge(inherited: seq<Entry>, overrides: seq<Entry>, fold: Folding): seq<Entry> {
    if overrides == [] then inherited
    else ApplyOverride(Merge(inherited, overrides[..|overrides| - 1], fold), overrides[|overrides| - 1], fold)
  }

  /** `after` holds the entry of the mutation, if it sets one, and every other name of `before`. */
  ghost predicate Overridden(before: seq<Entry>, mutation: Entry, after: seq<Entry>, fold: Folding) {
    forall e :: e in after <==>
      (e == mutation && mutation.value.Some?) || (e in before && !SameName(e.name, mutation.name, fold))
  }

  lemma ApplyOverrideMeaning(entries: seq<Entry>, mutation: Entry, fold: Folding)
    requires DistinctNames(entries, fold)
    ensures DistinctNames(ApplyOverride(entries, mutation, fold), fold)
    ensures Overridden(entries, mutation, ApplyOverride(entries, mutation, fold), fold)
  {
    var after := ApplyOverride(entries, mutation, fold);
    var found := IndexOfName(entries, mutation.name, fold);
    hide Folded, IndexOfName;
    forall e
      ensures e in after <==>
                (e == mutation && mutation.value.Some?) || (e in entries && !SameName(e.name, mutation.name, fold))
    {
      if e in entries {
        var i :| 0 <= i < |entries| && entries[i] == e;
        if i != found {
          assert e in after by {
            if mutation.value.None? && found < |entries| {
              assert e == after[if i < found then i else i - 1];
            } else {
              assert e == after[i];
            }
          }
        }
      }
      if mutation.value.Some? {
        assert mutation == after[found];
      }
    }
  }

  /** What the merged environment is: the overrides that set a variable, and the inherited entries
      that no override names. */
  ghost predicate InEnvironment(e: Entry, inherited: seq<Entry>, overrides: seq<Entry>, fold: Folding) {
    || (e in overrides && e.value.Some?)
    || (e in inherited && forall i | 0 <= i < |overrides| :: !SameName(e.name, overrides[i].name, fold))
  }

  lemma {:induction false} MergeMeaning(inherited: seq<Entry>, overrides: seq<Entry>, fold: Folding)
    requires DistinctNames(inherited, fold) && DistinctNames(overrides, fold)
    ensures DistinctNames(Merge(inherited, overrides, fold), fold)
    ensures forall e :: e in Merge(inherited, overrides, fold) <==> InEnvironment(e, inherited, overrides, fold)
  {
    if overrides != [] {
      var n := |overrides| - 1;
      MergeMeaning(inherited, overrides[..n], fold);
      ApplyOverrideMeaning(Merge(inherited, overrides[..n], fold), overrides[n], fold);
      hide ApplyOverride, SameName, InEnvironment;
      forall e {
        LastOverride(e, inherited, overrides, fold);
      }
    }
  }

  lemma LastOverride(e: Entry, inherited: seq<Entry>, overrides: seq<Entry>, fold: Folding)
    requires overrides != [] && DistinctNames(overrides, fold)
    ensures var (init, last) := (overrides[..|overrides| - 1], overrides[|overrides| - 1]);
            InEnvironment(e, inherited, overrides, fold) <==>
              || (e == last && last.value.Some?)
              || (InEnvironment(e, inherited, init, fold) && !SameName(e.name, last.name, fold))
  {
    hide SameName;
    var n := |overrides| - 1;
    var init, last := overrides[..n], overrides[n];
    assert overrides == init + [last];
    if e in init {
      var i :| 0 <= i < n && init[i] == e;
      assert !SameName(overrides[i].name, overrides[n].name, fold);
    }
    assert forall i | 0 <= i < n :: init[i] == overrides[i];
  }

  method MergeLoop(inherited: seq<Entry>, overrides: seq<Entry>, fold: Folding) returns (entries: seq<Entry>)
    ensures entries == Merge(inherited, overrides, fold)
  {
    entries := inherited;
    for k := 0 to |overrides|
      invariant entries == Merge(inherited, overrides[..k], fold)
    {
      var mutation := overrides[k];
      var found := IndexOfName(entries, mutation.name, fold);
      assert overrides[..k + 1][..k] == overrides[..k];
      if mutation.value.None? {
        if found != |entries| {
          entries := entries[..found] + entries[found + 1..];
        }
      } else if found == |entries| {
        entries := entries + [mutation];
      } else {
        entries := entries[found := mutation];
      }
    }
    assert overrides[..|overrides|] == overrides;
  }

  // Sorting

  ghost predicate Sorted(entries: seq<Entry>, fold: Folding) {
    forall i, j | 0 <= i < j < |entries| :: Less(Folded(entries[i].name, fold), Folded(entries[j].name, fold))
  }

  function Insert(e: Entry, entries: seq<Entry>, fold: Folding): seq<Entry> {
    if entries == [] || Before(e, entries[0], fold) then [e] + entries
    else [entries[0]] + Insert(e, entries[1..], fold)
  }

  /** Stands for the library sort: by `SortedIsUnique`, any correct sort gives this. */
  function Sort(entries: seq<Entry>, fold: Folding): seq<Entry> {
    if entries == [] then [] else Insert(entries[0], Sort(entries[1..], fold), fold)
  }

  lemma {:induction false} InsertIntoSorted(e: Entry, entries: seq<Entry>, fold: Folding)
    requires Sorted(entries, fold)
    requires forall i | 0 <= i < |entries| :: !SameName(e.name, entries[i].name, fold)
    ensures Sorted(Insert(e, entries, fold), fold)
    ensures forall x :: x in Insert(e, entries, fold) <==> x == e || x in entries
  {
    if entries != [] {
      var head := entries[0];
      LessIsTotal(Folded(e.name, fold), Folded(head.name, fold));
      if Before(e, head, fold) {
        forall j | 0 < j < |entries|
          ensures Less(Folded(e.name, fold), Folded(entries[j].name, fold))
        {
          LessIsTransitive(Folded(e.name, fold), Folded(head.name, fold), Folded(entries[j].name, fold));
        }
      } else {
        InsertIntoSorted(e, entries[1..], fold);
        var rest := Insert(e, entries[1..], fold);
        forall j | 0 <= j < |rest|
          ensures Less(Folded(head.name, fold), Folded(rest[j].name, fold))
        {
          assert rest[j] in rest;
          if rest[j] != e {
            var k :| 0 <= k < |entries[1..]| && entries[1..][k] == rest[j];
            assert entries[k + 1] == rest[j];
          }
        }
      }
    }
  }

  lemma {:induction false} SortSorts(entries: seq<Entry>, fold: Folding)
    requires DistinctNames(entries, fold)
    ensures Sorted(Sort(entries, fold), fold)
    ensures forall x :: x in Sort(entries, fold) <==> x in entries
  {
    if entries != [] {
      var rest := entries[1..];
      SortSorts(rest, fold);
      var sorted := Sort(rest, fold);
      forall i | 0 <= i < |sorted|
        ensures !SameName(entries[0].name, sorted[i].name, fold)
      {
        assert sorted[i] in rest;
        var k :| 0 <= k < |rest| && rest[k] == sorted[i];
        assert entries[k + 1] == sorted[i];
      }
      InsertIntoSorted(entries[0], sorted, fold);
    }
  }

  /** There is one way to sort a set of entries with distinct names. */
  lemma {:induction false} SortedIsUnique(a: seq<Entry>, b: seq<Entry>, fold: Folding)
    requires Sorted(a, fold) && Sorted(b, fold)
    requires forall x :: x in a <==> x in b
    ensures a == b
  {
    SameEmptiness(a, b);
    if a != [] {
      FirstsAgree(a, b, fold);
      forall x
        ensures x in a[1..] <==> x in b[1..]
      {
        TailMembership(a, x, fold);
        TailMembership(b, x, fold);
      }
      SortedIsUnique(a[1..], b[1..], fold);
      assert a == [a[0]] + a[1..] && b == [b[0]] + b[1..];
    }
  }

  lemma SameEmptiness(a: seq<Entry>, b: seq<Entry>)
    requires forall x :: x in a <==> x in b
    ensures a == [] <==> b == []
  {
    if a != [] {
      assert a[0] in b;
    }
    if b != [] {
      assert b[0] in a;
    }
  }

  lemma FirstsAgree(a: seq<Entry>, b: seq<Entry>, fold: Folding)
    requires Sorted(a, fold) && Sorted(b, fold) && a != [] && b != []
    requires forall x :: x in a <==> x in b
    ensures a[0] == b[0]
  {
    assert a[0] in b && b[0] in a;
    var i :| 0 <= i < |b| && b[i] == a[0];
    var j :| 0 <= j < |a| && a[j] == b[0];
    if i > 0 && j > 0 {
      LessIsTotal(Folded(a[0].name, fold), Folded(b[0].name, fold));
    }
  }

  lemma TailMembership(a: seq<Entry>, x: Entry, fold: Folding)
    requires Sorted(a, fold) && a != []
    ensures x in a[1..] <==> x in a && x != a[0]
  {
    LessIsTotal(Folded(a[0].name, fold), Folded(a[0].name, fold));
    if x in a {
      var i :| 0 <= i < |a| && a[i] == x;
      if i > 0 {
        assert a[1..][i - 1] == x;
      }
    }
  }

  // Rendering

  function RenderEntry(e: Entry): string {
    e.name + ['='] + (if e.value.Some? then e.value.value else "") + ['\0']
  }

  function RenderEntries(entries: seq<Entry>): string {
    if entries == [] then "" else RenderEntries(entries[..|entries| - 1]) + RenderEntry(entries[|entries| - 1])
  }

  /** The entries, each ended by NUL, and one more; an empty environment is two. */
  function Render(entries: seq<Entry>): string {
    RenderEntries(entries) + (if entries == [] then ['\0', '\0'] else ['\0'])
  }

  function FinalEntries(inherited: seq<Entry>, overrides: seq<Entry>, fold: Folding): seq<Entry> {
    Sort(Merge(inherited, overrides, fold), fold)
  }

  datatype BuildError = BadEntry(error: EntryError) | BlockTooLarge

  datatype BuildResult =
    | Built(entries: seq<Entry>, block: string)
    | Refused(error: BuildError, entryIndex: nat, overrideEntry: bool)

  ghost predicate Buildable(inherited: seq<Entry>, overrides: seq<Entry>, fold: Folding) {
    Acceptable(inherited, false, fold) && Acceptable(overrides, true, fold)
  }

  /** Main result: a block is built exactly for two acceptable lists whose rendering fits, and then
      it is the rendering of the sorted merge. */
  method BuildUnicodeEnvironmentBlock(inherited: seq<Entry>, overrides: seq<Entry>, fold: Folding)
    returns (result: BuildResult)
    ensures result.Built? <==>
              && Buildable(inherited, overrides, fold)
              && |Render(FinalEntries(inherited, overrides, fold))| <= BLOCK_LIMIT
    ensures result.Built? ==>
              var entries := FinalEntries(inherited, overrides, fold);
              result == Built(entries, Render(entries))
    ensures result.Refused? && result.error.BadEntry? ==>
              var entries := if result.overrideEntry then overrides else inherited;
              && (result.overrideEntry ==> Acceptable(inherited, false, fold))
              && result.entryIndex < |entries|
              && EntryProblem(entries, result.entryIndex, result.overrideEntry, fold) == Some(result.error.error)
              && forall i | 0 <= i < result.entryIndex :: EntryProblem(entries, i, result.overrideEntry, fold) == None
    ensures result.Refused? && result.error.BlockTooLarge? ==> Buildable(inherited, overrides, fold)
  {
    var problem, entryIndex := FindProblem(inherited, false, fold);
    if problem.Some? {
      return Refused(BadEntry(problem.value), entryIndex, false);
    }
    var overrideEntry := overrides != [];
    var problem', index' := FindProblem(overrides, true, fold);
    if problem'.Some? {
      return Refused(BadEntry(problem'.value), index', true);
    }
    if overrideEntry {
      entryIndex := index';
    }
    var entries := MergeLoop(inherited, overrides, fold);
    entries := Sort(entries, fold);
    FinalIsWritable(inherited, overrides, fold);
    var fits := CheckSize(entries);
    if !fits {
      return Refused(BlockTooLarge, entryIndex, overrideEntry);
    }
    var block := RenderLoop(entries);
    result := Built(entries, block);
  }

  /** The size is counted before anything is written.  `room` never goes below zero. */
  method CheckSize(entries: seq<Entry>) returns (fits: bool)
    ensures fits <==> |Render(entries)| <= BLOCK_LIMIT
  {
    var required := if entries == [] then 2 else 1;
    for k := 0 to |entries|
      invariant required == (if entries == [] then 2 else 1) + |RenderEntries(entries[..k])|
      invariant required <= BLOCK_LIMIT
    {
      var entry := entries[k];
      var valueSize := if entry.value.Some? then |entry.value.value| else 0;
      var room: nat := BLOCK_LIMIT - required;
      assert entries[..k + 1][..k] == entries[..k];
      if |entry.name| > room || valueSize > room - |entry.name| || 2 > room - |entry.name| - valueSize {
        RenderingGrows(entries, k + 1);
        return false;
      }
      required := required + (|entry.name| + 1 + valueSize + 1);
    }
    assert entries[..|entries|] == entries;
    return true;
  }

  lemma {:induction false} RenderingGrows(entries: seq<Entry>, k: nat)
    requires k <= |entries|
    ensures |RenderEntries(entries[..k])| <= |RenderEntries(entries)|
    decreases |entries| - k
  {
    if k == |entries| {
      assert entries[..k] == entries;
    } else {
      assert entries[..k + 1][..k] == entries[..k];
      RenderingGrows(entries, k + 1);
    }
  }

  method RenderLoop(entries: seq<Entry>) returns (block: string)
    requires AllWritable(entries)
    ensures block == Render(entries)
  {
    block := "";
    for k := 0 to |entries|
      invariant block == RenderEntries(entries[..k])
    {
      assert ValidateEntry(entries[k], false) == None;
      assert entries[..k + 1][..k] == entries[..k];
      ghost var before := block;
      block := block + entries[k].name;
      block := block + ['='];
      block := block + entries[k].value.value;
      block := block + ['\0'];
      assert block == before + RenderEntry(entries[k]);
    }
    assert entries[..|entries|] == entries;
    if entries == [] {
      block := block + ['\0'];
    }
    block := block + ['\0'];
  }

  /** The entries of a block have names, values, and neither NUL nor misplaced `=`. */
  lemma FinalIsWritable(inherited: seq<Entry>, overrides: seq<Entry>, fold: Folding)
    requires Buildable(inherited, overrides, fold)
    ensures AllWritable(FinalEntries(inherited, overrides, fold))
    ensures Sorted(FinalEntries(inherited, overrides, fold), fold)
    ensures forall e :: e in FinalEntries(inherited, overrides, fold) <==> InEnvironment(e, inherited, overrides, fold)
  {
    AcceptableIsDistinct(inherited, false, fold);
    AcceptableIsDistinct(overrides, true, fold);
    MergeMeaning(inherited, overrides, fold);
    SortSorts(Merge(inherited, overrides, fold), fold);
    var final := FinalEntries(inherited, overrides, fold);
    forall i | 0 <= i < |final|
      ensures ValidateEntry(final[i], false) == None
    {
      var e := final[i];
      assert e in final;
      if e in overrides && e.value.Some? {
        var k :| 0 <= k < |overrides| && overrides[k] == e;
        assert EntryProblem(overrides, k, true, fold) == None;
      } else {
        var k :| 0 <= k < |inherited| && inherited[k] == e;
        assert EntryProblem(inherited, k, false, fold) == None;
      }
    }
  }

  /** A list in another order is acceptable if the list is: a repeated entry would repeat its name. */
  lemma AcceptanceIgnoresOrder(a: seq<Entry>, b: seq<Entry>, allowDelete: bool, fold: Folding)
    requires Acceptable(a, allowDelete, fold) && multiset(a) == multiset(b)
    ensures Acceptable(b, allowDelete, fold)
  {
    AcceptableIsDistinct(a, allowDelete, fold);
    SameMembers(a, b);
    hide ValidateEntry, SameName;
    forall k | 0 <= k < |b| ensures EntryProblem(b, k, allowDelete, fold) == None {
      assert b[k] in a;
      var p :| 0 <= p < |a| && a[p] == b[k];
      assert EntryProblem(a, p, allowDelete, fold) == None;
      forall i | 0 <= i < k ensures !SameName(b[i].name, b[k].name, fold) {
        NamesStayApart(a, b, fold, i, k);
      }
    }
  }

  lemma NamesStayApart(a: seq<Entry>, b: seq<Entry>, fold: Folding, i: nat, k: nat)
    requires DistinctNames(a, fold) && multiset(a) == multiset(b) && i < k < |b|
    ensures !SameName(b[i].name, b[k].name, fold)
  {
    if b[i] == b[k] {
      OccursTwice(b, i, k);
      var p, q := TwoPlaces(a, b[i]);
      assert !SameName(a[p].name, a[q].name, fold);
    } else {
      SameMembers(a, b);
      var p :| 0 <= p < |a| && a[p] == b[i];
      var q :| 0 <= q < |a| && a[q] == b[k];
      assert if p < q then !SameName(a[p].name, a[q].name, fold) else !SameName(a[q].name, a[p].name, fold);
    }
  }

  /** Main result: whether a block is built, and which, does not depend on the order of either list. */
  lemma BlockIgnoresOrder(inherited: seq<Entry>, overrides: seq<Entry>,
                          inherited': seq<Entry>, overrides': seq<Entry>, fold: Folding)
    requires multiset(inherited) == multiset(inherited') && multiset(overrides) == multiset(overrides')
    ensures Buildable(inherited, overrides, fold) <==> Buildable(inherited', overrides', fold)
    ensures Buildable(inherited, overrides, fold) ==>
              FinalEntries(inherited, overrides, fold) == FinalEntries(inherited', overrides', fold)
  {
    hide Acceptable;
    if Buildable(inherited, overrides, fold) {
      AcceptanceIgnoresOrder(inherited, inherited', false, fold);
      AcceptanceIgnoresOrder(overrides, overrides', true, fold);
      SameFinalEntries(inherited, overrides, inherited', overrides', fold);
    } else if Buildable(inherited', overrides', fold) {
      AcceptanceIgnoresOrder(inherited', inherited, false, fold);
      AcceptanceIgnoresOrder(overrides', overrides, true, fold);
      assert false;
    }
  }

  lemma SameFinalEntries(inherited: seq<Entry>, overrides: seq<Entry>,
                         inherited': seq<Entry>, overrides': seq<Entry>, fold: Folding)
    requires Buildable(inherited, overrides, fold) && Buildable(inherited', overrides', fold)
    requires multiset(inherited) == multiset(inherited') && multiset(overrides) == multiset(overrides')
    ensures FinalEntries(inherited, overrides, fold) == FinalEntries(inherited', overrides', fold)
  {
    FinalIsWritable(inherited, overrides, fold);
    FinalIsWritable(inherited', overrides', fold);
    forall e
      ensures InEnvironment(e, inherited, overrides, fold) <==> InEnvironment(e, inherited', overrides', fold)
    {
      SameMembers(inherited, inherited');
      SameMembers(overrides, overrides');
      NamesOf(e.name, overrides, overrides', fold);
      NamesOf(e.name, overrides', overrides, fold);
    }
    SortedIsUnique(FinalEntries(inherited, overrides, fold), FinalEntries(inherited', overrides', fold), fold);
  }

  lemma NamesOf(name: string, a: seq<Entry>, b: seq<Entry>, fold: Folding)
    requires forall x :: x in b ==> x in a
    ensures (forall i | 0 <= i < |a| :: !SameName(name, a[i].name, fold)) ==>
              forall i | 0 <= i < |b| :: !SameName(name, b[i].name, fold)
  {
    forall i | 0 <= i < |b|
      ensures exists j :: 0 <= j < |a| && a[j].name == b[i].name
    {
      assert b[i] in a;
    }
  }

  // Taking a block apart

  /** The position of the first `c` at or after `from`, or the end. */
  function IndexOf(text: string, c: char, from: nat): (i: nat)
    requires from <= |text|
    ensures from <= i <= |text| && c !in text[from..i]
    ensures i < |text| ==> text[i] == c
    decreases |text| - from
  {
    if from == |text| || text[from] == c then from else IndexOf(text, c, from + 1)
  }

  /** A leading `=` belongs to the name. */
  function ParseEntry(text: string): Option<Entry> {
    var separator := IndexOf(text, '=', if text != "" && text[0] == '=' then 1 else 0);
    if separator == |text| || separator == 0 then None
    else Some(Entry(text[..separator], Some(text[separator + 1..])))
  }

  /** The entries up to the empty one; a malformed entry spoils all. */
  function Capture(block: string): Option<seq<Entry>>
    decreases |block|
  {
    if block == "" || block[0] == '\0' then Some([])
    else
      var length := IndexOf(block, '\0', 0);
      var entry := ParseEntry(block[..length]);
      if entry.None? then None
      else
        Prepend([entry.value], Capture(if length < |block| then block[length + 1..] else ""))
  }

  function Prepend(front: seq<Entry>, rest: Option<seq<Entry>>): Option<seq<Entry>> {
    if rest.None? then None else Some(front + rest.value)
  }

  lemma PrependMore(front: seq<Entry>, e: Entry, rest: Option<seq<Entry>>)
    ensures Prepend(front, Prepend([e], rest)) == Prepend(front + [e], rest)
  {
    if rest.Some? {
      assert front + ([e] + rest.value) == front + [e] + rest.value;
    }
  }

  lemma PrependNothing(rest: Option<seq<Entry>>)
    ensures Prepend([], rest) == rest
  {
    if rest.Some? {
      assert [] + rest.value == rest.value;
    }
  }

  lemma EndOfBlock(rest: string)
    requires rest == "" || rest[0] == '\0'
    ensures Capture(rest) == Some([])
  {}

  lemma CaptureStep(rest: string)
    requires rest != "" && rest[0] != '\0'
    ensures var length := IndexOf(rest, '\0', 0);
            var entry := ParseEntry(rest[..length]);
            Capture(rest) ==
              if entry.None? then None
              else Prepend([entry.value], Capture(if length < |rest| then rest[length + 1..] else ""))
  {}

  datatype Snapshot = Captured(entries: seq<Entry>) | SystemFailed | Malformed

  /** The answer of the system is absent when the call fails. */
  method CaptureCurrentEnvironment(answer: Option<string>) returns (snapshot: Snapshot)
    ensures snapshot.SystemFailed? <==> answer.None?
    ensures snapshot.Captured? <==> answer.Some? && Capture(answer.value).Some?
    ensures snapshot.Captured? ==> Capture(answer.value) == Some(snapshot.entries)
  {
    if answer.None? {
      return SystemFailed;
    }
    var entries := CaptureLoop(answer.value);
    snapshot := if entries.None? then Malformed else Captured(entries.value);
  }

  /** The capture loop.  The system ends every block with two NULs. */
  method CaptureLoop(block: string) returns (snapshot: Option<seq<Entry>>)
    ensures snapshot == Capture(block)
  {
    var entries: seq<Entry> := [];
    var current := 0;
    hide Capture, ParseEntry, IndexOf;
    assert block[0..] == block;
    PrependNothing(Capture(block));
    while current < |block| && block[current] != '\0'
      invariant 0 <= current <= |block|
      invariant Capture(block) == Prepend(entries, Capture(block[current..]))
    {
      var rest := block[current..];
      CaptureStep(rest);
      var length := IndexOf(rest, '\0', 0);
      var entry := ParseEntry(rest[..length]);
      if entry.None? {
        return None;
      }
      ghost var later := Capture(if length < |rest| then rest[length + 1..] else "");
      PrependMore(entries, entry.value, later);
      entries := entries + [entry.value];
      if length < |rest| {
        assert rest[length + 1..] == block[current + length + 1..];
        current := current + length + 1;
      } else {
        assert block[|block|..] == "";
        current := |block|;
      }
    }
    EndOfBlock(block[current..]);
    assert entries + [] == entries;
    return Some(entries);
  }

  lemma {:induction false} FindAt(text: string, c: char, from: nat, at: nat)
    requires from <= at < |text| && text[at] == c && c !in text[from..at]
    ensures IndexOf(text, c, from) == at
    decreases at - from
  {
    if from < at {
      assert text[from] in text[from..at];
      assert text[from..at][1..] == text[from + 1..at];
      FindAt(text, c, from + 1, at);
    }
  }

  lemma EntryRoundTrip(e: Entry)
    requires ValidateEntry(e, false) == None
    ensures ParseEntry(e.name + ['='] + e.value.value) == Some(e)
  {
    var text := e.name + ['='] + e.value.value;
    var from := if e.name[0] == '=' then 1 else 0;
    assert text[from..|e.name|] == e.name[from..];
    FindAt(text, '=', from, |e.name|);
    assert text[..|e.name|] == e.name && text[|e.name| + 1..] == e.value.value;
  }

  lemma {:induction false} CaptureEntries(entries: seq<Entry>, rest: string)
    requires AllWritable(entries)
    requires rest != "" && rest[0] == '\0'
    ensures Capture(RenderEntries(entries) + rest) == Some(entries)
    decreases |entries|
  {
    if entries == [] {
      EndOfBlock(rest);
      assert RenderEntries(entries) + rest == rest;
    } else {
      hide Capture, RenderEntries;
      var e, tail := entries[0], entries[1..];
      assert entries == [e] + tail;
      assert ValidateEntry(e, false) == None;
      hide ValidateEntry;
      CaptureEntries(tail, rest);
      CaptureMore(e, tail, rest);
    }
  }

  lemma CaptureMore(e: Entry, tail: seq<Entry>, rest: string)
    requires ValidateEntry(e, false) == None
    requires Capture(RenderEntries(tail) + rest) == Some(tail)
    ensures Capture(RenderEntries([e] + tail) + rest) == Some([e] + tail)
  {
    hide *;
    RenderFromFront([e] + tail);
    assert ([e] + tail)[0] == e && ([e] + tail)[1..] == tail;
    CaptureOne(e, RenderEntries(tail) + rest, tail);
    Regroup(RenderEntry(e), RenderEntries(tail), rest);
  }

  lemma CaptureOne(e: Entry, more: string, tail: seq<Entry>)
    requires ValidateEntry(e, false) == None && Capture(more) == Some(tail)
    ensures Capture(RenderEntry(e) + more) == Some([e] + tail)
  {
    hide ParseEntry;
    var text := e.name + ['='] + e.value.value;
    var block := RenderEntry(e) + more;
    EntryRoundTrip(e);
    assert block[0..|text|] == text && block[..|text|] == text && block[|text|] == '\0';
    assert block[0] != '\0';
    FindAt(block, '\0', 0, |text|);
    assert block[|text| + 1..] == more;
  }

  lemma {:induction false} RenderFromFront(entries: seq<Entry>)
    requires entries != []
    ensures RenderEntries(entries) == RenderEntry(entries[0]) + RenderEntries(entries[1..])
  {
    hide RenderEntry;
    var n := |entries| - 1;
    if n > 0 {
      RenderFromFront(entries[..n]);
      assert entries[..n][1..] == entries[1..][..n - 1];
    }
  }

  /** Main result: capturing a built block gives back exactly its entries, hidden names included,
      and they say what the two lists say. */
  lemma BlockRoundTrip(inherited: seq<Entry>, overrides: seq<Entry>, fold: Folding)
    requires Buildable(inherited, overrides, fold)
    ensures Capture(Render(FinalEntries(inherited, overrides, fold))) == Some(FinalEntries(inherited, overrides, fold))
    ensures forall e :: e in FinalEntries(inherited, overrides, fold) <==> InEnvironment(e, inherited, overrides, fold)
  {
    FinalIsWritable(inherited, overrides, fold);
    var final := FinalEntries(inherited, overrides, fold);
    CaptureEntries(final, if final == [] then ['\0', '\0'] else ['\0']);
  }

  /** A captured block, built again without overrides, is the same block. */
  lemma RebuildIsIdempotent(inherited: seq<Entry>, overrides: seq<Entry>, fold: Folding)
    requires Buildable(inherited, overrides, fold)
    ensures var final := FinalEntries(inherited, overrides, fold);
            Buildable(final, [], fold) && FinalEntries(final, [], fold) == final
  {
    FinalIsWritable(inherited, overrides, fold);
    var final := FinalEntries(inherited, overrides, fold);
    forall i | 0 <= i < |final|
      ensures EntryProblem(final, i, false, fold) == None
    {
      forall k | 0 <= k < i
        ensures !SameName(final[k].name, final[i].name, fold)
      {
        LessIsTotal(Folded(final[k].name, fold), Folded(final[i].name, fold));
      }
    }
    AcceptableIsDistinct(final, false, fold);
    SortSorts(final, fold);
    SortedIsUnique(Sort(final, fold), final, fold);
  }
}
