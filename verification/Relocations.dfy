/** Undoing the loader's base relocations in a dumped image. */
module Relocations {
  import opened Options
  import opened LittleEndian

  /** What the caller supplies: the word size, the load delta, the map from addresses to file
      offsets, and the addresses whose bytes were taken from a template and never relocated. */
  datatype Context = Context(is64: bool, delta: int, rvaToOffset: nat -> Option<nat>, skip: nat -> bool)

  datatype Tally = Tally(blocks: nat, entries: nat, patched: nat, skippedTemplate: nat, unsupported: nat)

  const NO_TALLY := Tally(0, 0, 0, 0, 0)

  function Width(c: Context): nat {
    if c.is64 then 8 else 4
  }

  /** Type 10 is the 64-bit fix-up, type 3 the 32-bit one. */
  predicate SupportedType(c: Context, kind: nat) {
    if c.is64 then kind == 10 else kind == 3
  }

  datatype Relocation = Relocation(kind: nat, rva: nat)

  function Word16(image: Bytes, at: nat): nat
    requires at + 2 <= |image|
  {
    Value(Field(image, at, 2))
  }

  function Word32(image: Bytes, at: nat): nat
    requires at + 4 <= |image|
  {
    Value(Field(image, at, 4))
  }

  // One relocation

  /** Where a relocation is patched, if it is. */
  function PatchPlace(c: Context, size: nat, r: Relocation): Option<nat> {
    if r.kind == 0 || c.skip(r.rva) then None
    else
      var offset := c.rvaToOffset(r.rva);
      if offset.Some? && SupportedType(c, r.kind) && offset.value + Width(c) <= size then offset else None
  }

  function Counted(c: Context, size: nat, r: Relocation, t: Tally): Tally {
    if r.kind == 0 then t
    else
      var t1 := t.(entries := t.entries + 1);
      if c.skip(r.rva) then t1.(skippedTemplate := t1.skippedTemplate + 1)
      else if PatchPlace(c, size, r).Some? then t1.(patched := t1.patched + 1)
      else t1.(unsupported := t1.unsupported + 1)
  }

  function Patched(c: Context, image: Bytes, r: Relocation): (after: Bytes)
    ensures |after| == |image|
  {
    var place := PatchPlace(c, |image|, r);
    if place.None? then image else Add(image, place.value, Width(c), -c.delta)
  }

  // The walk over the directory, reading it from the image as it is being patched

  function EntryAt(image: Bytes, at: nat, page: nat): Relocation
    requires at + 2 <= |image|
  {
    Relocation(Word16(image, at) / 0x1000, page + Word16(image, at) % 0x1000)
  }

  function WalkEntries(c: Context, image: Bytes, at: nat, count: nat, page: nat, t: Tally): (r: (Bytes, Tally))
    requires at + 2 * count <= |image|
    ensures |r.0| == |image|
    decreases count
  {
    if count == 0 then (image, t)
    else
      var entry := EntryAt(image, at, page);
      WalkEntries(c, Patched(c, image, entry), at + 2, count - 1, page, Counted(c, |image|, entry, t))
  }

  /** A block at the cursor: a page address other than zero and a size that fits. */
  predicate BlockAt(image: Bytes, cursor: nat, end: nat)
    requires end <= |image|
  {
    cursor + 8 <= end && Word32(image, cursor) != 0
    && Word32(image, cursor + 4) >= 8 && cursor + Word32(image, cursor + 4) <= end
  }

  function EntryCount(image: Bytes, cursor: nat): nat
    requires cursor + 8 <= |image| && Word32(image, cursor + 4) >= 8
  {
    (Word32(image, cursor + 4) - 8) / 2
  }

  function WalkBlocks(c: Context, image: Bytes, cursor: nat, end: nat, t: Tally): (r: (Bytes, Tally))
    requires end <= |image|
    ensures |r.0| == |image|
    decreases end - cursor
  {
    if !BlockAt(image, cursor, end) then (image, t)
    else
      var (image', t') := WalkEntries(c, image, cursor + 8, EntryCount(image, cursor), Word32(image, cursor),
                                      t.(blocks := t.blocks + 1));
      WalkBlocks(c, image', cursor + Word32(image, cursor + 4), end, t')
  }

  datatype Report = Report(required: bool, tally: Tally, complete: bool, failed: bool)

  /** `directory` is where the relocation directory starts in the file, if it is mapped at all. */
  function Reversal(c: Context, image: Bytes, directory: Option<nat>, directorySize: nat): (Bytes, Report) {
    if c.delta == 0 then (image, Report(false, NO_TALLY, true, false))
    else if directory.None? || directorySize < 8 then (image, Report(true, NO_TALLY, false, true))
    else
      var (image', t) := WalkBlocks(c, image, directory.value, DirectoryEnd(image, directory.value, directorySize), NO_TALLY);
      var touched := t.patched != 0 || t.skippedTemplate != 0;
      (image', Report(true, t, touched && t.unsupported == 0, !touched))
  }

  function DirectoryEnd(image: Bytes, directory: nat, directorySize: nat): (end: nat)
    ensures end <= |image|
  {
    if directory + directorySize < |image| then directory + directorySize else |image|
  }

  // The code, patching in place

  method ReadWord(image: array<Byte>, at: nat, w: nat) returns (v: nat)
    requires at + w <= image.Length
    ensures v == Value(Field(image[..], at, w))
  {
    v := Value(image[at..at + w]);
    assert image[at..at + w] == image[..][at..at + w];
  }

  method WriteWord(image: array<Byte>, at: nat, w: nat, v: nat)
    requires at + w <= image.Length
    modifies image
    ensures image[..] == Splice(old(image[..]), at, Encode(v, w))
  {
    var bytes := Encode(v, w);
    forall i | 0 <= i < w {
      image[at + i] := bytes[i];
    }
  }

  /** Reads a word, takes the delta away modulo its width, and writes it back. */
  method SubtractFrom(image: array<Byte>, at: nat, w: nat, delta: int)
    requires at + w <= image.Length
    modifies image
    ensures image[..] == Add(old(image[..]), at, w, -delta)
  {
    var value := ReadWord(image, at, w);
    WriteWord(image, at, w, (value - delta) % Power256(w));
  }

  method PatchEntry(c: Context, image: array<Byte>, r: Relocation, t: Tally) returns (t': Tally)
    requires c.delta != 0
    modifies image
    ensures image[..] == Patched(c, old(image[..]), r)
    ensures t' == Counted(c, image.Length, r, t)
  {
    hide Add;
    if r.kind == 0 {
      return t;
    }
    t' := t.(entries := t.entries + 1);
    if c.skip(r.rva) {
      t' := t'.(skippedTemplate := t'.skippedTemplate + 1);
      return;
    }
    var target := c.rvaToOffset(r.rva);
    if target.None? {
      t' := t'.(unsupported := t'.unsupported + 1);
      return;
    }
    if r.kind == 10 && c.is64 && target.value + 8 <= image.Length {
      SubtractFrom(image, target.value, 8, c.delta);
      t' := t'.(patched := t'.patched + 1);
    } else if r.kind == 3 && !c.is64 && target.value + 4 <= image.Length {
      SubtractFrom(image, target.value, 4, c.delta);
      t' := t'.(patched := t'.patched + 1);
    } else {
      t' := t'.(unsupported := t'.unsupported + 1);
    }
  }

  lemma EntriesStep(c: Context, image: Bytes, at: nat, count: nat, page: nat, t: Tally)
    requires at + 2 * count <= |image| && count > 0
    ensures WalkEntries(c, image, at, count, page, t)
         == WalkEntries(c, Patched(c, image, EntryAt(image, at, page)), at + 2, count - 1, page,
                        Counted(c, |image|, EntryAt(image, at, page), t))
  {}

  lemma NoEntriesLeft(c: Context, image: Bytes, at: nat, page: nat, t: Tally)
    requires at <= |image|
    ensures WalkEntries(c, image, at, 0, page, t) == (image, t)
  {}

  lemma BlocksStep(c: Context, image: Bytes, cursor: nat, end: nat, t: Tally)
    requires end <= |image| && BlockAt(image, cursor, end)
    ensures var (image', t') := WalkEntries(c, image, cursor + 8, EntryCount(image, cursor), Word32(image, cursor),
                                            t.(blocks := t.blocks + 1));
            WalkBlocks(c, image, cursor, end, t) == WalkBlocks(c, image', cursor + Word32(image, cursor + 4), end, t')
  {
    hide WalkEntries, Word32, EntryCount;
  }

  lemma NoBlockLeft(c: Context, image: Bytes, cursor: nat, end: nat, t: Tally)
    requires end <= |image| && !BlockAt(image, cursor, end)
    ensures WalkBlocks(c, image, cursor, end, t) == (image, t)
  {}

  method PatchBlock(c: Context, image: array<Byte>, start: nat, count: nat, page: nat, t: Tally) returns (t': Tally)
    requires c.delta != 0 && start + 2 * count <= image.Length
    modifies image
    ensures (image[..], t') == WalkEntries(c, old(image[..]), start, count, page, t)
  {
    hide WalkEntries, Patched, Counted, Value, Field;
    t' := t;
    for index := 0 to count
      invariant WalkEntries(c, image[..], start + 2 * index, count - index, page, t')
             == WalkEntries(c, old(image[..]), start, count, page, t)
    {
      EntriesStep(c, image[..], start + 2 * index, count - index, page, t');
      var encoded := ReadWord(image, start + index * 2, 2);
      var entry := Relocation(encoded / 0x1000, page + encoded % 0x1000);
      assert entry == EntryAt(image[..], start + 2 * index, page);
      t' := PatchEntry(c, image, entry, t');
    }
    NoEntriesLeft(c, image[..], start + 2 * count, page, t');
  }

  method ReverseBaseRelocations(c: Context, image: array<Byte>, directory: Option<nat>, directorySize: nat)
    returns (report: Report)
    modifies image
    ensures (image[..], report) == Reversal(c, old(image[..]), directory, directorySize)
  {
    if c.delta == 0 {
      return Report(false, NO_TALLY, true, false);
    }
    if directory.None? || directorySize < 8 {
      return Report(true, NO_TALLY, false, true);
    }
    var end := if directory.value + directorySize < image.Length then directory.value + directorySize
               else image.Length;
    var t := PatchBlocks(c, image, directory.value, end);
    var touched := t.patched != 0 || t.skippedTemplate != 0;
    report := Report(true, t, touched && t.unsupported == 0, !touched);
  }

  method PatchBlocks(c: Context, image: array<Byte>, start: nat, end: nat) returns (t: Tally)
    requires c.delta != 0 && end <= image.Length
    modifies image
    ensures (image[..], t) == WalkBlocks(c, old(image[..]), start, end, NO_TALLY)
  {
    hide WalkBlocks, WalkEntries, Value, Field;
    var cursor := start;
    t := NO_TALLY;
    while cursor + 8 <= end
      invariant WalkBlocks(c, image[..], cursor, end, t) == WalkBlocks(c, old(image[..]), start, end, NO_TALLY)
      decreases end - cursor
    {
      var page := ReadWord(image, cursor, 4);
      var blockSize := ReadWord(image, cursor + 4, 4);
      if page == 0 || blockSize < 8 || cursor + blockSize > end {
        break;
      }
      BlocksStep(c, image[..], cursor, end, t);
      t := t.(blocks := t.blocks + 1);
      t := PatchBlock(c, image, cursor + 8, (blockSize - 8) / 2, page, t);
      cursor := cursor + blockSize;
    }
    NoBlockLeft(c, image[..], cursor, end, t);
  }

  // The relocations that an image lists, apart from what the walk does to it

  function EntriesOf(image: Bytes, at: nat, count: nat, page: nat): seq<Relocation>
    requires at + 2 * count <= |image|
    decreases count
  {
    if count == 0 then [] else [EntryAt(image, at, page)] + EntriesOf(image, at + 2, count - 1, page)
  }

  function Listed(image: Bytes, cursor: nat, end: nat): seq<Relocation>
    requires end <= |image|
    decreases end - cursor
  {
    if !BlockAt(image, cursor, end) then []
    else EntriesOf(image, cursor + 8, EntryCount(image, cursor), Word32(image, cursor))
         + Listed(image, cursor + Word32(image, cursor + 4), end)
  }

  function BlockCount(image: Bytes, cursor: nat, end: nat): nat
    requires end <= |image|
    decreases end - cursor
  {
    if !BlockAt(image, cursor, end) then 0 else 1 + BlockCount(image, cursor + Word32(image, cursor + 4), end)
  }

  function PatchAll(c: Context, image: Bytes, rs: seq<Relocation>): (after: Bytes)
    ensures |after| == |image|
    decreases |rs|
  {
    if rs == [] then image else PatchAll(c, Patched(c, image, rs[0]), rs[1..])
  }

  function CountAll(c: Context, size: nat, rs: seq<Relocation>, t: Tally): Tally
    decreases |rs|
  {
    if rs == [] then t else CountAll(c, size, rs[1..], Counted(c, size, rs[0], t))
  }

  lemma {:induction false} PatchAllAppends(c: Context, image: Bytes, a: seq<Relocation>, b: seq<Relocation>)
    ensures PatchAll(c, image, a + b) == PatchAll(c, PatchAll(c, image, a), b)
    decreases |a|
  {
    hide Patched;
    if a == [] {
      assert a + b == b;
    } else {
      assert (a + b)[1..] == a[1..] + b;
      PatchAllAppends(c, Patched(c, image, a[0]), a[1..], b);
    }
  }

  lemma {:induction false} CountAllAppends(c: Context, size: nat, a: seq<Relocation>, b: seq<Relocation>, t: Tally)
    ensures CountAll(c, size, a + b, t) == CountAll(c, size, b, CountAll(c, size, a, t))
    decreases |a|
  {
    hide Counted;
    if a == [] {
      assert a + b == b;
    } else {
      assert (a + b)[1..] == a[1..] + b;
      CountAllAppends(c, size, a[1..], b, Counted(c, size, a[0], t));
    }
  }

  lemma {:induction false} CountAllKeepsBlocks(c: Context, size: nat, rs: seq<Relocation>, t: Tally, blocks: nat)
    ensures CountAll(c, size, rs, t.(blocks := blocks)) == CountAll(c, size, rs, t).(blocks := blocks)
    ensures CountAll(c, size, rs, t).blocks == t.blocks
    decreases |rs|
  {
    if rs != [] {
      CountAllKeepsBlocks(c, size, rs[1..], Counted(c, size, rs[0], t), blocks);
    }
  }

  // Patches that leave the directory alone

  predicate SameDirectory(a: Bytes, b: Bytes, lo: nat, end: nat)
  {
    |a| == |b| && lo <= end <= |a| && a[lo..end] == b[lo..end]
  }

  ghost predicate Misses(c: Context, size: nat, rs: seq<Relocation>, lo: nat, end: nat) {
    forall r | r in rs :: var place := PatchPlace(c, size, r);
                          place.Some? ==> place.value + Width(c) <= lo || end <= place.value
  }

  lemma SameFields(a: Bytes, b: Bytes, lo: nat, end: nat, at: nat, w: nat)
    requires SameDirectory(a, b, lo, end) && lo <= at && at + w <= end
    ensures Field(a, at, w) == Field(b, at, w)
  {
    forall i | at <= i < at + w
      ensures a[i] == b[i]
    {
      assert a[i] == a[lo..end][i - lo] && b[i] == b[lo..end][i - lo];
    }
  }

  lemma PatchKeepsDirectory(c: Context, image: Bytes, r: Relocation, lo: nat, end: nat)
    requires lo <= end <= |image| && Misses(c, |image|, [r], lo, end)
    ensures SameDirectory(image, Patched(c, image, r), lo, end)
  {
    var place := PatchPlace(c, |image|, r);
    assert r in [r];
    if place.Some? {
      forall i | lo <= i < end
        ensures Patched(c, image, r)[i] == image[i]
      {
        AddKeepsOthers(image, place.value, Width(c), -c.delta, i);
      }
    }
  }

  lemma HeadAndTailMiss(c: Context, size: nat, rs: seq<Relocation>, lo: nat, end: nat)
    requires rs != [] && Misses(c, size, rs, lo, end)
    ensures Misses(c, size, [rs[0]], lo, end) && Misses(c, size, rs[1..], lo, end)
  {
    assert rs[0] in rs;
  }

  lemma {:induction false} PatchAllKeepsDirectory(c: Context, image: Bytes, rs: seq<Relocation>, lo: nat, end: nat)
    requires lo <= end <= |image| && Misses(c, |image|, rs, lo, end)
    ensures SameDirectory(image, PatchAll(c, image, rs), lo, end)
    decreases |rs|
  {
    if rs != [] {
      HeadAndTailMiss(c, |image|, rs, lo, end);
      PatchKeepsDirectory(c, image, rs[0], lo, end);
      hide Patched, Misses;
      PatchAllKeepsDirectory(c, Patched(c, image, rs[0]), rs[1..], lo, end);
    }
  }

  /** Walking entries of a directory that stays as in `base` is patching them one after the other. */
  lemma {:induction false} EntriesAreBatch(c: Context, base: Bytes, image: Bytes, at: nat, count: nat, page: nat,
                                           t: Tally, lo: nat, end: nat)
    requires SameDirectory(base, image, lo, end) && lo <= at && at + 2 * count <= end
    requires Misses(c, |image|, EntriesOf(base, at, count, page), lo, end)
    ensures var rs := EntriesOf(base, at, count, page);
            WalkEntries(c, image, at, count, page, t) == (PatchAll(c, image, rs), CountAll(c, |image|, rs, t))
    decreases count
  {
    if count > 0 {
      SameFields(base, image, lo, end, at, 2);
      var entry, rs := EntryAt(base, at, page), EntriesOf(base, at, count, page);
      assert entry == EntryAt(image, at, page);
      assert rs[0] == entry && rs[1..] == EntriesOf(base, at + 2, count - 1, page);
      HeadAndTailMiss(c, |image|, rs, lo, end);
      PatchKeepsDirectory(c, image, entry, lo, end);
      hide Patched, Counted, Misses, EntryAt;
      EntriesAreBatch(c, base, Patched(c, image, entry), at + 2, count - 1, page, Counted(c, |image|, entry, t), lo, end);
    }
  }

  lemma SameBlock(a: Bytes, b: Bytes, lo: nat, end: nat, cursor: nat)
    requires SameDirectory(a, b, lo, end) && lo <= cursor
    ensures BlockAt(a, cursor, end) == BlockAt(b, cursor, end)
    ensures BlockAt(a, cursor, end) ==>
              Word32(a, cursor) == Word32(b, cursor) && Word32(a, cursor + 4) == Word32(b, cursor + 4) >= 8
              && EntryCount(a, cursor) == EntryCount(b, cursor)
  {
    if cursor + 8 <= end {
      SameFields(a, b, lo, end, cursor, 4);
      SameFields(a, b, lo, end, cursor + 4, 4);
    }
  }

  lemma SplitMiss(c: Context, size: nat, a: seq<Relocation>, b: seq<Relocation>, lo: nat, end: nat)
    requires Misses(c, size, a + b, lo, end)
    ensures Misses(c, size, a, lo, end) && Misses(c, size, b, lo, end)
  {
    assert forall r :: r in a || r in b ==> r in a + b;
  }

  /** The walk over a directory that no patch touches is one batch of patches. */
  lemma {:induction false} WalkIsBatch(c: Context, base: Bytes, image: Bytes, cursor: nat, end: nat, t: Tally, lo: nat)
    requires SameDirectory(base, image, lo, end) && lo <= cursor
    requires Misses(c, |image|, Listed(base, cursor, end), lo, end)
    ensures WalkBlocks(c, image, cursor, end, t)
         == (PatchAll(c, image, Listed(base, cursor, end)),
             CountAll(c, |image|, Listed(base, cursor, end), t.(blocks := t.blocks + BlockCount(base, cursor, end))))
    decreases end - cursor
  {
    SameBlock(base, image, lo, end, cursor);
    if BlockAt(base, cursor, end) {
      BlockIsBatch(c, base, image, cursor, end, t, lo);
    } else {
      NoBlockLeft(c, image, cursor, end, t);
    }
  }

  lemma {:induction false} BlockIsBatch(c: Context, base: Bytes, image: Bytes, cursor: nat, end: nat, t: Tally, lo: nat)
    requires SameDirectory(base, image, lo, end) && lo <= cursor
    requires BlockAt(base, cursor, end) && BlockAt(image, cursor, end)
    requires Misses(c, |image|, Listed(base, cursor, end), lo, end)
    ensures WalkBlocks(c, image, cursor, end, t)
         == (PatchAll(c, image, Listed(base, cursor, end)),
             CountAll(c, |image|, Listed(base, cursor, end), t.(blocks := t.blocks + BlockCount(base, cursor, end))))
    decreases end - cursor, 0
  {
    hide *;
    SameSize(base, image, lo, end);
    SameBlock(base, image, lo, end, cursor);
    BlocksStep(c, image, cursor, end, t);
    ListedStep(base, cursor, end);
    var page, size, count := Word32(base, cursor), Word32(base, cursor + 4), EntryCount(base, cursor);
    var here, rest := EntriesOf(base, cursor + 8, count, page), Listed(base, cursor + size, end);
    var t1, more := t.(blocks := t.blocks + 1), BlockCount(base, cursor + size, end);
    SplitMiss(c, |image|, here, rest, lo, end);
    EntriesAreBatch(c, base, image, cursor + 8, count, page, t1, lo, end);
    PatchAllKeepsDirectory(c, image, here, lo, end);
    SameDirectoryChains(base, image, PatchAll(c, image, here), lo, end);
    WalkIsBatch(c, base, PatchAll(c, image, here), cursor + size, end, CountAll(c, |image|, here, t1), lo);
    PatchAllAppends(c, image, here, rest);
    BlockTally(c, |image|, here, rest, t1, more);
    assert t.(blocks := t.blocks + (1 + more)) == t1.(blocks := t1.blocks + more);
  }

  lemma ListedStep(image: Bytes, cursor: nat, end: nat)
    requires end <= |image| && BlockAt(image, cursor, end)
    ensures cursor + 8 <= end && Word32(image, cursor + 4) >= 8
    ensures cursor + 8 + 2 * EntryCount(image, cursor) <= cursor + Word32(image, cursor + 4) <= end
    ensures Listed(image, cursor, end)
         == EntriesOf(image, cursor + 8, EntryCount(image, cursor), Word32(image, cursor))
            + Listed(image, cursor + Word32(image, cursor + 4), end)
    ensures BlockCount(image, cursor, end) == 1 + BlockCount(image, cursor + Word32(image, cursor + 4), end)
  {}

  lemma SameSize(a: Bytes, b: Bytes, lo: nat, end: nat)
    requires SameDirectory(a, b, lo, end)
    ensures |a| == |b| && lo <= end <= |a|
  {}

  lemma SameDirectoryChains(a: Bytes, b: Bytes, d: Bytes, lo: nat, end: nat)
    requires SameDirectory(a, b, lo, end) && SameDirectory(b, d, lo, end)
    ensures SameDirectory(a, d, lo, end)
  {}

  lemma BlockTally(c: Context, size: nat, here: seq<Relocation>, rest: seq<Relocation>, t: Tally, more: nat)
    ensures CountAll(c, size, rest, CountAll(c, size, here, t).(blocks := CountAll(c, size, here, t).blocks + more))
         == CountAll(c, size, here + rest, t.(blocks := t.blocks + more))
  {
    hide *;
    CountAllKeepsBlocks(c, size, here, t, t.blocks + more);
    CountAllAppends(c, size, here, rest, t.(blocks := t.blocks + more));
  }

  // The loader, and undoing it

  ghost function Places(c: Context, size: nat, rs: seq<Relocation>): (places: seq<nat>)
    ensures InRange(places, Width(c), size)
  {
    if rs == [] then []
    else
      var place := PatchPlace(c, size, rs[0]);
      (if place.Some? then [place.value] else []) + Places(c, size, rs[1..])
  }

  lemma {:induction false} PatchAllIsAddAll(c: Context, image: Bytes, rs: seq<Relocation>)
    ensures PatchAll(c, image, rs) == AddAll(image, Places(c, |image|, rs), Width(c), -c.delta)
    decreases |rs|
  {
    if rs != [] {
      PatchAllIsAddAll(c, Patched(c, image, rs[0]), rs[1..]);
      var place, rest := PatchPlace(c, |image|, rs[0]), Places(c, |image|, rs[1..]);
      hide Add;
      if place.Some? {
        assert ([place.value] + rest)[1..] == rest;
      } else {
        assert [] + rest == rest;
      }
    }
  }

  lemma {:induction false} PlacesMiss(c: Context, size: nat, rs: seq<Relocation>, lo: nat, end: nat)
    requires Misses(c, size, rs, lo, end)
    ensures forall p | p in Places(c, size, rs) :: p + Width(c) <= lo || end <= p
  {
    if rs != [] {
      HeadAndTailMiss(c, size, rs, lo, end);
      assert rs[0] in [rs[0]];
      PlacesMiss(c, size, rs[1..], lo, end);
    }
  }

  /** What the loader did to an image: the delta added at every place the image lists. */
  ghost function Loaded(c: Context, image: Bytes, directory: nat, directorySize: nat): (r: Bytes)
    ensures |r| == |image|
  {
    var rs := Listed(image, directory, DirectoryEnd(image, directory, directorySize));
    AddAll(image, Places(c, |image|, rs), Width(c), c.delta)
  }

  lemma LoadingKeepsDirectory(c: Context, image: Bytes, rs: seq<Relocation>, lo: nat, end: nat)
    requires lo <= end <= |image| && Misses(c, |image|, rs, lo, end)
    ensures SameDirectory(image, AddAll(image, Places(c, |image|, rs), Width(c), c.delta), lo, end)
  {
    hide *;
    PlacesMiss(c, |image|, rs, lo, end);
    var places := Places(c, |image|, rs);
    var loaded := AddAll(image, places, Width(c), c.delta);
    forall i | lo <= i < end ensures loaded[i] == image[i] {
      AddAllKeepsOthers(image, places, Width(c), c.delta, i);
    }
    SameDirectoryWhen(image, loaded, lo, end);
  }

  lemma SameDirectoryWhen(a: Bytes, b: Bytes, lo: nat, end: nat)
    requires |a| == |b| && lo <= end <= |a| && forall i | lo <= i < end :: b[i] == a[i]
    ensures SameDirectory(a, b, lo, end)
  {
  }

  lemma ReversalWalks(c: Context, image: Bytes, directory: nat, directorySize: nat)
    requires c.delta != 0 && directorySize >= 8
    ensures var walked := WalkBlocks(c, image, directory, DirectoryEnd(image, directory, directorySize), NO_TALLY);
            var reversal := Reversal(c, image, Some(directory), directorySize);
            reversal.0 == walked.0 && reversal.1.tally == walked.1
  {
    hide WalkBlocks;
  }

  /** The places that an image lists do not partly overlap and miss the directory. */
  ghost predicate Undoable(c: Context, image: Bytes, directory: nat, directorySize: nat) {
    var end := DirectoryEnd(image, directory, directorySize);
    var rs := Listed(image, directory, end);
    directory <= end && Misses(c, |image|, rs, directory, end) && Compatible(Places(c, |image|, rs), Width(c))
  }

  lemma PatchingUndoesAdding(c: Context, image: Bytes, rs: seq<Relocation>)
    requires Compatible(Places(c, |image|, rs), Width(c))
    ensures PatchAll(c, AddAll(image, Places(c, |image|, rs), Width(c), c.delta), rs) == image
  {
    hide *;
    var loaded := AddAll(image, Places(c, |image|, rs), Width(c), c.delta);
    PatchAllIsAddAll(c, loaded, rs);
    AddAllCancels(image, Places(c, |image|, rs), Width(c), c.delta);
  }

  /** Reversing patches what the directory lists, read from any image with the same directory. */
  lemma ReversalIsBatch(c: Context, base: Bytes, image: Bytes, directory: nat, directorySize: nat, end: nat, rs: seq<Relocation>)
    requires c.delta != 0 && directorySize >= 8 && SameDirectory(base, image, directory, end)
    requires end == DirectoryEnd(image, directory, directorySize) && rs == Listed(base, directory, end)
    requires Misses(c, |image|, rs, directory, end)
    ensures var (after, report) := Reversal(c, image, Some(directory), directorySize);
            && after == PatchAll(c, image, rs)
            && report.tally == CountAll(c, |image|, rs, NO_TALLY.(blocks := BlockCount(base, directory, end)))
  {
    assert NO_TALLY.blocks == 0;
    hide *;
    ReversalWalks(c, image, directory, directorySize);
    WalkIsBatch(c, base, image, directory, end, NO_TALLY, directory);
  }

  lemma LoadingMeans(c: Context, image: Bytes, directory: nat, directorySize: nat)
    returns (end: nat, rs: seq<Relocation>, loaded: Bytes)
    requires Undoable(c, image, directory, directorySize)
    ensures end == DirectoryEnd(image, directory, directorySize) && rs == Listed(image, directory, end)
    ensures loaded == Loaded(c, image, directory, directorySize) && DirectoryEnd(loaded, directory, directorySize) == end
    ensures SameDirectory(image, loaded, directory, end) && Misses(c, |loaded|, rs, directory, end)
    ensures PatchAll(c, loaded, rs) == image
  {
    hide Listed, AddAll, Places, Misses, Compatible, PatchAll, SameDirectory;
    end := DirectoryEnd(image, directory, directorySize);
    rs := Listed(image, directory, end);
    loaded := Loaded(c, image, directory, directorySize);
    LoadingKeepsDirectory(c, image, rs, directory, end);
    PatchingUndoesAdding(c, image, rs);
  }

  /** Main result: reversing what the loader did restores the image byte for byte, and the tally
      counts what the image lists. */
  lemma ReversalUndoesLoader(c: Context, image: Bytes, directory: nat, directorySize: nat)
    requires c.delta != 0 && directorySize >= 8 && Undoable(c, image, directory, directorySize)
    ensures var (after, report) := Reversal(c, Loaded(c, image, directory, directorySize), Some(directory), directorySize);
            var end := DirectoryEnd(image, directory, directorySize);
            && after == image
            && report.tally == CountAll(c, |image|, Listed(image, directory, end),
                                        NO_TALLY.(blocks := BlockCount(image, directory, end)))
  {
    hide *;
    var end, rs, loaded := LoadingMeans(c, image, directory, directorySize);
    ReversalIsBatch(c, image, loaded, directory, directorySize, end, rs);
  }

  lemma PatchingKeepsOthers(c: Context, image: Bytes, rs: seq<Relocation>, i: nat)
    requires i < |image| && forall p | p in Places(c, |image|, rs) :: !(p <= i < p + Width(c))
    ensures PatchAll(c, image, rs)[i] == image[i]
  {
    hide *;
    PatchAllIsAddAll(c, image, rs);
    AddAllKeepsOthers(image, Places(c, |image|, rs), Width(c), -c.delta, i);
  }

  /** The reversal writes nowhere but at the places that the image lists. */
  lemma ReversalTouchesOnlyPlaces(c: Context, image: Bytes, directory: nat, directorySize: nat, i: nat)
    requires c.delta != 0 && directorySize >= 8 && i < |image|
    requires directory <= DirectoryEnd(image, directory, directorySize)
    requires var rs := Listed(image, directory, DirectoryEnd(image, directory, directorySize));
             Misses(c, |image|, rs, directory, DirectoryEnd(image, directory, directorySize))
             && forall p | p in Places(c, |image|, rs) :: !(p <= i < p + Width(c))
    ensures Reversal(c, image, Some(directory), directorySize).0[i] == image[i]
  {
    var end := DirectoryEnd(image, directory, directorySize);
    var rs := Listed(image, directory, end);
    assert SameDirectory(image, image, directory, end);
    hide *;
    ReversalIsBatch(c, image, image, directory, directorySize, end, rs);
    PatchingKeepsOthers(c, image, rs, i);
  }

  /** What the tally means: every listed relocation but the padding ones is counted once, as
      patched, as left to the template, or as unsupported. */
  lemma {:induction false} TallyPartitions(c: Context, size: nat, rs: seq<Relocation>, t: Tally)
    ensures var t' := CountAll(c, size, rs, t);
            && t'.patched == t.patched + |Places(c, size, rs)|
            && t'.entries - t.entries
               == (t'.patched - t.patched) + (t'.skippedTemplate - t.skippedTemplate) + (t'.unsupported - t.unsupported)
            && t'.unsupported >= t.unsupported
            && (t'.unsupported == t.unsupported <==>
                  forall r | r in rs && r.kind != 0 :: c.skip(r.rva) || PatchPlace(c, size, r).Some?)
    decreases |rs|
  {
    if rs != [] {
      TallyPartitions(c, size, rs[1..], Counted(c, size, rs[0], t));
      assert forall r :: r in rs <==> r == rs[0] || r in rs[1..];
      hide Width;
    }
  }
}
