/** Where the sections of a dumped image go in the file, and what that means for relocations whose
    targets are given as addresses. */
module ImageLayout {
  import opened Options
  import opened LittleEndian
  import opened Relocations

  function AtLeastOne(n: int): (r: nat)
    ensures r >= 1
  {
    if n < 1 then 1 else n
  }

  /** The next multiple; an alignment below one counts as one. */
  function AlignUp(value: nat, alignment: int): (r: nat)
    ensures r >= value && r % AtLeastOne(alignment) == 0
    ensures value % AtLeastOne(alignment) == 0 ==> r == value
    ensures r < value + AtLeastOne(alignment)
  {
    AlignedUp(value, AtLeastOne(alignment));
    (value + AtLeastOne(alignment) - 1) / AtLeastOne(alignment) * AtLeastOne(alignment)
  }

  predicate PowerOfTwo(n: int) {
    n == 1 || (n > 1 && n % 2 == 0 && PowerOfTwo(n / 2))
  }

  /** A declared file alignment that makes no sense is replaced. */
  function FileAlignment(declared: int): (r: nat)
    ensures r >= 1
  {
    if declared > 0x1_0000 || !PowerOfTwo(declared) then 0x200 else declared
  }

  lemma AlignedUp(value: nat, alignment: nat)
    requires alignment > 0
    ensures var r := (value + alignment - 1) / alignment * alignment;
            value <= r < value + alignment && r % alignment == 0 && (value % alignment == 0 ==> r == value)
  {
    var x := value + alignment - 1;
    var q, m := x / alignment, x % alignment;
    assert x == q * alignment + m;
    RemainderIsUnique(q * alignment, q, 0, alignment);
    if value % alignment == 0 {
      var k := value / alignment;
      assert value == k * alignment;
      assert (q - k) * alignment == alignment - 1 - m;
      if q > k {
        MultipleAtLeast(q - k, alignment);
      } else if q < k {
        MultipleAtLeast(k - q, alignment);
      }
    }
  }

  datatype Section = Section(virtualAddress: nat, virtualSize: nat, rawSize: nat)

  /** `end` is the address after the captured bytes, `pointer` their place in the file. */
  datatype Span = Span(start: nat, end: nat, pointer: nat)

  datatype Placement = Placement(captured: nat, rawSize: nat, rawPointer: nat)

  datatype Layout = Layout(sizeOfHeaders: nat, headerDiskSize: nat, spans: seq<Span>, fileSize: nat)

  /** As much of a section as its two sizes ask for and the image has. */
  function Captured(s: Section, imageSize: nat): nat {
    var wanted := if s.virtualSize > s.rawSize then s.virtualSize else s.rawSize;
    var available := if imageSize > s.virtualAddress then imageSize - s.virtualAddress else 0;
    if wanted < available then wanted else available
  }

  /** Spans lie one after the other in the file, behind the headers, and the file holds them all. */
  ghost predicate WellPlaced(l: Layout) {
    && l.sizeOfHeaders <= l.headerDiskSize <= l.fileSize
    && (forall i | 0 <= i < |l.spans| ::
          l.headerDiskSize <= l.spans[i].pointer && l.spans[i].start < l.spans[i].end
          && l.spans[i].pointer + (l.spans[i].end - l.spans[i].start) <= l.fileSize)
    && (forall i, j | 0 <= i < j < |l.spans| ::
          l.spans[i].pointer + (l.spans[i].end - l.spans[i].start) <= l.spans[j].pointer)
  }

  method PlaceSections(sections: seq<Section>, sizeOfHeaders: nat, imageSize: nat, declaredAlignment: int)
    returns (layout: Layout, placements: seq<Placement>)
    ensures WellPlaced(layout)
    ensures layout.sizeOfHeaders == sizeOfHeaders
            && layout.headerDiskSize == AlignUp(sizeOfHeaders, FileAlignment(declaredAlignment))
    ensures |placements| == |sections|
    ensures forall k | 0 <= k < |sections| ::
              var captured := Captured(sections[k], imageSize);
              && placements[k].captured == captured
              && placements[k].rawSize == AlignUp(captured, FileAlignment(declaredAlignment))
              && placements[k].rawPointer % FileAlignment(declaredAlignment) == 0
              && (if captured == 0 then placements[k].rawPointer == 0
                  else Span(sections[k].virtualAddress, sections[k].virtualAddress + captured, placements[k].rawPointer)
                       in layout.spans)
  {
    var fileAlignment := FileAlignment(declaredAlignment);
    hide FileAlignment;
    var headerDiskSize := AlignUp(sizeOfHeaders, fileAlignment);
    var nextRaw: nat := headerDiskSize;
    var spans: seq<Span> := [];
    placements := [];
    AlignedUp(0, fileAlignment);
    for k := 0 to |sections|
      invariant |placements| == k && nextRaw % fileAlignment == 0
      invariant WellPlaced(Layout(sizeOfHeaders, headerDiskSize, spans, nextRaw))
      invariant forall i | 0 <= i < k ::
                  var captured := Captured(sections[i], imageSize);
                  && placements[i].captured == captured
                  && placements[i].rawSize == AlignUp(captured, fileAlignment)
                  && placements[i].rawPointer % fileAlignment == 0
                  && (if captured == 0 then placements[i].rawPointer == 0
                      else Span(sections[i].virtualAddress, sections[i].virtualAddress + captured,
                                placements[i].rawPointer) in spans)
    {
      var rva := sections[k].virtualAddress;
      var available := if imageSize - rva > 0 then imageSize - rva else 0;
      var wanted := if sections[k].virtualSize > sections[k].rawSize then sections[k].virtualSize else sections[k].rawSize;
      var captureSize := if wanted < available then wanted else available;
      var rawSize := if captureSize != 0 then AlignUp(captureSize, fileAlignment) else 0;
      var rawPointer := if rawSize != 0 then nextRaw else 0;
      if rawSize != 0 {
        spans := spans + [Span(rva, rva + captureSize, rawPointer)];
        AlignedSum(nextRaw, rawSize, fileAlignment);
        nextRaw := nextRaw + rawSize;
      }
      placements := placements + [Placement(captureSize, rawSize, rawPointer)];
    }
    layout := Layout(sizeOfHeaders, headerDiskSize, spans, nextRaw);
  }

  lemma AlignedSum(a: nat, b: nat, m: nat)
    requires m > 0 && a % m == 0 && b % m == 0
    ensures (a + b) % m == 0
  {
    RemainderAdds(a, b, m);
  }

  /** The first span that has the address, or the number of spans. */
  function SpanOf(spans: seq<Span>, rva: nat): (i: nat)
    ensures i <= |spans|
    ensures i < |spans| ==> spans[i].start <= rva < spans[i].end
    ensures forall j | 0 <= j < i :: !(spans[j].start <= rva < spans[j].end)
  {
    if spans == [] || spans[0].start <= rva < spans[0].end then 0 else 1 + SpanOf(spans[1..], rva)
  }

  function RvaToOffset(l: Layout, rva: nat): Option<nat> {
    if rva < l.sizeOfHeaders then Some(rva)
    else
      var i := SpanOf(l.spans, rva);
      if i < |l.spans| then Some(l.spans[i].pointer + (rva - l.spans[i].start)) else None
  }

  /** The lookup loop over the spans. */
  method RvaToOffsetLoop(l: Layout, rva: nat) returns (offset: Option<nat>)
    ensures offset == RvaToOffset(l, rva)
  {
    if rva < l.sizeOfHeaders {
      return Some(rva);
    }
    for k := 0 to |l.spans|
      invariant SpanOf(l.spans, rva) == k + SpanOf(l.spans[k..], rva)
    {
      var span := l.spans[k];
      if span.start <= rva < span.end {
        return Some(span.pointer + (rva - span.start));
      }
      assert l.spans[k..][1..] == l.spans[k + 1..];
    }
    return None;
  }

  /** `n` bytes from `rva` on lie in the headers or in the span that has `rva`. */
  predicate Contained(l: Layout, rva: nat, n: nat) {
    if rva < l.sizeOfHeaders then rva + n <= l.sizeOfHeaders
    else
      var i := SpanOf(l.spans, rva);
      i < |l.spans| && rva + n <= l.spans[i].end
  }

  predicate RangesApart(a: nat, m: nat, b: nat, n: nat) {
    a + m <= b || b + n <= a
  }

  /** Ranges of addresses that do not meet do not meet in the file either, and stay inside it. */
  lemma OffsetsStayApart(l: Layout, a: nat, m: nat, b: nat, n: nat)
    requires WellPlaced(l) && m > 0 && n > 0
    requires Contained(l, a, m) && Contained(l, b, n) && RangesApart(a, m, b, n)
    ensures RvaToOffset(l, a).Some? && RvaToOffset(l, b).Some?
    ensures RangesApart(RvaToOffset(l, a).value, m, RvaToOffset(l, b).value, n)
    ensures RvaToOffset(l, a).value + m <= l.fileSize
  {}

  /** The addresses of the relocations that apply, each with its width. */
  ghost predicate GoodTargets(l: Layout, c: Context, rs: seq<Relocation>, directoryRva: nat, directorySize: nat) {
    && (forall r | r in rs && r.kind != 0 && !c.skip(r.rva) ::
          && Contained(l, r.rva, Width(c)) && RangesApart(r.rva, Width(c), directoryRva, directorySize))
    && (forall r, s | r in rs && s in rs && r.kind != 0 && s.kind != 0 && !c.skip(r.rva) && !c.skip(s.rva) ::
          r.rva == s.rva || RangesApart(r.rva, Width(c), s.rva, Width(c)))
  }

  ghost predicate MapsBy(c: Context, l: Layout) {
    forall rva :: c.rvaToOffset(rva) == RvaToOffset(l, rva)
  }

  /** Where a place comes from. */
  lemma {:induction false} PlaceHasRelocation(c: Context, size: nat, rs: seq<Relocation>, p: nat) returns (r: Relocation)
    requires p in Places(c, size, rs)
    ensures r in rs && PatchPlace(c, size, r) == Some(p)
  {
    var place := PatchPlace(c, size, rs[0]);
    if place == Some(p) {
      r := rs[0];
    } else {
      r := PlaceHasRelocation(c, size, rs[1..], p);
    }
  }

  /** Main result: in an image laid out here, it is enough that the relocated addresses do not
      partly overlap each other or meet the directory: reversal then undoes the loader. */
  lemma LaidOutImageIsRestored(l: Layout, c: Context, image: Bytes, directoryRva: nat, directorySize: nat)
    requires WellPlaced(l) && |image| == l.fileSize && MapsBy(c, l)
    requires c.delta != 0 && directorySize >= 8 && Contained(l, directoryRva, directorySize)
    requires var directory := RvaToOffset(l, directoryRva).value;
             GoodTargets(l, c, Listed(image, directory, DirectoryEnd(image, directory, directorySize)),
                         directoryRva, directorySize)
    ensures var directory := RvaToOffset(l, directoryRva).value;
            Reversal(c, Loaded(c, image, directory, directorySize), Some(directory), directorySize).0 == image
  {
    var directory := RvaToOffset(l, directoryRva).value;
    DirectoryInFile(l, directoryRva, directorySize);
    var end := DirectoryEnd(image, directory, directorySize);
    assert end == directory + directorySize;
    var rs := Listed(image, directory, end);
    TargetsMiss(l, c, image, rs, directoryRva, directorySize);
    TargetsAreCompatible(l, c, image, rs, directoryRva, directorySize);
    ReversalUndoesLoader(c, image, directory, directorySize);
  }

  lemma DirectoryInFile(l: Layout, rva: nat, n: nat)
    requires WellPlaced(l) && Contained(l, rva, n) && n > 0
    ensures RvaToOffset(l, rva).Some? && RvaToOffset(l, rva).value + n <= l.fileSize
  {}

  lemma TargetsMiss(l: Layout, c: Context, image: Bytes, rs: seq<Relocation>, directoryRva: nat, directorySize: nat)
    requires WellPlaced(l) && |image| == l.fileSize && MapsBy(c, l)
    requires directorySize > 0 && Contained(l, directoryRva, directorySize)
    requires GoodTargets(l, c, rs, directoryRva, directorySize)
    ensures RvaToOffset(l, directoryRva).Some?
    ensures var directory := RvaToOffset(l, directoryRva).value;
            Misses(c, |image|, rs, directory, directory + directorySize)
  {
    DirectoryInFile(l, directoryRva, directorySize);
    var directory := RvaToOffset(l, directoryRva).value;
    forall r | r in rs && PatchPlace(c, |image|, r).Some?
      ensures PatchPlace(c, |image|, r).value + Width(c) <= directory
              || directory + directorySize <= PatchPlace(c, |image|, r).value
    {
      OffsetsStayApart(l, r.rva, Width(c), directoryRva, directorySize);
    }
  }

  lemma TargetsAreCompatible(l: Layout, c: Context, image: Bytes, rs: seq<Relocation>,
                             directoryRva: nat, directorySize: nat)
    requires WellPlaced(l) && |image| == l.fileSize && MapsBy(c, l)
    requires GoodTargets(l, c, rs, directoryRva, directorySize)
    ensures Compatible(Places(c, |image|, rs), Width(c))
  {
    forall p, q | p in Places(c, |image|, rs) && q in Places(c, |image|, rs)
      ensures p == q || Apart(p, q, Width(c))
    {
      var r := PlaceHasRelocation(c, |image|, rs, p);
      var s := PlaceHasRelocation(c, |image|, rs, q);
      if r.rva != s.rva {
        OffsetsStayApart(l, r.rva, Width(c), s.rva, Width(c));
      }
    }
  }
}
