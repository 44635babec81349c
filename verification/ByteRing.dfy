/** The bounded capture ring: a wrapping buffer that stands for the tail of an unbounded stream. */
module ByteRing {
  import opened Options
  import opened Sequences

  function Min(a: nat, b: nat): nat {
    if a < b then a else b
  }

  datatype ReadResult = ReadResult(
    bytes: seq<Byte>, requestedCursor: U64, effectiveCursor: U64, nextCursor: U64,
    oldestCursor: U64, newestCursor: U64, totalDroppedBytes: U64, droppedBeforeCursor: U64,
    availableBytes: nat, cursorTruncated: bool, cursorAhead: bool,
    limited: bool, truncated: bool, closed: bool, eof: bool)

  // The meaning of a ring: the last bytes of what was ever appended

  /** Bytes are numbered by their position in the stream; the ring keeps the last `capacity`. */
  function Oldest(stream: seq<Byte>, capacity: nat): nat {
    |stream| - Min(capacity, |stream|)
  }

  /** A cursor that fell behind is moved up to the oldest kept byte, one that ran ahead back. */
  function Effective(stream: seq<Byte>, capacity: nat, cursor: nat): nat {
    if cursor < Oldest(stream, capacity) then Oldest(stream, capacity)
    else if cursor > |stream| then |stream|
    else cursor
  }

  /** The slice of the stream that a read returns. */
  function Slice(stream: seq<Byte>, capacity: nat, cursor: nat, maxBytes: nat): seq<Byte> {
    var start := Effective(stream, capacity, cursor);
    stream[start..start + Min(maxBytes, |stream| - start)]
  }

  ghost predicate DescribesRead(r: ReadResult, stream: seq<Byte>, capacity: nat, closed: bool, cursor: U64, maxBytes: nat) {
    var oldest, start := Oldest(stream, capacity), Effective(stream, capacity, cursor);
    && r.bytes == Slice(stream, capacity, cursor, maxBytes)
    && r.requestedCursor == cursor && r.effectiveCursor == start
    && r.nextCursor == start + |r.bytes|
    && r.oldestCursor == r.totalDroppedBytes == oldest && r.newestCursor == |stream|
    && r.droppedBeforeCursor == (if cursor < oldest then oldest - cursor else 0)
    && r.cursorTruncated == (cursor < oldest) && r.cursorAhead == (cursor > |stream|)
    && r.availableBytes == |stream| - start
    && r.limited == (r.nextCursor < |stream|)
    && r.truncated == (r.cursorTruncated || r.limited)
    && r.closed == closed && r.eof == (closed && r.nextCursor == |stream|)
  }

  // Circular windows

  /** Position `i` of a window that starts at `head` in a circle of `capacity` slots. */
  function Slot(head: nat, i: nat, capacity: nat): (slot: nat)
    requires head < capacity && i <= capacity
    ensures slot < capacity
  {
    if head + i < capacity then head + i else head + i - capacity
  }

  /** The index arithmetic of the ring, `(head + i) % capacity`. */
  method Around(head: nat, i: nat, capacity: nat) returns (slot: nat)
    requires head < capacity && i <= capacity
    ensures slot == Slot(head, i, capacity)
  {
    slot := (head + i) % capacity;
    var q := (head + i) / capacity;
    assert head + i == q * capacity + slot;
    QuotientBound(q, slot, capacity);
  }

  lemma QuotientBound(q: nat, r: nat, m: nat)
    requires r < m && q * m + r < 2 * m
    ensures q == 0 || q == 1
  {}

  ghost function Window(circle: seq<Byte>, head: nat, n: nat): (w: seq<Byte>)
    requires n <= |circle| && (n > 0 ==> head < |circle|)
    ensures |w| == n
  {
    seq(n, i requires 0 <= i < n => circle[Slot(head, i, |circle|)])
  }

  lemma WindowIsTwoSlices(circle: seq<Byte>, head: nat, n: nat)
    requires head < |circle| && n <= |circle|
    ensures var first := Min(n, |circle| - head);
            Window(circle, head, n) == circle[head..head + first] + circle[..n - first]
  {}

  lemma WholeWindow(circle: seq<Byte>)
    requires circle != []
    ensures Window(circle, 0, |circle|) == circle
  {}

  lemma TailOfStream(stream: seq<Byte>, input: seq<Byte>, n: nat)
    requires n <= |input|
    ensures (stream + input)[|stream| + |input| - n..] == input[|input| - n..]
  {}

  lemma WindowOfWindow(circle: seq<Byte>, head: nat, n: nat, skip: nat, m: nat)
    requires head < |circle| && n <= |circle| && skip + m <= n
    ensures Window(circle, head, n)[skip..skip + m] == Window(circle, Slot(head, skip, |circle|), m)
  {}

  /** The window of a ring over the stream, seen from a later position. */
  lemma WindowOfStream(circle: seq<Byte>, head: nat, size: nat, stream: seq<Byte>, oldest: nat, from: nat, n: nat)
    requires head < |circle| && size <= |circle| && oldest + size == |stream|
    requires Window(circle, head, size) == stream[oldest..]
    requires oldest <= from && from + n <= |stream|
    ensures Window(circle, Slot(head, from - oldest, |circle|), n) == stream[from..from + n]
  {
    WindowOfWindow(circle, head, size, from - oldest, n);
    assert stream[oldest..][from - oldest..from - oldest + n] == stream[from..from + n];
  }

  /** Writing into a window in one piece or two, the second at the start of the circle. */
  ghost function Overwrite(circle: seq<Byte>, head: nat, input: seq<Byte>): (after: seq<Byte>)
    requires head < |circle| && |input| <= |circle|
    ensures |after| == |circle|
  {
    var first := Min(|input|, |circle| - head);
    var once := circle[..head] + input[..first] + circle[head + first..];
    input[first..] + once[|input| - first..]
  }

  lemma OverwrittenWindow(circle: seq<Byte>, head: nat, input: seq<Byte>)
    requires head < |circle| && |input| <= |circle|
    ensures Window(Overwrite(circle, head, input), head, |input|) == input
  {}

  lemma OverwriteElsewhere(circle: seq<Byte>, head: nat, n: nat, input: seq<Byte>)
    requires head < |circle| && n + |input| <= |circle|
    ensures Window(Overwrite(circle, Slot(head, n, |circle|), input), head, n) == Window(circle, head, n)
  {}

  /** Writing behind a window extends it. */
  lemma WindowGrows(circle: seq<Byte>, head: nat, n: nat, input: seq<Byte>)
    requires head < |circle| && n + |input| <= |circle|
    ensures Window(Overwrite(circle, Slot(head, n, |circle|), input), head, n + |input|)
         == Window(circle, head, n) + input
  {
    hide Overwrite, Window;
    var start := Slot(head, n, |circle|);
    var after := Overwrite(circle, start, input);
    OverwrittenWindow(circle, start, input);
    OverwriteElsewhere(circle, head, n, input);
    WindowOfWindow(after, head, n + |input|, 0, n);
    WindowOfWindow(after, head, n + |input|, n, |input|);
    var all := Window(after, head, n + |input|);
    assert Slot(head, 0, |circle|) == head;
    assert all == all[0..n] + all[n..n + |input|];
  }

  class BoundedByteRing {
    const storage: array<Byte>
    var head: nat
    var size: nat
    var oldestCursor: U64
    var newestCursor: U64
    var closed: bool
    ghost var stream: seq<Byte>

    ghost predicate Valid()
      reads this, storage
    {
      && newestCursor == |stream|
      && oldestCursor == Oldest(stream, storage.Length)
      && size == Min(storage.Length, |stream|)
      && (if storage.Length == 0 then head == 0 else head < storage.Length)
      && Window(storage[..], head, size) == stream[oldestCursor..]
    }

    constructor (capacity: nat)
      ensures Valid() && stream == [] && !closed && storage.Length == capacity && fresh(storage)
    {
      storage := new Byte[capacity];
      head, size, oldestCursor, newestCursor, closed := 0, 0, 0, 0, false;
      stream := [];
    }

    /** `data` is absent for a null pointer.  A rejected append changes nothing. */
    method Append(data: Option<seq<Byte>>, length: nat) returns (ok: bool)
      requires Valid()
      requires data.Some? ==> |data.value| == length
      modifies this, storage
      ensures Valid() && closed == old(closed)
      ensures ok <==> (data.Some? || length == 0) && !old(closed) && length <= MAX_U64 - old(|stream|)
      ensures stream == old(stream) + (if ok && data.Some? then data.value else [])
    {
      if length != 0 && data.None? {
        return false;
      }
      if closed || length > MAX_U64 - newestCursor {
        return false;
      }
      if length == 0 {
        return true;
      }
      if storage.Length == 0 {
        var newEnd := newestCursor + length;
        stream := stream + data.value;
        newestCursor, oldestCursor, head, size := newEnd, newEnd, 0, 0;
      } else if length >= storage.Length {
        AppendReplacing(data.value);
      } else {
        AppendWrapping(data.value);
      }
      return true;
    }

    /** An input that fills the ring: its end is all that is kept. */
    method AppendReplacing(input: seq<Byte>)
      requires Valid() && 0 < storage.Length <= |input| <= MAX_U64 - |stream|
      modifies this`head, this`size, this`oldestCursor, this`newestCursor, this`stream, storage
      ensures Valid() && stream == old(stream) + input
    {
      var newEnd: U64 := newestCursor + |input|;
      hide Window, Slot, Overwrite, Effective, Slice, DescribesRead;
      var tail := input[|input| - storage.Length..];
      FillWhole(tail);
      ghost var circle := storage[..];
      WholeWindow(circle);
      TailOfStream(stream, input, storage.Length);
      stream := stream + input;
      head, size, newestCursor, oldestCursor := 0, storage.Length, newEnd, newEnd - storage.Length;
    }

    method FillWhole(bytes: seq<Byte>)
      requires |bytes| == storage.Length
      modifies storage
      ensures storage[..] == bytes
    {
      NothingAround(storage[..0], bytes, storage[|bytes|..]);
      CopyIn(0, bytes);
    }

    /** A shorter input: drop what must go, then copy in one piece or two. */
    method AppendWrapping(input: seq<Byte>)
      requires Valid() && 0 < |input| < storage.Length && |input| <= MAX_U64 - |stream|
      modifies this`head, this`size, this`oldestCursor, this`newestCursor, this`stream, storage
      ensures Valid() && stream == old(stream) + input
    {
      var length, capacity := |input|, storage.Length;
      var newEnd := newestCursor + length;
      if size + length > capacity {
        DropOldest(size + length - capacity);
      }
      var destination := Around(head, size, capacity);
      WindowGrows(storage[..], head, size, input);
      CopyWrapped(destination, input);
      assert stream[oldestCursor..] + input == (stream + input)[oldestCursor..];
      stream := stream + input;
      size := size + length;
      newestCursor := newEnd;
      oldestCursor := newestCursor - size;
    }

    method DropOldest(remove: nat)
      requires head < storage.Length && size <= storage.Length && remove <= size
      requires oldestCursor + size == |stream| <= MAX_U64
      requires Window(storage[..], head, size) == stream[oldestCursor..]
      modifies this`head, this`size, this`oldestCursor
      ensures head < storage.Length && size == old(size) - remove && oldestCursor == old(oldestCursor) + remove
      ensures Window(storage[..], head, size) == stream[oldestCursor..]
    {
      WindowOfStream(storage[..], head, size, stream, oldestCursor, oldestCursor + remove, size - remove);
      head := Around(head, remove, storage.Length);
      size := size - remove;
      oldestCursor := oldestCursor + remove;
    }

    method CopyWrapped(destination: nat, input: seq<Byte>)
      requires destination < storage.Length && |input| <= storage.Length
      modifies storage
      ensures storage[..] == Overwrite(old(storage[..]), destination, input)
    {
      var first := Min(|input|, storage.Length - destination);
      CopyIn(destination, input[..first]);
      if first < |input| {
        CopyIn(0, input[first..]);
      }
    }

    /** memcpy into the storage. */
    method CopyIn(destination: nat, bytes: seq<Byte>)
      requires destination + |bytes| <= storage.Length
      modifies storage
      ensures storage[..] == old(storage[..destination]) + bytes + old(storage[destination + |bytes|..])
    {
      forall i | 0 <= i < |bytes| {
        storage[destination + i] := bytes[i];
      }
    }

    method Close()
      requires Valid()
      modifies this`closed
      ensures Valid() && closed
    {
      closed := true;
    }

    /** The copy of a read, in one piece or two. */
    method CopyOut(effective: U64, take: nat) returns (bytes: seq<Byte>)
      requires Valid() && oldestCursor <= effective && effective + take <= newestCursor
      ensures bytes == stream[effective..effective + take]
    {
      bytes := [];
      if take != 0 {
        ghost var circle := storage[..];
        WindowOfStream(circle, head, size, stream, oldestCursor, effective, take);
        var source := Around(head, effective - oldestCursor, storage.Length);
        WindowIsTwoSlices(circle, source, take);
        var first := Min(take, storage.Length - source);
        bytes := storage[source..source + first];
        if first < take {
          bytes := bytes + storage[..take - first];
        }
      }
    }

    method Read(cursor: U64, maxBytes: nat) returns (r: ReadResult)
      requires Valid()
      ensures DescribesRead(r, stream, storage.Length, closed, cursor, maxBytes)
    {
      var effective, dropped, truncated, ahead := cursor, 0, false, false;
      if cursor < oldestCursor {
        truncated := true;
        dropped := oldestCursor - cursor;
        effective := oldestCursor;
      } else if cursor > newestCursor {
        ahead := true;
        effective := newestCursor;
      }
      var available := newestCursor - effective;
      var take := Min(maxBytes, available);
      var bytes := CopyOut(effective, take);
      var next := effective + take;
      r := ReadResult(bytes, cursor, effective, next, oldestCursor, newestCursor, oldestCursor, dropped,
                      available, truncated, ahead, take < available, truncated || take < available,
                      closed, closed && next == newestCursor);
    }
  }

  // A reader that follows the cursor it is given

  datatype Event = Appended(bytes: seq<Byte>) | ReadUpTo(maxBytes: nat)

  datatype Piece = Gap(size: nat) | Data(bytes: seq<Byte>)

  datatype Reader = Reader(cursor: nat, log: seq<Piece>)

  function Follow(stream: seq<Byte>, capacity: nat, reader: Reader, maxBytes: nat): Reader {
    var start := Effective(stream, capacity, reader.cursor);
    var bytes := Slice(stream, capacity, reader.cursor, maxBytes);
    var dropped := Oldest(stream, capacity) - reader.cursor;
    Reader(start + |bytes|, reader.log + (if dropped > 0 then [Gap(dropped)] else []) + [Data(bytes)])
  }

  /** Appends and reads in any order, from an empty ring and a reader at its start. */
  function Session(events: seq<Event>, capacity: nat): (seq<Byte>, Reader) {
    if events == [] then ([], Reader(0, []))
    else
      var (stream, reader) := Session(events[..|events| - 1], capacity);
      match events[|events| - 1]
      case Appended(bytes) => (stream + bytes, reader)
      case ReadUpTo(maxBytes) => (stream, Follow(stream, capacity, reader, maxBytes))
  }

  /** The log accounts for the whole text: data pieces are its bytes, gaps stand for the rest. */
  ghost predicate Accounts(log: seq<Piece>, text: seq<Byte>) {
    if log == [] then text == []
    else
      var (init, last) := (log[..|log| - 1], log[|log| - 1]);
      match last
      case Gap(size) => size <= |text| && Accounts(init, text[..|text| - size])
      case Data(bytes) =>
        && |bytes| <= |text|
        && text[|text| - |bytes|..] == bytes
        && Accounts(init, text[..|text| - |bytes|])
  }

  lemma AccountsExtend(log: seq<Piece>, text: seq<Byte>, piece: Piece, more: seq<Byte>)
    requires Accounts(log, text)
    requires match piece case Gap(size) => |more| == size case Data(bytes) => more == bytes
    ensures Accounts(log + [piece], text + more)
  {
    assert (log + [piece])[..|log|] == log;
    assert (text + more)[..|text|] == text;
    assert (text + more)[|text|..] == more;
  }

  /** Main result: whatever the appends, the reads and the capacity, a reader that follows its
      cursor has the stream up to that cursor, but for gaps of exactly the reported sizes. */
  lemma {:induction false} ReaderMissesOnlyReportedGaps(events: seq<Event>, capacity: nat)
    ensures var (stream, reader) := Session(events, capacity);
            reader.cursor <= |stream| && Accounts(reader.log, stream[..reader.cursor])
  {
    if events != [] {
      var init := events[..|events| - 1];
      ReaderMissesOnlyReportedGaps(init, capacity);
      var (stream, reader) := Session(init, capacity);
      match events[|events| - 1]
      case Appended(bytes) =>
        assert (stream + bytes)[..reader.cursor] == stream[..reader.cursor];
      case ReadUpTo(maxBytes) =>
        FollowAccounts(stream, capacity, reader, maxBytes);
    }
  }

  lemma FollowAccounts(stream: seq<Byte>, capacity: nat, reader: Reader, maxBytes: nat)
    requires reader.cursor <= |stream| && Accounts(reader.log, stream[..reader.cursor])
    ensures var next := Follow(stream, capacity, reader, maxBytes);
            next.cursor <= |stream| && Accounts(next.log, stream[..next.cursor])
  {
    hide *;
    var start, bytes, gap := FollowIs(stream, capacity, reader, maxBytes);
    var log := SkipGap(stream, start, reader.cursor, reader.log);
    AccountsExtend(log, stream[..start], Data(bytes), bytes);
    PrefixGrows(stream, start, start + |bytes|);
  }

  /** A reader that is not ahead gets bytes from its cursor on, behind the gap if there is one. */
  lemma FollowIs(stream: seq<Byte>, capacity: nat, reader: Reader, maxBytes: nat)
    returns (start: nat, bytes: seq<Byte>, gap: seq<Piece>)
    requires reader.cursor <= |stream|
    ensures reader.cursor <= start && start + |bytes| <= |stream| && bytes == stream[start..start + |bytes|]
    ensures gap == if start > reader.cursor then [Gap(start - reader.cursor)] else []
    ensures Follow(stream, capacity, reader, maxBytes) == Reader(start + |bytes|, reader.log + gap + [Data(bytes)])
  {
    start := Effective(stream, capacity, reader.cursor);
    bytes := Slice(stream, capacity, reader.cursor, maxBytes);
    gap := if start > reader.cursor then [Gap(start - reader.cursor)] else [];
  }

  lemma SkipGap(stream: seq<Byte>, start: nat, cursor: nat, log: seq<Piece>) returns (skipped: seq<Piece>)
    requires cursor <= start <= |stream| && Accounts(log, stream[..cursor])
    ensures skipped == log + (if start > cursor then [Gap(start - cursor)] else [])
    ensures Accounts(skipped, stream[..start])
  {
    skipped := log + (if start > cursor then [Gap(start - cursor)] else []);
    if start > cursor {
      AccountsExtend(log, stream[..cursor], Gap(start - cursor), stream[cursor..start]);
      PrefixGrows(stream, cursor, start);
    } else {
      assert skipped == log;
    }
  }

  /** The log accounts for the stream up to the cursor; and stream and reader are those of the session, unless
      the session appends more than a ring can count. */
  ghost predicate Follows(stream: seq<Byte>, reader: Reader, events: seq<Event>, capacity: nat) {
    && reader.cursor <= |stream| && Accounts(reader.log, stream[..reader.cursor])
    && (|Session(events, capacity).0| <= MAX_U64 ==> (stream, reader) == Session(events, capacity))
  }

  /** The ring itself, driven by appends and by a reader that follows `nextCursor`, with gaps as reported. */
  method FollowRing(ring: BoundedByteRing, events: seq<Event>) returns (reader: Reader)
    requires ring.Valid() && ring.stream == [] && !ring.closed
    modifies ring, ring.storage
    ensures ring.Valid() && Follows(ring.stream, reader, events, ring.storage.Length)
  {
    hide *;
    reader := Reader(0, []);
    FollowsAtStart(events[..0], ring.storage.Length);
    for i := 0 to |events|
      invariant ring.Valid() && !ring.closed && Follows(ring.stream, reader, events[..i], ring.storage.Length)
    {
      reader := FollowEvent(ring, events, i, reader);
    }
    assert events[..|events|] == events;
  }

  method FollowEvent(ring: BoundedByteRing, events: seq<Event>, i: nat, reader0: Reader) returns (reader: Reader)
    requires ring.Valid() && !ring.closed && i < |events| && Follows(ring.stream, reader0, events[..i], ring.storage.Length)
    modifies ring, ring.storage
    ensures ring.Valid() && !ring.closed && Follows(ring.stream, reader, events[..i + 1], ring.storage.Length)
  {
    CursorIsInside(ring.stream, reader0, events[..i], ring.storage.Length);
    hide *;
    ghost var stream := ring.stream;
    if events[i].Appended? {
      reader := reader0;
      var ok := ring.Append(Some(events[i].bytes), |events[i].bytes|);
      AppendFollows(stream, reader, events, i, ring.storage.Length, ring.stream);
    } else {
      reader := FollowOnce(ring, reader0, events[i].maxBytes);
      ReadFollows(stream, reader0, events, i, ring.storage.Length);
    }
  }

  lemma CursorIsInside(stream: seq<Byte>, reader: Reader, events: seq<Event>, capacity: nat)
    requires Follows(stream, reader, events, capacity)
    ensures reader.cursor <= |stream|
  {
  }

  /** One read, and what the reader writes down about it. */
  method FollowOnce(ring: BoundedByteRing, reader0: Reader, maxBytes: nat) returns (reader: Reader)
    requires ring.Valid() && reader0.cursor <= |ring.stream|
    ensures reader == Follow(ring.stream, ring.storage.Length, reader0, maxBytes)
  {
    var r := ring.Read(reader0.cursor, maxBytes);
    var gap := if r.droppedBeforeCursor > 0 then [Gap(r.droppedBeforeCursor)] else [];
    reader := Reader(r.nextCursor, reader0.log + gap + [Data(r.bytes)]);
  }

  lemma FollowsAtStart(events: seq<Event>, capacity: nat)
    requires events == []
    ensures Follows([], Reader(0, []), events, capacity)
  {
  }

  lemma AppendFollows(stream: seq<Byte>, reader: Reader, events: seq<Event>, i: nat, capacity: nat, longer: seq<Byte>)
    requires i < |events| && events[i].Appended? && Follows(stream, reader, events[..i], capacity)
    requires longer == stream + if |events[i].bytes| <= MAX_U64 - |stream| then events[i].bytes else []
    ensures Follows(longer, reader, events[..i + 1], capacity)
  {
    SessionStep(events, i, capacity);
    hide Accounts, Session, Follow;
    assert longer[..reader.cursor] == stream[..reader.cursor];
  }

  lemma ReadFollows(stream: seq<Byte>, reader: Reader, events: seq<Event>, i: nat, capacity: nat)
    requires i < |events| && events[i].ReadUpTo? && Follows(stream, reader, events[..i], capacity)
    ensures Follows(stream, Follow(stream, capacity, reader, events[i].maxBytes), events[..i + 1], capacity)
  {
    SessionStep(events, i, capacity);
    FollowAccounts(stream, capacity, reader, events[i].maxBytes);
    hide Accounts, Session, Follow;
  }

  lemma SessionStep(events: seq<Event>, i: nat, capacity: nat)
    requires i < |events|
    ensures var (stream, reader) := Session(events[..i], capacity);
            Session(events[..i + 1], capacity) ==
            match events[i]
            case Appended(bytes) => (stream + bytes, reader)
            case ReadUpTo(maxBytes) => (stream, Follow(stream, capacity, reader, maxBytes))
  {
    assert events[..i + 1][..i] == events[..i];
    hide Follow;
  }

  ghost function Received(log: seq<Piece>): seq<Byte> {
    if log == [] then []
    else Received(log[..|log| - 1]) + (match log[|log| - 1] case Gap(_) => [] case Data(bytes) => bytes)
  }

  /** A reader that was told of no gap has every byte. */
  lemma {:induction false} NoGapNoLoss(log: seq<Piece>, text: seq<Byte>)
    requires Accounts(log, text) && forall i | 0 <= i < |log| :: log[i].Data?
    ensures Received(log) == text
  {
    if log != [] {
      var bytes := log[|log| - 1].bytes;
      NoGapNoLoss(log[..|log| - 1], text[..|text| - |bytes|]);
      assert text[..|text| - |bytes|] + text[|text| - |bytes|..] == text;
    }
  }
}
