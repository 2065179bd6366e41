/** The open handle, the read cursor, and what one read returns. */
module Cursors {
  import opened Bytes
  import opened Frames
  import opened Segments
  import opened ChainCheck
  import opened Manifests
  import opened Storage
  import opened Recovery
  import opened Stores
  import opened Calls

  /** The metadata of `struct timelite_batches`; `times` carries the first, lowest
      and highest WAL time and the ordered flag. */
  datatype Handle = Handle(end: nat, sequence: nat, dataEnd: nat, installed: nat, generation: nat,
                           revision: nat, live: nat, retention: bool, lastTime: int, installedTime: int,
                           times: WalTimes, lastSegment: nat, spanStart: nat, legacy: bool)

  datatype Cursor = Cursor(position: nat, segmentEnd: nat, inWal: bool, readSequence: nat)

  function ResetCursor(): Cursor { Cursor(DATA_START, DATA_START, false, 1) }

  /** The handle's values are those of the store; the WAL's times count only
      while it has frames. */
  ghost predicate Reflects(h: Handle, st: Store)
    requires ValidSegments(st.segs)
  {
    && h.end == 32 + BodyLength(st.wal)
    && h.sequence == st.installed + |st.wal|
    && h.dataEnd == DATA_START + ChainLength(st.segs)
    && h.installed == st.installed
    && h.generation == |st.segs|
    && h.revision == st.revision
    && h.live == LiveCount(st.segs)
    && h.retention == st.retained
    && h.lastTime == LastTime(st.floor, st.wal)
    && h.installedTime == st.floor
    && h.lastSegment == LinkTo(DATA_START, st.segs, |st.segs|)
    && h.spanStart == SpanStart(st.segs)
    && !h.legacy
    && (if st.wal == [] then h.times.ordered
        else h.times.(last := 0) == Summary(Times(st.wal)).(last := 0))
  }

  /** Two handles of the same store agree in everything that is in use. */
  lemma {:induction false} ReflectionUnique(h: Handle, h': Handle, st: Store)
    requires ValidSegments(st.segs) && Reflects(h, st) && Reflects(h', st)
    ensures h.(times := h'.times) == h'
    ensures h.times.ordered == h'.times.ordered
    ensures h.end != 32 ==> h.times.(last := 0) == h'.times.(last := 0)
  {
    NoBody();
  }

  // --- one read ------------------------------------------------------------

  datatype ReadResult = Batch(entry: Entry, after: Cursor) | End | Invalid

  function ReadWal(w: bytes, h: Handle, c: Cursor): ReadResult
  {
    if c.position == h.end then End
    else if c.position > h.end then Invalid
    else
      match ReadFrame(w, c.position, h.end, c.readSequence)
      case Complete(data, count) =>
        Batch(Entry(c.readSequence, Records(data, count)),
              Cursor(c.position + |data|, c.segmentEnd, true, (c.readSequence + 1) % TWO64))
      case Incomplete => End
      case Damaged => Invalid
  }

  function ReadInstalled(d: bytes, c: Cursor): ReadResult
  {
    if c.position > c.segmentEnd then Invalid
    else
      match ReadFrame(d, c.position, c.segmentEnd, c.readSequence)
      case Complete(data, count) =>
        Batch(Entry(c.readSequence, Records(data, count)),
              Cursor(c.position + |data|, c.segmentEnd, false, (c.readSequence + 1) % TWO64))
      case _ => Invalid
  }

  /** `read_cursor`. */
  function ReadCursor(d: bytes, w: bytes, h: Handle, c: Cursor): ReadResult
  {
    if !c.inWal && c.position == h.dataEnd then
      ReadWal(w, h, Cursor(32, c.segmentEnd, true, (h.installed + 1) % TWO64))
    else if c.inWal then ReadWal(w, h, c)
    else if c.position == c.segmentEnd then
      match ReadSegment(d, c.position, h.dataEnd)
      case None => Invalid
      case Some(i) =>
        if i.first != c.readSequence && (!h.retention || i.first < c.readSequence) then Invalid
        else ReadInstalled(d, Cursor(c.position + i.headerSize, c.position + i.headerSize + i.body, false, i.first))
    else ReadInstalled(d, c)
  }

  /** Reading from c until END returns exactly these entries. */
  ghost predicate Drains(d: bytes, w: bytes, h: Handle, c: Cursor, entries: seq<Entry>)
    decreases |entries|
  {
    match ReadCursor(d, w, h, c)
    case End => entries == []
    case Batch(e, after) => entries != [] && e == entries[0] && Drains(d, w, h, after, entries[1..])
    case Invalid => false
  }

  // --- logical positions ---------------------------------------------------

  /** Before the first segment, after j batches of segment i, or after j WAL batches. */
  datatype Place = AtStart | InSegment(i: nat, j: nat) | InWal(j: nat)

  ghost predicate PlaceOk(st: Store, p: Place)
  {
    match p
    case AtStart => true
    case InSegment(i, j) => i < |st.segs| && j <= |st.segs[i].batches|
    case InWal(j) => j <= |st.wal|
  }

  /** How many visible batches lie before a place. */
  ghost function Index(st: Store, p: Place): nat
    requires PlaceOk(st, p)
  {
    match p
    case AtStart => 0
    case InSegment(i, j) => |SegmentEntries(st.segs[..i])| + j
    case InWal(j) => |SegmentEntries(st.segs)| + j
  }

  ghost predicate CursorAt(st: Store, c: Cursor, p: Place)
  {
    PlaceOk(st, p) &&
    match p
    case AtStart => c == ResetCursor()
    case InSegment(i, j) =>
      var s, o := st.segs[i], OffsetOf(DATA_START, st.segs, i);
      && !c.inWal
      && c.position == o + HeaderSize(s) + BodyLength(s.batches[..j])
      && c.segmentEnd == o + SegmentSize(s)
      && c.readSequence == (s.first + j) % TWO64
    case InWal(j) =>
      && c.inWal
      && c.position == 32 + BodyLength(st.wal[..j])
      && c.readSequence == (st.installed + 1 + j) % TWO64
  }

  /** The bytes a usable handle reads. */
  ghost predicate Readable(d: bytes, w: bytes, h: Handle, st: Store)
  {
    && ValidStore(st) && ValidSegments(st.segs)
    && Located(d, DATA_START, st.segs)
    && WalExact(w, st)
    && Reflects(h, st)
  }

  lemma {:induction false} ReadyReadable(disk: Disk, m: Manifest, st: Store, h: Handle)
    requires Ready(disk, m, st) && ValidSegments(st.segs) && Reflects(h, st)
    ensures Readable(disk.db.stable, disk.wal.stable, h, st)
  {
    HeldLocated(disk.db.stable, m, st);
  }

  // --- indices -------------------------------------------------------------

  lemma {:induction false} EntriesPrefix(segs: seq<Segment>, i: nat)
    requires i <= |segs|
    ensures |SegmentEntries(segs[..i])| <= |SegmentEntries(segs)|
    ensures SegmentEntries(segs)[..|SegmentEntries(segs[..i])|] == SegmentEntries(segs[..i])
    ensures i < |segs| ==>
              SegmentEntries(segs[..i + 1]) == SegmentEntries(segs[..i]) + Entries(segs[i].first, segs[i].batches)
    decreases |segs| - i
  {
    if i < |segs| {
      assert segs[..i + 1][..i] == segs[..i];
      EntriesPrefix(segs, i + 1);
    } else {
      assert segs[..i] == segs;
    }
  }

  lemma {:induction false} VisibleAt(st: Store, p: Place)
    requires PlaceOk(st, p)
    ensures Index(st, p) <= |Visible(st)|
    ensures p.InSegment? && p.j < |st.segs[p.i].batches| ==>
              Index(st, p) < |Visible(st)|
              && Visible(st)[Index(st, p)] == Entry(st.segs[p.i].first + p.j, st.segs[p.i].batches[p.j])
    ensures p.InWal? && p.j < |st.wal| ==>
              Index(st, p) < |Visible(st)| && Visible(st)[Index(st, p)] == Entry(st.installed + 1 + p.j, st.wal[p.j])
    ensures p.InWal? && p.j == |st.wal| ==> Index(st, p) == |Visible(st)|
  {
    hide SegmentEntries, Visible;
    match p
    case AtStart =>
    case InSegment(i, j) => VisibleInSegment(st, i, j);
    case InWal(j) => VisibleInWal(st, j);
  }

  lemma {:induction false} VisibleInWal(st: Store, j: nat)
    requires j <= |st.wal|
    ensures |Visible(st)| == |SegmentEntries(st.segs)| + |st.wal|
    ensures j < |st.wal| ==> Visible(st)[|SegmentEntries(st.segs)| + j] == Entry(st.installed + 1 + j, st.wal[j])
  {
    hide SegmentEntries;
  }

  lemma {:induction false} VisibleInSegment(st: Store, i: nat, j: nat)
    requires i < |st.segs| && j <= |st.segs[i].batches|
    ensures |SegmentEntries(st.segs[..i])| + j <= |Visible(st)|
    ensures j < |st.segs[i].batches| ==>
              && |SegmentEntries(st.segs[..i])| + j < |Visible(st)|
              && Visible(st)[|SegmentEntries(st.segs[..i])| + j] == Entry(st.segs[i].first + j, st.segs[i].batches[j])
  {
    hide SegmentEntries, Visible;
    EntriesPrefix(st.segs, i);
    EntriesPrefix(st.segs, i + 1);
    VisibleInWal(st, 0);
    var all, upTo, own := SegmentEntries(st.segs), SegmentEntries(st.segs[..i + 1]), Entries(st.segs[i].first,
                                         st.segs[i].batches);
    var lo := |SegmentEntries(st.segs[..i])|;
    assert |upTo| == lo + |own| && |own| == |st.segs[i].batches|;
    if j < |own| {
      VisibleInstalled(st, lo + j);
      InnerEntry(all, upTo, SegmentEntries(st.segs[..i]), own, j);
    }
  }

  lemma {:induction false} VisibleInstalled(st: Store, x: nat)
    requires x < |SegmentEntries(st.segs)|
    ensures x < |Visible(st)| && Visible(st)[x] == SegmentEntries(st.segs)[x]
  {
    hide SegmentEntries;
  }

  lemma {:induction false} InnerEntry(all: seq<Entry>, upTo: seq<Entry>, before: seq<Entry>, own: seq<Entry>, j: nat)
    requires |upTo| <= |all| && all[..|upTo|] == upTo && upTo == before + own && j < |own|
    ensures all[|before| + j] == own[j]
  {
    assert all[|before| + j] == all[..|upTo|][|before| + j];
  }

  /** The end of one segment is the start of the next, or of the WAL. */
  lemma {:induction false} EndOfSegment(st: Store, i: nat)
    requires i < |st.segs|
    ensures var p := InSegment(i, |st.segs[i].batches|);
            Index(st, p) == Index(st, if i + 1 < |st.segs| then InSegment(i + 1, 0) else InWal(0))
  {
    EntriesPrefix(st.segs, i);
    assert st.segs[..|st.segs|] == st.segs;
  }

  // --- what a read returns -------------------------------------------------

  lemma {:induction false} WalReadable(d: bytes, w: bytes, h: Handle, st: Store)
    requires Readable(d, w, h, st)
    ensures ValidBatches(st.wal) && FramesAt(w, 32, st.installed + 1, st.wal) && h.end == 32 + BodyLength(st.wal)
    ensures h.installed == st.installed && U64(st.installed + |st.wal|)
  {
    hide FramesAt, BodyLength, Located, ValidBatches, ValidData, ChainLength;
  }

  lemma {:induction false} ReadsWal(d: bytes, w: bytes, h: Handle, st: Store, c: Cursor, j: nat)
    requires Readable(d, w, h, st) && CursorAt(st, c, InWal(j)) && j < |st.wal|
    ensures var r := ReadWal(w, h, c);
            && r.Batch? && r.entry == Entry(st.installed + 1 + j, st.wal[j])
            && CursorAt(st, r.after, InWal(j + 1))
  {
    hide ReadFrame, BodyLength, Frame, Records, Readable, ValidBatch, FramesAt, FrameLength;
    WalReadable(d, w, h, st);
    ReadFrameAt(w, 32, st.installed + 1, st.wal, j, h.end);
    BodyLengthPrefix(st.wal, j);
    assert ValidBatch(st.wal[j]);
    FrameSize(st.installed + 1 + j, st.wal[j]);
    NextSequence(st.installed + 1 + j);
  }

  lemma {:induction false} WalEnds(d: bytes, w: bytes, h: Handle, st: Store, c: Cursor, j: nat)
    requires Readable(d, w, h, st) && CursorAt(st, c, InWal(j))
    ensures j == |st.wal| ==> ReadWal(w, h, c) == End
  {
    if j == |st.wal| {
      assert st.wal[..j] == st.wal;
    }
  }

  lemma {:induction false} ReadsSegment(d: bytes, w: bytes, h: Handle, st: Store, c: Cursor, i: nat, j: nat)
    requires Readable(d, w, h, st) && CursorAt(st, c, InSegment(i, j)) && j < |st.segs[i].batches|
    ensures c.position < c.segmentEnd
    ensures var r := ReadInstalled(d, c);
            && r.Batch? && r.entry == Entry(st.segs[i].first + j, st.segs[i].batches[j])
            && CursorAt(st, r.after, InSegment(i, j + 1))
  {
    hide ReadFrame, BodyLength, Frame, Records, OffsetOf, Readable, FrameLength, ValidBatch, Entries;
    FrameOfSegment(d, w, h, st, i, j);
    var s := st.segs[i];
    NextSequence(s.first + j);
  }

  lemma {:induction false} SegmentBatches(s: Segment, j: nat)
    requires ValidSegment(s) && j < |s.batches|
    ensures ValidBatches(s.batches) && U64(s.first + j)
  {
    hide BodyLength, Times, Sorted, ValidBatches;
  }

  lemma {:induction false} FrameOfSegment(d: bytes, w: bytes, h: Handle, st: Store, i: nat, j: nat)
    requires Readable(d, w, h, st) && i < |st.segs| && j < |st.segs[i].batches|
    ensures ValidBatches(st.segs[i].batches)
    ensures var s := st.segs[i];
            var base := OffsetOf(DATA_START, st.segs, i) + HeaderSize(s);
            var o, end := base + BodyLength(s.batches[..j]), base + BodyLength(s.batches);
            var f := Frame(s.first + j, s.batches[j]);
            && o < end && U64(s.first + j)
            && ReadFrame(d, o, end, s.first + j) == Complete(f, |s.batches[j]|)
            && Records(f, |s.batches[j]|) == s.batches[j]
            && o + |f| == base + BodyLength(s.batches[..j + 1])
  {
    hide ReadFrame, BodyLength, Frame, Records, Located, OffsetOf, FramesAt, Readable, ValidStore, ValidBatch,
      ValidSegment, SegmentBytes, PreviousLink, SkipLink, HeaderSize, FrameLength, ChainLength;
    var s := st.segs[i];
    DataReadable(d, w, h, st);
    assert ValidSegment(s);
    SegmentBatches(s, j);
    var base := OffsetOf(DATA_START, st.segs, i) + HeaderSize(s);
    LocatedSegment(d, DATA_START, st.segs, i);
    ReadFrameAt(d, base, s.first, s.batches, j, base + BodyLength(s.batches));
    BodyLengthPrefix(s.batches, j);
    assert ValidBatch(s.batches[j]);
    FrameSize(s.first + j, s.batches[j]);
  }

  /** At a segment boundary the header is read first; its sequence fits. */
  lemma {:induction false} EntersSegment(d: bytes, w: bytes, h: Handle, st: Store, c: Cursor, i: nat)
    requires Readable(d, w, h, st) && i < |st.segs| && !c.inWal
    requires c.position == c.segmentEnd == OffsetOf(DATA_START, st.segs, i)
    requires c.readSequence == SequenceAfter(st.segs, i) + 1
    ensures c.position != h.dataEnd
    ensures exists c' :: CursorAt(st, c', InSegment(i, 0)) && ReadCursor(d, w, h, c) == ReadInstalled(d, c')
  {
    hide ReadSegment, ReadInstalled, BodyLength, Located, Times, Summary, LowBit, ValidStore, WalExact, Sorted,
      ChainLength, SpanStart, LiveCount, LinkTo;
    StoreSequenced(st);
    assert FollowsAt(st.segs, i, st.retained);
    assert ValidSegment(st.segs[i]);
    DataEndBound(st);
    OffsetIncreases(DATA_START, st.segs, i, |st.segs|);
    assert st.segs[..|st.segs|] == st.segs;
    ReadChain(d, DATA_START, st.segs, i);
    var s := st.segs[i];
    NoFrames(s.batches);
    var c' := Cursor(c.position + HeaderSize(s), c.position + SegmentSize(s), false, s.first);
    SmallSequence(s);
    assert CursorAt(st, c', InSegment(i, 0));
  }

  lemma {:induction false} DataEndBound(st: Store)
    requires ValidStore(st)
    ensures U64(DATA_START + ChainLength(st.segs))
  {
  }

  lemma {:induction false} StoreSequenced(st: Store)
    requires ValidStore(st)
    ensures Sequenced(st.segs, st.retained) && ValidSegments(st.segs)
  {
  }

  lemma {:induction false} SmallSequence(s: Segment)
    requires ValidSegment(s)
    ensures s.first % TWO64 == s.first
  {
  }

  lemma {:induction false} DataReadable(d: bytes, w: bytes, h: Handle, st: Store)
    requires Readable(d, w, h, st)
    ensures h.dataEnd == DATA_START + ChainLength(st.segs) && ValidStore(st) && ValidSegments(st.segs)
    ensures Located(d, DATA_START, st.segs)
  {
    hide Located, WalExact, ValidStore, ValidSegment, ChainLength;
  }

  lemma {:induction false} EntersWal(d: bytes, w: bytes, h: Handle, st: Store, c: Cursor)
    requires Readable(d, w, h, st) && !c.inWal && c.position == DATA_START + ChainLength(st.segs)
    ensures exists c' :: CursorAt(st, c', InWal(0)) && ReadCursor(d, w, h, c) == ReadWal(w, h, c')
  {
    hide ReadWal, ReadInstalled, ReadSegment, BodyLength, Readable, ChainLength, ValidStore, ValidSegments, Located,
      FramesAt, ValidBatches;
    NoFrames(st.wal);
    WalReadable(d, w, h, st);
    DataReadable(d, w, h, st);
    var c' := Cursor(32, c.segmentEnd, true, (st.installed + 1) % TWO64);
    assert CursorAt(st, c', InWal(0));
  }

  /** The cursor stands at place p, with k visible batches before it. */
  ghost predicate PlaceAt(st: Store, c: Cursor, p: Place, k: nat)
  {
    CursorAt(st, c, p) && Index(st, p) == k
  }

  ghost predicate Positioned(st: Store, c: Cursor, k: nat)
  {
    exists p :: PlaceAt(st, c, p, k)
  }

  ghost predicate ReadsNext(d: bytes, w: bytes, h: Handle, st: Store, c: Cursor, k: nat)
  {
    if k < |Visible(st)| then
      var r := ReadCursor(d, w, h, c);
      r.Batch? && r.entry == Visible(st)[k] && Positioned(st, r.after, k + 1)
    else k == |Visible(st)| && ReadCursor(d, w, h, c) == End
  }

  /** From a place in the WAL. */
  lemma {:induction false} NextFromWal(d: bytes, w: bytes, h: Handle, st: Store, c: Cursor, c': Cursor, j: nat)
    requires Readable(d, w, h, st) && CursorAt(st, c', InWal(j)) && ReadCursor(d, w, h, c) == ReadWal(w, h, c')
    ensures ReadsNext(d, w, h, st, c, Index(st, InWal(j)))
  {
    hide ReadWal, ReadCursor, Readable, CursorAt, Visible;
    assert PlaceOk(st, InWal(j)) by { PlaceOfCursor(st, c', InWal(j)); }
    VisibleAt(st, InWal(j));
    if j < |st.wal| {
      ReadsWal(d, w, h, st, c', j);
      var after := ReadWal(w, h, c').after;
      PlaceOfCursor(st, after, InWal(j + 1));
      assert PlaceAt(st, after, InWal(j + 1), Index(st, InWal(j)) + 1);
    } else {
      WalEnds(d, w, h, st, c', j);
    }
  }

  lemma {:induction false} PlaceOfCursor(st: Store, c: Cursor, p: Place)
    requires CursorAt(st, c, p)
    ensures PlaceOk(st, p)
  {
  }

  lemma {:induction false} NextFromSegment(d: bytes, w: bytes, h: Handle, st: Store, c: Cursor, c': Cursor, i: nat,
                                           j: nat)
    requires Readable(d, w, h, st) && CursorAt(st, c', InSegment(i, j))
    requires ReadCursor(d, w, h, c) == ReadInstalled(d, c')
    requires j < |st.segs[i].batches|
    ensures ReadsNext(d, w, h, st, c, Index(st, InSegment(i, j)))
  {
    hide ReadInstalled, ReadCursor, Readable, CursorAt, Visible;
    PlaceOfCursor(st, c', InSegment(i, j));
    VisibleAt(st, InSegment(i, j));
    ReadsSegment(d, w, h, st, c', i, j);
    var after := ReadInstalled(d, c').after;
    PlaceOfCursor(st, after, InSegment(i, j + 1));
    assert PlaceAt(st, after, InSegment(i, j + 1), Index(st, InSegment(i, j)) + 1);
  }

  /** Every segment has batches, so entering one always finds a first batch. */
  lemma {:induction false} NextAtBoundary(d: bytes, w: bytes, h: Handle, st: Store, c: Cursor, i: nat)
    requires Readable(d, w, h, st) && i <= |st.segs| && !c.inWal
    requires c.position == OffsetOf(DATA_START, st.segs, i)
    requires i < |st.segs| ==> c.position == c.segmentEnd && c.readSequence == SequenceAfter(st.segs, i) + 1
    ensures ReadsNext(d, w, h, st, c, Index(st, if i < |st.segs| then InSegment(i, 0) else InWal(0)))
  {
    hide ReadCursor, ReadInstalled, ReadWal, ReadsNext, CursorAt, SequenceAfter, Readable, ValidSegment,
      SegmentEntries;
    DataReadable(d, w, h, st);
    if i < |st.segs| {
      EntersSegment(d, w, h, st, c, i);
      var c' :| CursorAt(st, c', InSegment(i, 0)) && ReadCursor(d, w, h, c) == ReadInstalled(d, c');
      assert ValidSegment(st.segs[i]);
      NonEmptySegment(st.segs[i]);
      NextFromSegment(d, w, h, st, c, c', i, 0);
    } else {
      assert st.segs[..i] == st.segs;
      EntersWal(d, w, h, st, c);
      var c' :| CursorAt(st, c', InWal(0)) && ReadCursor(d, w, h, c) == ReadWal(w, h, c');
      NextFromWal(d, w, h, st, c, c', 0);
    }
  }

  lemma {:induction false} BoundarySequence(st: Store, i: nat)
    requires ValidStore(st) && i + 1 < |st.segs|
    ensures (LastOf(st.segs[i]) + 1) % TWO64 == SequenceAfter(st.segs, i + 1) + 1
  {
    assert FollowsAt(st.segs, i + 1, st.retained);
    assert ValidSegment(st.segs[i]) && ValidSegment(st.segs[i + 1]);
  }

  /** Main result for reads: at any place, `next` returns the next visible batch
      and moves by one, or END after the last. */
  lemma {:induction false} NextReads(d: bytes, w: bytes, h: Handle, st: Store, c: Cursor, p: Place)
    requires Readable(d, w, h, st) && CursorAt(st, c, p)
    ensures ReadsNext(d, w, h, st, c, Index(st, p))
  {
    hide ReadInstalled, ReadWal, ReadsNext, Reflects, Located, WalExact, ValidStore, BodyLength, SegmentEntries,
      ReadSegment;
    match p
    case AtStart =>
      assert st.segs[..0] == [];
      EmptyPrefix(st);
      NextAtBoundary(d, w, h, st, c, 0);
    case InWal(j) =>
      NextFromWal(d, w, h, st, c, c, j);
    case InSegment(i, j) =>
      var s := st.segs[i];
      OffsetIncreases(DATA_START, st.segs, i, i + 1);
      if j < |s.batches| {
        ReadsSegment(d, w, h, st, c, i, j);
        WithinData(d, w, h, st, c, i);
        NextFromSegment(d, w, h, st, c, c, i, j);
      } else {
        assert s.batches[..j] == s.batches;
        EndOfSegment(st, i);
        if i + 1 < |st.segs| {
          BoundarySequence(st, i);
        }
        NextAtBoundary(d, w, h, st, c, i + 1);
      }
  }

  lemma {:induction false} EmptyPrefix(st: Store)
    ensures OffsetOf(DATA_START, st.segs, 0) == DATA_START
    ensures Index(st, if 0 < |st.segs| then InSegment(0, 0) else InWal(0)) == 0
  {
    assert st.segs[..0] == [];
  }

  lemma {:induction false} WithinData(d: bytes, w: bytes, h: Handle, st: Store, c: Cursor, i: nat)
    requires Readable(d, w, h, st) && i < |st.segs|
    requires c.segmentEnd == OffsetOf(DATA_START, st.segs, i) + SegmentSize(st.segs[i])
    ensures c.segmentEnd <= h.dataEnd
  {
    OffsetIncreases(DATA_START, st.segs, i, |st.segs|);
    assert st.segs[..|st.segs|] == st.segs;
  }

  /** Draining from any place returns exactly the rest of the visible batches. */
  lemma {:induction false} DrainsRest(d: bytes, w: bytes, h: Handle, st: Store, c: Cursor, p: Place)
    requires Readable(d, w, h, st) && CursorAt(st, c, p)
    ensures Index(st, p) <= |Visible(st)|
    ensures Drains(d, w, h, c, Visible(st)[Index(st, p)..])
    decreases |Visible(st)| - Index(st, p)
  {
    hide ReadCursor, Readable, CursorAt, Visible, Index;
    PlaceOfCursor(st, c, p);
    VisibleAt(st, p);
    NextReads(d, w, h, st, c, p);
    var k := Index(st, p);
    if k < |Visible(st)| {
      var r := ReadCursor(d, w, h, c);
      var q :| PlaceAt(st, r.after, q, k + 1);
      DrainsRest(d, w, h, st, r.after, q);
      assert Visible(st)[k..][1..] == Visible(st)[k + 1..];
    }
  }

  lemma {:induction false} RewoundReadsAll(d: bytes, w: bytes, h: Handle, st: Store)
    requires Readable(d, w, h, st)
    ensures Drains(d, w, h, ResetCursor(), Visible(st))
  {
    DrainsRest(d, w, h, st, ResetCursor(), AtStart);
    assert Visible(st)[0..] == Visible(st);
  }

  /** What draining returns is determined by the bytes. */
  lemma {:induction false} DrainUnique(d: bytes, w: bytes, h: Handle, c: Cursor, a: seq<Entry>, b: seq<Entry>)
    requires Drains(d, w, h, c, a) && Drains(d, w, h, c, b)
    ensures a == b
    decreases |a|
  {
    hide ReadCursor;
    match ReadCursor(d, w, h, c)
    case Batch(e, after) =>
      DrainUnique(d, w, h, after, a[1..], b[1..]);
      assert a == [a[0]] + a[1..] && b == [b[0]] + b[1..];
    case _ =>
  }
}
