/** Seek, range reads and aggregation, each against a plain scan of the visible batches. */
module Queries {
  import opened Bytes
  import opened Frames
  import opened Segments
  import opened SkipLinks
  import opened ChainCheck
  import opened Recovery
  import opened Stores
  import opened Calls
  import opened Cursors

  // --- sequences along the visible batches ---------------------------------

  /** The sequence number a place expects next, before reduction modulo 2^64. */
  ghost function NextSequenceAt(st: Store, p: Place): nat
    requires PlaceOk(st, p)
  {
    match p
    case AtStart => 1
    case InSegment(i, j) => st.segs[i].first + j
    case InWal(j) => st.installed + 1 + j
  }

  ghost predicate Rising(entries: seq<Entry>)
  {
    forall i, j :: 0 <= i < j < |entries| ==> entries[i].sequence < entries[j].sequence
  }

  ghost predicate Below(entries: seq<Entry>, bound: nat)
  {
    forall i :: 0 <= i < |entries| ==> entries[i].sequence < bound
  }

  ghost predicate AtLeast(entries: seq<Entry>, bound: nat)
  {
    forall i :: 0 <= i < |entries| ==> entries[i].sequence >= bound
  }

  lemma {:induction false} RisingConcat(a: seq<Entry>, b: seq<Entry>, bound: nat)
    requires Rising(a) && Rising(b) && Below(a, bound) && AtLeast(b, bound)
    ensures Rising(a + b)
  {
  }

  lemma {:induction false} SegmentsRising(segs: seq<Segment>, gaps: bool, n: nat)
    requires ValidSegments(segs) && Sequenced(segs, gaps) && n <= |segs|
    ensures Rising(SegmentEntries(segs[..n])) && Below(SegmentEntries(segs[..n]), SequenceAfter(segs, n) + 1)
    ensures AtLeast(SegmentEntries(segs[..n]), 1)
  {
    hide ValidSegment, Entries, Rising, Below, AtLeast, Sequenced, SegmentEntries;
    if n > 0 {
      SegmentsRising(segs, gaps, n - 1);
      FollowsIn(segs, gaps, n - 1);
      assert ValidSegment(segs[n - 1]);
      NonEmptySegment(segs[n - 1]);
      CountBound(segs, gaps, n - 1);
      EntriesPrefix(segs, n - 1);
      var a, s := SegmentEntries(segs[..n - 1]), segs[n - 1];
      EntriesRise(s.first, s.batches);
      Joined(a, Entries(s.first, s.batches), SequenceAfter(segs, n - 1) + 1, s.first, s.first + |s.batches|);
    } else {
      assert segs[..0] == [];
      Nothing();
    }
  }

  lemma {:induction false} FollowsIn(segs: seq<Segment>, gaps: bool, i: nat)
    requires Sequenced(segs, gaps) && i < |segs|
    ensures FollowsAt(segs, i, gaps)
  {
  }

  lemma {:induction false} Nothing()
    ensures SegmentEntries([]) == [] && Rising([]) && Below([], 1) && AtLeast([], 1)
  {
  }

  lemma {:induction false} EntriesRise(first: nat, batches: seq<Batch>)
    ensures var e := Entries(first, batches); Rising(e) && Below(e, first + |batches|) && AtLeast(e, first)
  {
  }

  lemma {:induction false} Joined(a: seq<Entry>, b: seq<Entry>, x: nat, y: nat, z: nat)
    requires Rising(a) && Below(a, x) && AtLeast(a, 1) && 1 <= x <= y <= z && Rising(b) && AtLeast(b, y) && Below(b, z)
    ensures Rising(a + b) && Below(a + b, z) && AtLeast(a + b, 1)
  {
  }

  /** Visible batches come in strictly increasing sequence, each once. */
  lemma {:induction false} VisibleRising(st: Store)
    requires ValidStore(st)
    ensures Rising(Visible(st)) && AtLeast(Visible(st), 1)
  {
    hide ValidSegment, SegmentEntries;
    SegmentsRising(st.segs, st.retained, |st.segs|);
    assert st.segs[..|st.segs|] == st.segs;
    RisingConcat(SegmentEntries(st.segs), Entries(st.installed + 1, st.wal), st.installed + 1);
  }

  /** A place separates smaller sequences from those it expects. */
  lemma {:induction false} PlaceSplits(st: Store, p: Place)
    requires ValidStore(st) && PlaceOk(st, p)
    ensures Index(st, p) <= |Visible(st)|
    ensures Below(Visible(st)[..Index(st, p)], NextSequenceAt(st, p))
    ensures AtLeast(Visible(st)[Index(st, p)..], NextSequenceAt(st, p))
    ensures NextSequenceAt(st, p) <= TWO64
  {
    hide ValidSegment, ValidData;
    VisibleAt(st, p);
    VisibleRising(st);
    StoreSequenced(st);
    var v, k := Visible(st), Index(st, p);
    match p
    case AtStart =>
    case InWal(j) =>
      SegmentsRising(st.segs, st.retained, |st.segs|);
      assert st.segs[..|st.segs|] == st.segs;
      WalSplits(st, j);
    case InSegment(i, j) =>
      assert ValidSegment(st.segs[i]);
      SegmentSplits(st, i, j);
  }

  lemma {:induction false} WalSplits(st: Store, j: nat)
    requires ValidStore(st) && j <= |st.wal| && Rising(Visible(st))
    ensures var v, k := Visible(st), Index(st, InWal(j));
            k <= |v| && Below(v[..k], st.installed + 1 + j) && AtLeast(v[k..], st.installed + 1 + j)
    ensures st.installed + 1 + j <= TWO64
  {
    hide ValidSegment, SegmentEntries, Sequenced;
    var v, n := Visible(st), |SegmentEntries(st.segs)|;
    StoreSequenced(st);
    SegmentsRising(st.segs, st.retained, |st.segs|);
    assert st.segs[..|st.segs|] == st.segs;
    assert forall i :: 0 <= i < n ==> v[i] == SegmentEntries(st.segs)[i];
    assert forall i :: n <= i < |v| ==> v[i] == Entry(st.installed + 1 + (i - n), st.wal[i - n]);
  }

  /** Where the batches of segment n lie among the visible ones. */
  lemma {:induction false} SegmentSlice(st: Store, i: nat)
    requires i < |st.segs|
    ensures var lo, s, v := |SegmentEntries(st.segs[..i])|, st.segs[i], Visible(st);
            && |SegmentEntries(st.segs[..i + 1])| == lo + |s.batches| <= |v|
            && (forall x :: lo <= x < lo + |s.batches| ==> v[x] == Entry(s.first + (x - lo), s.batches[x - lo]))
            && (forall x :: 0 <= x < lo ==> v[x] == SegmentEntries(st.segs[..i])[x])
  {
    hide SegmentEntries;
    EntriesPrefix(st.segs, i);
    EntriesPrefix(st.segs, i + 1);
    var lo, s, v := |SegmentEntries(st.segs[..i])|, st.segs[i], Visible(st);
    var upTo, own := SegmentEntries(st.segs[..i + 1]), Entries(s.first, s.batches);
    assert v[..|upTo|] == SegmentEntries(st.segs)[..|upTo|] == upTo;
    assert forall x :: 0 <= x < |upTo| ==> v[x] == v[..|upTo|][x];
    assert forall x :: lo <= x < lo + |s.batches| ==> upTo[x] == own[x - lo];
  }

  lemma {:induction false} SegmentSplits(st: Store, i: nat, j: nat)
    requires ValidStore(st) && i < |st.segs| && j <= |st.segs[i].batches| && Rising(Visible(st))
    ensures var v, k := Visible(st), Index(st, InSegment(i, j));
            k <= |v| && Below(v[..k], st.segs[i].first + j) && AtLeast(v[k..], st.segs[i].first + j)
    ensures st.segs[i].first + j <= TWO64
  {
    hide ValidBatches, BodyLength, Sorted, Times, Visible, SegmentEntries, ValidStore;
    var v, s := Visible(st), st.segs[i];
    StoreSequenced(st);
    assert ValidSegment(s);
    SegmentSlice(st, i);
    var lo := |SegmentEntries(st.segs[..i])|;
    var k := lo + j;
    if j > 0 {
      assert v[k - 1].sequence == s.first + j - 1;
    } else {
      SegmentsRising(st.segs, st.retained, i);
      assert FollowsAt(st.segs, i, st.retained);
    }
    if j < |s.batches| {
      assert v[k].sequence == s.first + j;
    } else if k < |v| {
      AfterSegment(st, i);
    }
  }

  lemma {:induction false} AfterSegment(st: Store, i: nat)
    requires ValidStore(st) && i < |st.segs|
    ensures var k := |SegmentEntries(st.segs[..i + 1])|;
            k < |Visible(st)| ==> Visible(st)[k].sequence >= LastOf(st.segs[i]) + 1
  {
    hide ValidBatches, BodyLength, Sorted, Times;
    StoreSequenced(st);
    EndOfSegment(st, i);
    EntriesPrefix(st.segs, i);
    if i + 1 < |st.segs| {
      assert FollowsAt(st.segs, i + 1, st.retained);
      assert ValidSegment(st.segs[i + 1]);
      VisibleAt(st, InSegment(i + 1, 0));
    } else {
      assert st.segs[..i + 1] == st.segs;
      VisibleAt(st, InWal(0));
    }
  }

  // --- times along the visible batches -------------------------------------

  /** No record of b is earlier than any record of a. */
  ghost predicate NotBefore(a: Batch, b: Batch)
  {
    forall x, y :: 0 <= x < |a| && 0 <= y < |b| ==> a[x].time <= b[y].time
  }

  ghost predicate WithinTimes(b: Batch, lowest: int, highest: int)
  {
    forall x :: 0 <= x < |b| ==> lowest <= b[x].time <= highest
  }

  lemma {:induction false} TimeAt(batches: seq<Batch>, j: nat, x: nat) returns (n: nat)
    requires j < |batches| && x < |batches[j]|
    ensures n < |Times(batches)| && Times(batches)[n] == batches[j][x].time
    ensures |Times(batches[..j])| <= n < |Times(batches[..j + 1])| <= |Times(batches)|
    decreases |batches|
  {
    var front := batches[..|batches| - 1];
    if j < |front| {
      n := TimeAt(front, j, x);
      assert front[..j + 1] == batches[..j + 1] && front[..j] == batches[..j];
    } else {
      n := |Times(front)| + x;
      assert batches[..j] == front && batches[..j + 1] == batches;
    }
  }

  lemma {:induction false} TimesPrefix(batches: seq<Batch>, j: nat)
    requires j <= |batches|
    ensures |Times(batches[..j])| <= |Times(batches)|
    ensures Times(batches)[..|Times(batches[..j])|] == Times(batches[..j])
    decreases |batches| - j
  {
    if j < |batches| {
      assert batches[..j + 1][..j] == batches[..j];
      TimesPrefix(batches, j + 1);
    } else {
      assert batches[..j] == batches;
    }
  }

  /** Sorted times mean later batches are not before earlier ones. */
  lemma {:induction false} SortedBatches(batches: seq<Batch>, i: nat, j: nat)
    requires Sorted(Times(batches)) && i < j < |batches|
    ensures NotBefore(batches[i], batches[j])
  {
    forall x, y | 0 <= x < |batches[i]| && 0 <= y < |batches[j]|
      ensures batches[i][x].time <= batches[j][y].time
    {
      var m := TimeAt(batches, i, x);
      var n := TimeAt(batches, j, y);
      assert batches[..j][..i + 1] == batches[..i + 1];
      TimesPrefix(batches[..j], i + 1);
    }
  }

  lemma {:induction false} WithinSegment(s: Segment, j: nat)
    requires ValidSegment(s) && j < |s.batches|
    ensures WithinTimes(s.batches[j], Lowest(s), Highest(s))
  {
    forall x | 0 <= x < |s.batches[j]|
      ensures Lowest(s) <= s.batches[j][x].time <= Highest(s)
    {
      var n := TimeAt(s.batches, j, x);
      Extremes(Times(s.batches));
    }
  }

  lemma {:induction false} SpansRise(segs: seq<Segment>, k: nat, i: nat, j: nat)
    requires ValidSegments(segs) && 1 <= k && OrderedFrom(segs, k) && k <= i + 1 && i < j < |segs|
    ensures Highest(segs[i]) <= Lowest(segs[j]) && Highest(segs[i]) <= Highest(segs[j])
    decreases j
  {
    hide Lowest, Highest, ValidSegment;
    assert TouchesAt(segs, j);
    LowestAtMost(segs[j]);
    if i < j - 1 {
      SpansRise(segs, k, i, j - 1);
    }
  }

  lemma {:induction false} LowestAtMost(s: Segment)
    requires ValidSegment(s)
    ensures Lowest(s) <= Highest(s)
  {
  }

  // --- seek ----------------------------------------------------------------

  /** k is the first index whose batch ends at or after `from`, or the end. */
  ghost predicate FirstReaching(entries: seq<Entry>, from: int, k: nat)
  {
    && k <= |entries|
    && (forall i :: 0 <= i < k ==> !Reaches(entries[i], from))
    && (k < |entries| ==> Reaches(entries[k], from))
  }

  predicate Reaches(e: Entry, from: int)
  {
    e.batch != [] && LastTimeOf(e.batch) >= from
  }

  datatype Outcome = Found | EndOfData | BadData

  /** `seek_frames`: the first qualifying batch up to sequence `limit`. */
  method SeekFrames(d: bytes, w: bytes, h: Handle, start: Cursor, from: int, limit: nat, ghost st: Store, ghost k: nat)
    returns (r: Outcome, c: Cursor, ghost n: nat)
    requires Readable(d, w, h, st) && Positioned(st, start, k) && U64(limit)
    ensures r != BadData
    ensures k <= n <= |Visible(st)|
    ensures forall i :: k <= i < n ==> !Reaches(Visible(st)[i], from)
    ensures r == Found ==> Positioned(st, c, n) && n < |Visible(st)| && Reaches(Visible(st)[n], from)
    ensures r == EndOfData ==> forall i :: n <= i < |Visible(st)| ==> Visible(st)[i].sequence > limit
  {
    hide ReadCursor, Readable, Visible, CursorAt, Reaches;
    c, n := start, k;
    PositionWithin(d, w, h, st, c, n);
    while c.readSequence <= limit
      invariant k <= n <= |Visible(st)| && Positioned(st, c, n)
      invariant forall i :: k <= i < n ==> !Reaches(Visible(st)[i], from)
      decreases |Visible(st)| - n
    {
      ReadAt(d, w, h, st, c, n);
      match ReadCursor(d, w, h, c)
      case Invalid =>
        r := BadData;
        return;
      case End =>
        r := EndOfData;
        return;
      case Batch(e, after) =>
        ReachesLast(st, n, from);
        if LastTimeOf(e.batch) >= from {
          r := Found;
          return;
        }
        c, n := after, n + 1;
    }
    PositionWithin(d, w, h, st, c, n);
    PastLimit(d, w, h, st, c, n, limit);
    r := EndOfData;
  }

  lemma {:induction false} ReachesLast(st: Store, n: nat, from: int)
    requires ValidStore(st) && n < |Visible(st)|
    ensures Visible(st)[n].batch != []
    ensures Reaches(Visible(st)[n], from) <==> LastTimeOf(Visible(st)[n].batch) >= from
  {
    VisibleValid(st, n);
  }

  lemma {:induction false} SegmentEntriesValid(segs: seq<Segment>, i: nat)
    requires ValidSegments(segs) && i < |SegmentEntries(segs)|
    ensures ValidBatch(SegmentEntries(segs)[i].batch)
  {
    hide ValidBatch, Times, Sorted, BodyLength;
    if segs != [] {
      var front, s := segs[..|segs| - 1], segs[|segs| - 1];
      assert ValidSegment(s);
      if i < |SegmentEntries(front)| {
        SegmentEntriesValid(front, i);
      }
    }
  }

  lemma {:induction false} VisibleValid(st: Store, i: nat)
    requires ValidStore(st) && i < |Visible(st)|
    ensures ValidBatch(Visible(st)[i].batch)
  {
    hide ValidBatch, Times, Sorted, BodyLength;
    if i < |SegmentEntries(st.segs)| {
      SegmentEntriesValid(st.segs, i);
    }
  }

  lemma {:induction false} PositionWithin(d: bytes, w: bytes, h: Handle, st: Store, c: Cursor, k: nat)
    requires Readable(d, w, h, st) && Positioned(st, c, k)
    ensures ValidStore(st) && k <= |Visible(st)|
  {
    var p :| PlaceAt(st, c, p, k);
    VisibleAt(st, p);
  }

  lemma {:induction false} ReadAt(d: bytes, w: bytes, h: Handle, st: Store, c: Cursor, k: nat)
    requires Readable(d, w, h, st) && Positioned(st, c, k)
    ensures ReadsNext(d, w, h, st, c, k) && ValidStore(st) && k <= |Visible(st)|
  {
    hide ReadsNext;
    var p :| PlaceAt(st, c, p, k);
    PositionWithin(d, w, h, st, c, k);
    NextReads(d, w, h, st, c, p);
  }

  lemma {:induction false} PastLimit(d: bytes, w: bytes, h: Handle, st: Store, c: Cursor, k: nat, limit: nat)
    requires Readable(d, w, h, st) && Positioned(st, c, k) && c.readSequence > limit
    ensures forall i :: k <= i < |Visible(st)| ==> Visible(st)[i].sequence > limit
  {
    hide Readable, Visible;
    PositionWithin(d, w, h, st, c, k);
    var p :| PlaceAt(st, c, p, k);
    PlaceSplits(st, p);
    ExpectedSequence(st, c, p);
    assert forall i :: k <= i < |Visible(st)| ==> Visible(st)[i] == Visible(st)[k..][i - k];
  }

  lemma {:induction false} ExpectedSequence(st: Store, c: Cursor, p: Place)
    requires CursorAt(st, c, p)
    ensures c.readSequence <= NextSequenceAt(st, p)
    ensures c.readSequence == NextSequenceAt(st, p) % TWO64
  {
  }

  /** The unordered prefix cannot be excluded by a search: it is scanned. */
  method SeekPrefix(d: bytes, w: bytes, h: Handle, from: int, ghost st: Store)
    returns (r: Outcome, c: Cursor, ghost k: nat)
    requires Readable(d, w, h, st)
    ensures 1 <= h.spanStart <= |st.segs| + 1
    ensures r != BadData
    ensures r == Found ==> FirstReaching(Visible(st), from, k) && Positioned(st, c, k) && k < |Visible(st)|
    ensures r == EndOfData ==> NoneReach(st, from, h.spanStart - 1)
  {
    hide Readable, Visible, Reaches, FirstReaching, ReadSegment, Positioned, SegmentIndex, NoneReach, Installed,
      OffsetOf, InfoAt, ValidStore, SpanStart, ChainLength, BodyLength, HeaderSize;
    var offset: nat, n := DATA_START, 1;
    SeekSetup(d, w, h, st);
    r, c, k := EndOfData, ResetCursor(), 0;
    NoneAtFirst(st, from);
    while n < h.spanStart
      invariant 1 <= n <= h.spanStart <= |st.segs| + 1
      invariant offset == OffsetOf(DATA_START, st.segs, n - 1)
      invariant NoneReach(st, from, n - 1)
      invariant r == EndOfData
    {
      SegmentPlace(d, w, h, st, n);
      var i := ReadSegment(d, offset, h.dataEnd).value;
      var start := Cursor(offset + i.headerSize, offset + i.headerSize + i.body, false, i.first);
      r, c, k := SeekFrames(d, w, h, start, from, i.last, st, SegmentIndex(st, n - 1));
      if r == Found {
        FoundFirst(st, from, n - 1, k);
        return;
      }
      PrefixExtends(st, from, n, k, i.last);
      offset := offset + i.headerSize + i.body;
      n := n + 1;
    }
  }

  lemma {:induction false} NoneAtFirst(st: Store, from: int)
    ensures NoneReach(st, from, 0)
  {
    assert st.segs[..0] == [];
  }

  /** `timelite_batches_seek`: the first batch, in sequence order, whose last
      record time reaches `from`; END when there is none. */
  method Seek(d: bytes, w: bytes, h: Handle, from: int, ghost st: Store)
    returns (r: Outcome, c: Cursor, ghost k: nat)
    requires Readable(d, w, h, st)
    ensures r != BadData
    ensures FirstReaching(Visible(st), from, k) && Positioned(st, c, k)
    ensures r == Found <==> k < |Visible(st)|
  {
    hide Readable, Visible, Reaches, FirstReaching, ReadSegment, Positioned, SegmentIndex, NoneReach, Installed,
      OffsetOf, InfoAt, ValidStore, SpanStart, ChainLength, BodyLength, HeaderSize, LookupCost, AllLinked, Indexed,
      Offsets, LinkTo;
    SeekSetup(d, w, h, st);
    r, c, k := SeekPrefix(d, w, h, from, st);
    if r == Found {
      return;
    }
    var low := SearchSpans(d, w, h, from, st);
    if low <= h.generation {
      SegmentPlace(d, w, h, st, low);
      LookupIn(d, h.dataEnd, h.generation, h.lastSegment, st.segs, low);
      var at, _ := SegmentAt(d, h.dataEnd, h.generation, h.lastSegment, low, Offsets(st.segs));
      var (o, i) := at.value;
      r, c, k := SeekFrames(d, w, h, Cursor(o + i.headerSize, o + i.headerSize + i.body, false, i.first),
                            from, h.sequence, st, SegmentIndex(st, low - 1));
    } else {
      WalPlace(d, w, h, st);
      r, c, k := SeekFrames(d, w, h, Cursor(32, DATA_START, true, (h.installed + 1) % TWO64), from, h.sequence, st,
                            SegmentIndex(st, |st.segs|));
    }
    if r == EndOfData {
      LimitIsEnd(d, w, h, st, k);
      c := Cursor(h.end, c.segmentEnd, true, (h.sequence + 1) % TWO64);
      EndPlace(d, w, h, st, c);
    }
    FoundFirst(st, from, low - 1, k);
  }

  ghost function SegmentIndex(st: Store, n: nat): nat
    requires n <= |st.segs|
  {
    |SegmentEntries(st.segs[..n])|
  }

  /** None of the batches of the first n segments reaches `from`. */
  ghost predicate NoneReach(st: Store, from: int, n: nat)
    requires n <= |st.segs|
  {
    forall i :: 0 <= i < SegmentIndex(st, n) && i < |Visible(st)| ==> !Reaches(Visible(st)[i], from)
  }

  lemma {:induction false} SeekSetup(d: bytes, w: bytes, h: Handle, st: Store)
    requires Readable(d, w, h, st)
    ensures h.spanStart <= |st.segs| + 1 && 1 <= h.spanStart && ValidSegments(st.segs) && ValidStore(st)
    ensures OffsetOf(DATA_START, st.segs, 0) == DATA_START && SegmentIndex(st, 0) == 0
    ensures h.generation == |st.segs| && h.spanStart == SpanStart(st.segs) && U64(h.sequence)
    ensures h.dataEnd == DATA_START + ChainLength(st.segs)
    ensures Installed(d, h.dataEnd, h.generation, h.lastSegment, st.segs)
  {
    assert st.segs[..0] == [];
    DataEndBound(st);
  }

  /** Reading the header of segment n, and the cursor placed behind it. */
  lemma {:induction false} SegmentPlace(d: bytes, w: bytes, h: Handle, st: Store, n: nat)
    requires Readable(d, w, h, st) && 1 <= n <= |st.segs|
    ensures var o, s := OffsetOf(DATA_START, st.segs, n - 1), st.segs[n - 1];
            var i := InfoAt(DATA_START, st.segs, n - 1);
            && ReadSegment(d, o, h.dataEnd) == Some(i)
            && i.headerSize == HeaderSize(s) && i.body == BodyLength(s.batches)
            && i.first == s.first && i.last == LastOf(s) && U64(i.last)
            && o + i.headerSize + i.body == OffsetOf(DATA_START, st.segs, n)
            && Positioned(st, Cursor(o + i.headerSize, o + i.headerSize + i.body, false, i.first),
                          SegmentIndex(st, n - 1))
            && (s.kind != Plain ==> i.highest == Highest(s))
  {
    hide ReadSegment, Located, WalExact, ChainLength, BodyLength, Times, Summary, LowBit, LinkTo, Lowest, Highest,
      SegmentEntries;
    DataEndBound(st);
    ReadChain(d, DATA_START, st.segs, n - 1);
    OffsetIncreases(DATA_START, st.segs, n - 1, n);
    var o, s := OffsetOf(DATA_START, st.segs, n - 1), st.segs[n - 1];
    assert ValidSegment(s);
    NoFrames(s.batches);
    SmallSequence(s);
    var c := Cursor(o + HeaderSize(s), o + SegmentSize(s), false, s.first);
    assert PlaceAt(st, c, InSegment(n - 1, 0), SegmentIndex(st, n - 1));
  }

  lemma {:induction false} WalPlace(d: bytes, w: bytes, h: Handle, st: Store)
    requires Readable(d, w, h, st)
    ensures Positioned(st, Cursor(32, DATA_START, true, (h.installed + 1) % TWO64), SegmentIndex(st, |st.segs|))
  {
    hide SegmentEntries, BodyLength, Located, WalExact;
    NoFrames(st.wal);
    assert st.segs[..|st.segs|] == st.segs;
    assert PlaceAt(st, Cursor(32, DATA_START, true, (h.installed + 1) % TWO64), InWal(0), SegmentIndex(st, |st.segs|));
  }

  lemma {:induction false} EndPlace(d: bytes, w: bytes, h: Handle, st: Store, c: Cursor)
    requires Readable(d, w, h, st) && c.inWal && c.position == h.end && c.readSequence == (h.sequence + 1) % TWO64
    ensures Positioned(st, c, |Visible(st)|)
  {
    hide SegmentEntries, BodyLength, Located, WalExact;
    assert st.wal[..|st.wal|] == st.wal;
    assert PlaceAt(st, c, InWal(|st.wal|), |Visible(st)|);
  }

  lemma {:induction false} FoundFirst(st: Store, from: int, n: nat, k: nat)
    requires n <= |st.segs| && NoneReach(st, from, n) && SegmentIndex(st, n) <= k <= |Visible(st)|
    requires forall i :: SegmentIndex(st, n) <= i < k ==> !Reaches(Visible(st)[i], from)
    requires k < |Visible(st)| ==> Reaches(Visible(st)[k], from)
    ensures FirstReaching(Visible(st), from, k)
  {
    hide Reaches, Visible;
  }

  /** No batch of segment n reached: the prefix without matches grows by it. */
  lemma {:induction false} PrefixExtends(st: Store, from: int, n: nat, k: nat, limit: nat)
    requires ValidStore(st) && 1 <= n <= |st.segs| && NoneReach(st, from, n - 1) && limit == LastOf(st.segs[n - 1])
    requires SegmentIndex(st, n - 1) <= k <= |Visible(st)|
    requires forall i :: SegmentIndex(st, n - 1) <= i < k ==> !Reaches(Visible(st)[i], from)
    requires forall i :: k <= i < |Visible(st)| ==> Visible(st)[i].sequence > limit
    ensures NoneReach(st, from, n)
  {
    hide Reaches, Visible, SegmentEntries;
    SegmentSlice(st, n - 1);
    var lo, end := SegmentIndex(st, n - 1), SegmentIndex(st, n);
    forall x | lo <= x < end
      ensures !Reaches(Visible(st)[x], from)
    {
      assert Visible(st)[x].sequence <= limit;
    }
  }

  lemma {:induction false} LimitIsEnd(d: bytes, w: bytes, h: Handle, st: Store, k: nat)
    requires Readable(d, w, h, st) && k <= |Visible(st)|
    requires forall i :: k <= i < |Visible(st)| ==> Visible(st)[i].sequence > h.sequence
    ensures k == |Visible(st)|
  {
    hide Visible, SegmentEntries, Located, WalExact;
    var first := if k < |Visible(st)| then Visible(st)[k] else Entry(0, []);
    LastVisible(st);
  }

  lemma {:induction false} LastVisible(st: Store)
    requires ValidStore(st)
    ensures Below(Visible(st), st.installed + |st.wal| + 1)
  {
    hide ValidSegment, SegmentEntries, Entries, Rising, AtLeast;
    StoreSequenced(st);
    SegmentsRising(st.segs, st.retained, |st.segs|);
    EntriesRise(st.installed + 1, st.wal);
    assert st.segs[..|st.segs|] == st.segs;
  }

  /** The binary search over the ordered suffix. */
  method SearchSpans(d: bytes, w: bytes, h: Handle, from: int, ghost st: Store) returns (low: nat)
    requires Readable(d, w, h, st) && NoneReach(st, from, h.spanStart - 1)
    requires 1 <= h.spanStart <= |st.segs| + 1 && h.generation == |st.segs|
    ensures 1 <= low <= |st.segs| + 1
    ensures NoneReach(st, from, low - 1)
  {
    hide Readable, NoneReach, ReadSegment, Highest, SegmentIndex, Positioned, Installed, OffsetOf, InfoAt, LookupCost,
      AllLinked, Indexed, Offsets, LinkTo, ValidSegment, SpanStart, ChainLength, BodyLength;
    SeekSetup(d, w, h, st);
    low := h.spanStart;
    var high := h.generation + 1;
    SpanStartIsLeast(st.segs, h.spanStart);
    while low < high
      invariant h.spanStart <= low <= high <= |st.segs| + 1
      invariant h.spanStart < low ==> Highest(st.segs[low - 2]) < from
    {
      var middle := low + (high - low) / 2;
      LookupIn(d, h.dataEnd, h.generation, h.lastSegment, st.segs, middle);
      var at, _ := SegmentAt(d, h.dataEnd, h.generation, h.lastSegment, middle, Offsets(st.segs));
      SegmentPlace(d, w, h, st, middle);
      assert st.segs[middle - 1].kind == Span;
      if at.value.1.highest < from {
        low := middle + 1;
      } else {
        high := middle;
      }
    }
    SpansBelow(d, w, h, from, st, low);
  }

  lemma {:induction false} SpansBelow(d: bytes, w: bytes, h: Handle, from: int, st: Store, low: nat)
    requires Readable(d, w, h, st) && 1 <= h.spanStart <= low <= |st.segs| + 1
    requires NoneReach(st, from, h.spanStart - 1) && ValidSegments(st.segs) && OrderedFrom(st.segs, h.spanStart)
    requires h.spanStart < low ==> Highest(st.segs[low - 2]) < from
    ensures NoneReach(st, from, low - 1)
    decreases low
  {
    hide Readable, Reaches, OrderedFrom;
    if h.spanStart < low {
      if h.spanStart < low - 1 {
        SpansRise(st.segs, h.spanStart, low - 3, low - 2);
      }
      SpansBelow(d, w, h, from, st, low - 1);
      SpanBelow(st, from, low - 1);
    }
  }

  lemma {:induction false} SpanBelow(st: Store, from: int, n: nat)
    requires ValidSegments(st.segs) && 1 <= n <= |st.segs| && NoneReach(st, from, n - 1)
    requires Highest(st.segs[n - 1]) < from
    ensures NoneReach(st, from, n)
  {
    hide Highest, Lowest, Visible, SegmentEntries;
    var s := st.segs[n - 1];
    SegmentSlice(st, n - 1);
    var lo, end := SegmentIndex(st, n - 1), SegmentIndex(st, n);
    forall x | lo <= x < end
      ensures !Reaches(Visible(st)[x], from)
    {
      WithinSegment(s, x - lo);
    }
  }
}
