/** What open accepts, on every pair of images, in terms of the bytes alone; and the
    damage it therefore refuses. */
module Acceptance {
  import opened Bytes
  import opened Checksum
  import opened Frames
  import opened Segments
  import opened SkipLinks
  import opened ChainCheck
  import opened Manifests
  import opened Recovery
  import Layout
  import Relocation

  // --- the WAL -------------------------------------------------------------

  /** From offset on, w holds the frames of these batches, numbered after `sequence`;
      they end at `end`. */
  ghost predicate HoldsRun(w: bytes, offset: nat, sequence: nat, batches: seq<Batch>, end: nat)
    decreases |batches|
  {
    if batches == [] then end == offset
    else
      && Layout.HoldsFrame(w, offset, |w|, (sequence + 1) % TWO64, batches[0])
      && HoldsRun(w, offset + FrameLength(batches[0]), (sequence + 1) % TWO64, batches[1..], end)
  }

  /** A whole frame header, and less than the frame it announces. */
  ghost predicate CutFrame(w: bytes, offset: nat, sequence: nat)
  {
    exists count :: CutAfter(w, offset, sequence, count)
  }

  ghost predicate CutAfter(w: bytes, offset: nat, sequence: nat, count: nat)
  {
    && 1 <= count <= 64 && offset + 32 <= |w| < offset + 64 + 20 * count
    && w[offset..offset + 32] == Seal(HeadFields(sequence, count))
  }

  lemma {:induction false} IncompleteExact(w: bytes, offset: nat, sequence: nat)
    requires offset <= |w| && U64(sequence)
    ensures ReadFrame(w, offset, |w|, sequence) == Incomplete <==> CutFrame(w, offset, sequence)
  {
    hide Seal, HeadFields, CheckFrameHeader, Un, CheckCommit;
    if offset + 32 <= |w| {
      var h := w[offset..offset + 32];
      if CheckFrameHeader(h) && Un(h[8..16]) == sequence {
        Layout.HeadExact(h);
        assert ReadFrame(w, offset, |w|, sequence) == Incomplete ==> CutAfter(w, offset, sequence, Un(h[16..20])) by {
          CountRange(h);
        }
      }
      forall count | CutAfter(w, offset, sequence, count)
        ensures ReadFrame(w, offset, |w|, sequence) == Incomplete
      {
        HeadAccepted(sequence, count);
      }
    }
  }

  lemma {:induction false} CountRange(h: bytes)
    requires |h| == 32 && CheckFrameHeader(h)
    ensures 1 <= Un(h[16..20]) <= 64
  {
  }

  lemma {:induction false} NextModulo(s: nat, n: nat)
    ensures ((s + 1) % TWO64 + n) % TWO64 == (s + 1 + n) % TWO64
  {
  }

  lemma {:induction false} ScanStep(w: bytes, offset: nat, sequence: nat, times: seq<int>)
    requires offset < |w| && ReadFrame(w, offset, |w|, (sequence + 1) % TWO64).Complete?
    ensures var r := ReadFrame(w, offset, |w|, (sequence + 1) % TWO64);
            ScanFrames(w, offset, sequence, times)
              == ScanFrames(w, offset + |r.data|, (sequence + 1) % TWO64, times + BatchTimes(Records(r.data, r.count)))
  {
    hide ReadFrame, Records, BatchTimes;
  }

  lemma {:induction false} RunHead(w: bytes, offset: nat, sequence: nat, batches: seq<Batch>, end: nat)
    requires HoldsRun(w, offset, sequence, batches, end)
    ensures batches == [] ==> end == offset
    ensures batches != [] ==>
              && Layout.HoldsFrame(w, offset, |w|, (sequence + 1) % TWO64, batches[0]) && |batches[0]| >= 1
              && HoldsRun(w, offset + FrameLength(batches[0]), (sequence + 1) % TWO64, batches[1..], end)
  {
    hide Frame;
  }

  lemma {:induction false} RunGrows(w: bytes, offset: nat, sequence: nat, b: Batch, rest: seq<Batch>, end: nat)
    requires Layout.HoldsFrame(w, offset, |w|, (sequence + 1) % TWO64, b)
    requires HoldsRun(w, offset + FrameLength(b), (sequence + 1) % TWO64, rest, end)
    ensures HoldsRun(w, offset, sequence, [b] + rest, end)
  {
    hide Frame, Layout.HoldsFrame;
    assert ([b] + rest)[1..] == rest;
  }

  /** Scanning passes over a run of whole frames. */
  lemma {:induction false} ScanRun(w: bytes, offset: nat, sequence: nat, batches: seq<Batch>, end: nat, times: seq<int>)
    returns (met: seq<int>)
    requires HoldsRun(w, offset, sequence, batches, end) && U64(sequence) && offset <= |w|
    ensures ScanFrames(w, offset, sequence, times) == ScanFrames(w, end, (sequence + |batches|) % TWO64, met)
    ensures end <= |w| && offset + 84 * |batches| <= end
    decreases |batches|
  {
    hide ScanFrames, HoldsRun, ReadFrame, Records, Frame, BatchTimes, Layout.HoldsFrame;
    RunHead(w, offset, sequence, batches, end);
    if batches == [] {
      met := times;
    } else {
      var next := (sequence + 1) % TWO64;
      HeldLength(w, offset, |w|, next, batches[0]);
      Within(w, offset, |w|, next, batches[0]);
      ScanStep(w, offset, sequence, times);
      var r := ReadFrame(w, offset, |w|, next);
      met := ScanRun(w, offset + |r.data|, next, batches[1..], end, times + BatchTimes(Records(r.data, r.count)));
      NextModulo(sequence, |batches| - 1);
    }
  }

  /** What is scanned behind a run. */
  lemma {:induction false} ScanStop(w: bytes, offset: nat, sequence: nat, times: seq<int>)
    requires offset <= |w| && U64(sequence)
    ensures offset == |w| ==> ScanFrames(w, offset, sequence, times) == WalScan(offset, sequence, times, AtEnd)
    ensures offset < |w| && !ReadFrame(w, offset, |w|, (sequence + 1) % TWO64).Complete? ==>
              ScanFrames(w, offset, sequence, times)
                == WalScan(offset, sequence, times, if CutFrame(w, offset, (sequence + 1) % TWO64) then Cut else Bad)
    ensures CutFrame(w, offset, (sequence + 1) % TWO64) ==>
              offset < |w| && !ReadFrame(w, offset, |w|, (sequence + 1) % TWO64).Complete?
  {
    hide ReadFrame;
    IncompleteExact(w, offset, (sequence + 1) % TWO64);
  }

  /** Scanning stops behind such a run: at the end of the file, at a cut frame, or at
      bytes that are neither. */
  lemma {:induction false} ScanFinds(w: bytes, offset: nat, sequence: nat, times: seq<int>)
    returns (batches: seq<Batch>)
    requires offset <= |w| && U64(sequence)
    ensures var r := ScanFrames(w, offset, sequence, times);
            && HoldsRun(w, offset, sequence, batches, r.end)
            && r.sequence == (sequence + |batches|) % TWO64
            && (r.stop == AtEnd <==> r.end == |w|)
            && (r.stop == Cut <==> r.end != |w| && CutFrame(w, r.end, (r.sequence + 1) % TWO64))
    decreases |w| - offset
  {
    hide ScanFrames, HoldsRun, ReadFrame, Records, Frame, BatchTimes, CutFrame, Layout.HoldsFrame;
    var next := (sequence + 1) % TWO64;
    var r := ReadFrame(w, offset, |w|, next);
    ScanStop(w, offset, sequence, times);
    if offset < |w| && r.Complete? {
      Layout.FrameExact(w, offset, |w|, next);
      var b := Records(r.data, r.count);
      ScanStep(w, offset, sequence, times);
      HeldLength(w, offset, |w|, next, b);
      var rest := ScanFinds(w, offset + |r.data|, next, times + BatchTimes(b));
      batches := [b] + rest;
      RunGrows(w, offset, sequence, b, rest, ScanFrames(w, offset, sequence, times).end);
      NextModulo(sequence, |rest|);
    } else {
      batches := [];
      RunNone(w, offset, sequence);
    }
  }

  lemma {:induction false} RunNone(w: bytes, offset: nat, sequence: nat)
    ensures HoldsRun(w, offset, sequence, [], offset)
  {
  }

  /** A WAL open can use with a database that ends its installed batches at `last`.
      Either batches that follow, the last of them possibly cut behind its header; or
      a repetition of installed batches, whole and up to the last of them. When the
      database has bytes nobody accounts for, there must be batches that follow: they
      are the ones an interrupted checkpoint was installing. */
  ghost predicate WalAccepted(w: bytes, last: nat, accounted: bool)
  {
    && 32 <= |w| <= 67108864
    && ((exists batches, end :: Follows(w, last, batches, end) && (accounted || batches != []))
        || (exists batches :: Repeating(w, last, batches) && accounted))
  }

  ghost predicate Follows(w: bytes, last: nat, batches: seq<Batch>, end: nat)
  {
    && HoldsRun(w, 32, last, batches, end)
    && (end == |w| || CutFrame(w, end, (last + |batches| + 1) % TWO64))
  }

  ghost predicate Repeating(w: bytes, last: nat, batches: seq<Batch>)
  {
    1 <= |batches| <= last && HoldsRun(w, 32, last - |batches|, batches, |w|)
  }

  /** The first frame, whole or cut, carries the next sequence number. */
  lemma {:induction false} FirstNumber(w: bytes, sequence: nat, batches: seq<Batch>, end: nat)
    requires HoldsRun(w, 32, sequence, batches, end)
    requires batches != [] || CutFrame(w, 32, (sequence + 1) % TWO64)
    ensures |w| >= 64 && CheckFrameHeader(w[32..64]) && Un(w[32..64][8..16]) == (sequence + 1) % TWO64
  {
    hide CheckFrameHeader, Un, Frame, Seal, HeadFields, ValidRecord;
    var next := (sequence + 1) % TWO64;
    if batches != [] {
      FrameHeaderAccepted(w, 32, next, batches[0]);
    } else {
      var count :| CutAfter(w, 32, next, count);
      HeadAccepted(next, count);
    }
  }

  lemma {:induction false} NoRoom(w: bytes, sequence: nat, batches: seq<Batch>, end: nat)
    requires |w| == 32 && HoldsRun(w, 32, sequence, batches, end)
    ensures batches == [] && end == 32
  {
  }

  lemma {:induction false} Unwrapped(last: nat, n: nat)
    requires U64(last) && n < TWO64
    ensures (last + n) % TWO64 == last <==> n == 0
    ensures n <= last ==> last - n + 1 == (last - n + 1) % TWO64 || n == 0
  {
  }

  lemma {:induction false} FollowScanned(w: bytes, last: nat, batches: seq<Batch>, end: nat)
    requires 32 <= |w| <= WAL_CAPACITY && U64(last) && Follows(w, last, batches, end)
    ensures var r := ScanFrames(w, 32, last, []);
            r.stop != Bad && (batches != [] ==> r.sequence != last)
  {
    hide ScanFrames, HoldsRun, CutFrame, ReadFrame;
    var met := ScanRun(w, 32, last, batches, end, []);
    ScanStop(w, end, (last + |batches|) % TWO64, met);
    Wraps(last, |batches|);
    Unwrapped(last, |batches|);
  }

  lemma {:induction false} FollowFound(w: bytes, last: nat) returns (batches: seq<Batch>)
    requires 32 <= |w| && U64(last)
    ensures var r := ScanFrames(w, 32, last, []);
            r.stop != Bad ==> Follows(w, last, batches, r.end) && (r.sequence != last ==> batches != [])
  {
    hide ScanFrames, HoldsRun, CutFrame;
    batches := ScanFinds(w, 32, last, []);
    Wraps(last, |batches|);
    if batches == [] {
      assert ScanFrames(w, 32, last, []).sequence == last % TWO64 == last;
    }
  }

  /** The scan after the installed batches, when the WAL is not a repetition. */
  lemma {:induction false} FreshScan(w: bytes, last: nat)
    requires 32 <= |w| <= WAL_CAPACITY && U64(last)
    ensures var r := ScanFrames(w, 32, last, []);
            && (r.stop != Bad <==> exists batches, end :: Follows(w, last, batches, end))
            && (r.stop != Bad && r.sequence != last <==>
                  exists batches, end :: Follows(w, last, batches, end) && batches != [])
  {
    hide ScanFrames, Follows;
    var found := FollowFound(w, last);
    forall batches, end | Follows(w, last, batches, end)
      ensures ScanFrames(w, 32, last, []).stop != Bad
      ensures batches != [] ==> ScanFrames(w, 32, last, []).sequence != last
    {
      FollowScanned(w, last, batches, end);
    }
  }

  lemma {:induction false} Wraps(last: nat, n: nat)
    ensures ((last + n) % TWO64 + 1) % TWO64 == (last + n + 1) % TWO64
  {
  }

  lemma {:induction false} Unwraps(before: nat, last: nat, n: nat)
    requires before < last < TWO64 && n < TWO64 && (before + n) % TWO64 == last
    ensures n == last - before
  {
  }

  lemma {:induction false} StaleFound(w: bytes, last: nat, first: nat) returns (batches: seq<Batch>)
    requires 32 <= |w| <= WAL_CAPACITY && U64(last) && 1 <= first <= last
    ensures var r := ScanFrames(w, 32, first - 1, []);
            r.stop == AtEnd && r.sequence == last ==> Repeating(w, last, batches)
  {
    hide ScanFrames, HoldsRun, CutFrame;
    var r := ScanFrames(w, 32, first - 1, []);
    batches := ScanFinds(w, 32, first - 1, []);
    if r.stop == AtEnd && r.sequence == last {
      var met := ScanRun(w, 32, first - 1, batches, |w|, []);
      Unwraps(first - 1, last, |batches|);
    }
  }

  lemma {:induction false} StaleScanned(w: bytes, last: nat, first: nat, batches: seq<Batch>)
    requires 32 <= |w| && U64(last) && 1 <= first <= last && ReadFirst(w, last) == Stale(first)
    requires Repeating(w, last, batches)
    ensures ScanFrames(w, 32, first - 1, []).stop == AtEnd && ScanFrames(w, 32, first - 1, []).sequence == last
  {
    hide ScanFrames, HoldsRun, CutFrame, CheckFrameHeader, Un, ReadFrame;
    FirstNumber(w, last - |batches|, batches, |w|);
    assert last - |batches| == first - 1;
    var met := ScanRun(w, 32, first - 1, batches, |w|, []);
    assert first - 1 + |batches| == last && last % TWO64 == last;
    ScanStop(w, |w|, last, met);
  }

  /** The scan of a WAL whose first frame is installed already. */
  lemma {:induction false} StaleScan(w: bytes, last: nat, first: nat)
    requires 32 <= |w| <= WAL_CAPACITY && U64(last) && 1 <= first <= last && ReadFirst(w, last) == Stale(first)
    ensures var r := ScanFrames(w, 32, first - 1, []);
            r.stop == AtEnd && r.sequence == last <==> exists batches :: Repeating(w, last, batches)
  {
    hide ScanFrames, Repeating, ReadFirst;
    var found := StaleFound(w, last, first);
    forall batches | Repeating(w, last, batches)
      ensures ScanFrames(w, 32, first - 1, []).stop == AtEnd && ScanFrames(w, 32, first - 1, []).sequence == last
    {
      StaleScanned(w, last, first, batches);
    }
  }

  /** The first frame decides between the two readings, and never wrongly. */
  lemma {:induction false} FirstDecides(w: bytes, last: nat)
    requires 32 <= |w| && U64(last)
    ensures match ReadFirst(w, last)
            case NoFrame => Follows(w, last, [], 32) && (forall batches :: !Repeating(w, last, batches))
            case Fresh => forall batches :: !Repeating(w, last, batches)
            case Stale(first) => 1 <= first <= last && (forall batches, end :: !Follows(w, last, batches, end))
            case BadFrame =>
              && (forall batches :: !Repeating(w, last, batches))
              && (forall batches, end :: !Follows(w, last, batches, end))
  {
    hide HoldsRun, CutFrame, CheckFrameHeader, Un;
    RunNone(w, 32, last);
    forall batches | Repeating(w, last, batches)
      ensures ReadFirst(w, last).Stale?
    {
      FirstNumber(w, last - |batches|, batches, |w|);
    }
    forall batches, end | Follows(w, last, batches, end)
      ensures ReadFirst(w, last).NoFrame? || ReadFirst(w, last).Fresh?
    {
      if |w| > 32 {
        if batches == [] {
          RunHead(w, 32, last, batches, end);
        }
        FirstNumber(w, last, batches, end);
      }
    }
  }

  /** Bytes past the installed data are accounted for without the WAL. */
  predicate NoOrphans(size: nat, end: nat, phase: nat, emptyRetained: bool)
  {
    size <= end || phase != 0 || (emptyRetained && size == 161)
  }

  lemma {:induction false} DecidesExactly(size: nat, s: Selection, c: Claim, chain: ChainInfo, w: bytes)
    requires U64(c.last)
    ensures var phase := if s.Chosen? then PhaseOf(s.m) else 0;
            DecideWal(size, s, c, chain, w).Some? <==>
              WalAccepted(w, c.last, NoOrphans(size, c.end, phase, c.enabled && c.generation == 0))
  {
    hide ScanFrames, Follows, Repeating, ReadFirst;
    if 32 <= |w| <= WAL_CAPACITY {
      FirstDecides(w, c.last);
      FreshScan(w, c.last);
      match ReadFirst(w, c.last)
      case Stale(first) => StaleScan(w, c.last, first);
      case _ =>
    }
  }

  // --- the manifest --------------------------------------------------------

  /** The slot that belongs to m's revision holds m. */
  ghost predicate InSlot(d: bytes, m: Manifest)
  {
    var start := 32 + 64 * (RevisionOf(m) % 2);
    start + 64 <= |d| && Layout.SlotSound(m, |d|) && d[start..start + 64] == ManifestBytes(m)
  }

  lemma {:induction false} SlotExactly(d: bytes, m: Manifest)
    ensures InSlot(d, m) <==> SlotAt(d, RevisionOf(m) % 2) == Some(m)
  {
    hide ParseSlot, Un, ManifestBytes;
    var index := RevisionOf(m) % 2;
    if SlotStart(index) + 64 <= |d| {
      Layout.SlotExact(SlotBytes(d, index), |d|, m);
      if Layout.SlotSound(m, |d|) && m.time >= 0 {
        Layout.GoodIsSound(m, |d|);
        ManifestRoundTrip(m, |d|);
      }
    }
  }

  lemma {:induction false} SlotsExactly(d: bytes)
    ensures forall m :: InSlot(d, m) <==> SlotAt(d, RevisionOf(m) % 2) == Some(m)
  {
    hide InSlot, SlotAt;
    forall m
      ensures InSlot(d, m) <==> SlotAt(d, RevisionOf(m) % 2) == Some(m)
    {
      SlotExactly(d, m);
    }
  }

  /** Open goes by the manifest with the highest revision among the slots that hold
      one. */
  lemma {:induction false} ChosenExactly(d: bytes, m: Manifest)
    ensures Select(d) == Chosen(m) <==>
              |d| != 32 && InSlot(d, m) && forall o :: InSlot(d, o) ==> RevisionOf(o) <= RevisionOf(m)
  {
    hide InSlot, SlotAt;
    SlotsExactly(d);
    var a, b := SlotAt(d, 0), SlotAt(d, 1);
    assert a.Some? ==> InSlot(d, a.value);
    assert b.Some? ==> InSlot(d, b.value);
  }

  /** Without one it takes a file of at most 160 bytes for an empty database. */
  lemma {:induction false} UnusableExactly(d: bytes)
    ensures Select(d) == Legacy <==> |d| == 32
    ensures Select(d) == Unusable <==> |d| > 160 && forall m :: !InSlot(d, m)
  {
    hide InSlot, SlotAt;
    SlotsExactly(d);
    var a, b := SlotAt(d, 0), SlotAt(d, 1);
    assert a.Some? ==> InSlot(d, a.value);
    assert b.Some? ==> InSlot(d, b.value);
  }

  // --- the chain -----------------------------------------------------------

  /** Headers and where they lie. */
  datatype Headers = Headers(infos: seq<SegmentInfo>, offs: seq<nat>)

  ghost predicate Paired(h: Headers) { |h.infos| == |h.offs| }

  /** Where the n-th header must lie, counted from 0. */
  ghost function OffsetAt(root: nat, h: Headers, n: nat): nat
    requires Paired(h) && n <= |h.infos|
  {
    if n == 0 then root else h.offs[n - 1] + h.infos[n - 1].headerSize + h.infos[n - 1].body
  }

  ghost function NumberAt(h: Headers, n: nat): nat
    requires n <= |h.infos|
  {
    if n == 0 then 0 else h.infos[n - 1].last
  }

  /** The n-th header, counted from 0: sound fields, right behind the one before, numbered
      after it, and linked to its neighbour and to its skip target if it has links. */
  ghost predicate HeaderOk(d: bytes, end: nat, enabled: bool, root: nat, h: Headers, n: nat)
    requires Paired(h) && n < |h.infos|
  {
    var i, o := h.infos[n], h.offs[n];
    && Layout.HeaderSound(i, o, end) && (exists kind :: Layout.HoldsHeader(d, o, kind, i))
    && o == OffsetAt(root, h, n)
    && i.first > NumberAt(h, n) && (!enabled ==> i.first == NumberAt(h, n) + 1)
    && (i.headerSize == 64 ==> i.previous == Ordinal(h.offs, n) && i.skip == Ordinal(h.offs, n + 1 - LowBit(n + 1)))
  }

  ghost predicate HeadersOk(d: bytes, end: nat, enabled: bool, root: nat, h: Headers)
  {
    Paired(h) && forall n :: 0 <= n < |h.infos| ==> HeaderOk(d, end, enabled, root, h, n)
  }

  function Grown(h: Headers, i: SegmentInfo, o: nat): Headers { Headers(h.infos + [i], h.offs + [o]) }

  /** Later headers do not matter to a header. */
  lemma {:induction false} HeaderLocal(d: bytes, end: nat, enabled: bool, root: nat, h: Headers, i: SegmentInfo,
                                       o: nat, n: nat)
    requires Paired(h) && n < |h.infos|
    ensures HeaderOk(d, end, enabled, root, Grown(h, i, o), n) <==> HeaderOk(d, end, enabled, root, h, n)
  {
    hide Layout.HeaderSound, Layout.HoldsHeader, LowBit;
    LowBitRange(n + 1);
  }

  lemma {:induction false} LowBitRange(n: nat)
    requires n > 0
    ensures 1 <= LowBit(n) <= n
  {
  }

  lemma {:induction false} HeadersSplit(d: bytes, end: nat, enabled: bool, root: nat, h: Headers, i: SegmentInfo,
                                        o: nat)
    requires Paired(h)
    ensures HeadersOk(d, end, enabled, root, Grown(h, i, o)) <==>
              HeadersOk(d, end, enabled, root, h) && HeaderOk(d, end, enabled, root, Grown(h, i, o), |h.infos|)
  {
    hide HeaderOk;
    forall n | 0 <= n < |h.infos|
      ensures HeaderOk(d, end, enabled, root, Grown(h, i, o), n) <==> HeaderOk(d, end, enabled, root, h, n)
    {
      HeaderLocal(d, end, enabled, root, h, i, o, n);
    }
  }

  /** The walk has passed exactly these headers. */
  ghost predicate Passed(w: WalkState, root: nat, h: Headers)
  {
    && Paired(h)
    && w.offset == OffsetAt(root, h, |h.infos|)
    && w.previous == Ordinal(h.offs, |h.infos|)
    && w.sequence == NumberAt(h, |h.infos|)
    && TableOfLinks(w.table, [0] + h.offs, |h.infos|)
    && (h.infos != [] ==> w.final == Some(h.infos[|h.infos| - 1]))
  }

  lemma {:induction false} TableLinks(w: WalkState, offs: seq<nat>)
    requires TableOfLinks(w.table, [0] + offs, |offs|) && |offs| + 1 < Pow2(TABLE_SIZE)
    ensures 1 <= LowBit(|offs| + 1) <= |offs| + 1 && BitOf(|offs| + 1) < TABLE_SIZE
    ensures w.table[BitOf(|offs| + 1)] == Ordinal(offs, |offs| + 1 - LowBit(|offs| + 1))
    ensures TableOfLinks(Record24(w.table, BitOf(|offs| + 1), w.offset), [0] + (offs + [w.offset]), |offs| + 1)
  {
    hide Pow2, BitOf, LowBit, TableOfLinks, Record24;
    var n := |offs|;
    LowBitRange(n + 1);
    TableIndex(n + 1);
    var links := [0] + (offs + [w.offset]);
    TableExtends(w.table, [0] + offs, w.offset, n);
    assert [0] + offs + [w.offset] == links;
    LinksKept(w.table, links, n);
    LinkIsOrdinal(offs, w.offset, n + 1 - LowBit(n + 1));
  }

  /** What the walk demands of the next header. */
  ghost predicate StepTaken(d: bytes, end: nat, enabled: bool, w: WalkState, n: nat, i: SegmentInfo, o: nat)
    requires n > 0 && |w.table| == TABLE_SIZE && BitOf(n) < TABLE_SIZE
  {
    o == w.offset && ReadSegment(d, o, end) == Some(i) && WalkStep(d, end, enabled, n, w).Some?
  }

  /** One step of the walk succeeds exactly on a header that is in order. */
  lemma {:induction false} StepExactly(d: bytes, end: nat, enabled: bool, root: nat, h: Headers, w: WalkState,
                                       i: SegmentInfo, o: nat)
    requires Passed(w, root, h) && |h.infos| + 1 < Pow2(TABLE_SIZE)
    ensures BitOf(|h.infos| + 1) < TABLE_SIZE
    ensures HeaderOk(d, end, enabled, root, Grown(h, i, o), |h.infos|) <==>
              StepTaken(d, end, enabled, w, |h.infos| + 1, i, o)
  {
    hide ReadSegment, Layout.HeaderSound, Layout.HoldsHeader, Pow2, BitOf, LowBit, TableOfLinks, Record24, Advance;
    var n := |h.infos|;
    TableLinks(w, h.offs);
    Layout.HeaderExact(d, o, end, i);
    LinkIsOrdinal(h.offs, o, n + 1 - LowBit(n + 1));
    LinkIsOrdinal(h.offs, o, n);
    NumberBound(d, end, i, o);
    assert OffsetAt(root, Grown(h, i, o), n) == w.offset;
    assert NumberAt(Grown(h, i, o), n) == w.sequence;
  }

  lemma {:induction false} StepPasses(d: bytes, end: nat, enabled: bool, root: nat, h: Headers, w: WalkState,
                                      i: SegmentInfo, o: nat)
    requires Passed(w, root, h) && |h.infos| + 1 < Pow2(TABLE_SIZE) && BitOf(|h.infos| + 1) < TABLE_SIZE
    requires StepTaken(d, end, enabled, w, |h.infos| + 1, i, o)
    ensures Passed(WalkStep(d, end, enabled, |h.infos| + 1, w).value, root, Grown(h, i, o))
  {
    hide ReadSegment, Pow2, BitOf, LowBit, TableOfLinks, Record24;
    TableLinks(w, h.offs);
  }

  lemma {:induction false} LinkIsOrdinal(offs: seq<nat>, next: nat, k: nat)
    requires k <= |offs|
    ensures ([0] + (offs + [next]))[k] == Ordinal(offs, k) == Ordinal(offs + [next], k)
  {
  }

  lemma {:induction false} NumberBound(d: bytes, end: nat, i: SegmentInfo, o: nat)
    ensures ReadSegment(d, o, end) == Some(i) ==> U64(i.first)
  {
    hide ReadSegment, Layout.HeaderSound;
    Layout.HeaderExact(d, o, end, i);
  }

  lemma {:induction false} PassedNone(root: nat)
    ensures Passed(WalkStart(root), root, Headers([], []))
  {
    EmptyTable(root);
    assert [0] + [] == [0];
  }

  /** A walk that succeeds has passed headers that are all in order. */
  lemma {:induction false} WalkFinds(d: bytes, end: nat, enabled: bool, root: nat, n: nat) returns (h: Headers)
    requires n < Pow2(TABLE_SIZE) && Walk(d, end, enabled, root, n).Some?
    ensures |h.infos| == n && HeadersOk(d, end, enabled, root, h)
    ensures Passed(Walk(d, end, enabled, root, n).value, root, h)
  {
    hide Pow2, BitOf, HeaderOk, Passed, WalkStep, ReadSegment;
    if n == 0 {
      h := Headers([], []);
      PassedNone(root);
    } else {
      WalkFails(d, end, enabled, root, n - 1, n);
      var before := WalkFinds(d, end, enabled, root, n - 1);
      var w := Walk(d, end, enabled, root, n - 1).value;
      TableIndex(n);
      StepReads(d, end, enabled, n, w);
      var i := ReadSegment(d, w.offset, end).value;
      h := Grown(before, i, w.offset);
      StepExactly(d, end, enabled, root, before, w, i, w.offset);
      StepPasses(d, end, enabled, root, before, w, i, w.offset);
      HeadersSplit(d, end, enabled, root, before, i, w.offset);
    }
  }

  lemma {:induction false} StepReads(d: bytes, end: nat, enabled: bool, n: nat, w: WalkState)
    requires n > 0 && |w.table| == TABLE_SIZE && BitOf(n) < TABLE_SIZE && WalkStep(d, end, enabled, n, w).Some?
    ensures ReadSegment(d, w.offset, end).Some?
  {
  }

  /** Over headers that are all in order the walk succeeds. */
  lemma {:induction false} WalkFollows(d: bytes, end: nat, enabled: bool, root: nat, h: Headers)
    requires HeadersOk(d, end, enabled, root, h) && |h.infos| < Pow2(TABLE_SIZE)
    ensures var r := Walk(d, end, enabled, root, |h.infos|);
            r.Some? && Passed(r.value, root, h)
    decreases |h.infos|
  {
    hide Pow2, BitOf, HeaderOk, Passed, WalkStep, ReadSegment;
    var n := |h.infos|;
    if n == 0 {
      PassedNone(root);
      assert h == Headers([], []);
    } else {
      var before, i, o := Headers(h.infos[..n - 1], h.offs[..n - 1]), h.infos[n - 1], h.offs[n - 1];
      assert h == Grown(before, i, o);
      HeadersSplit(d, end, enabled, root, before, i, o);
      WalkFollows(d, end, enabled, root, before);
      var w := Walk(d, end, enabled, root, n - 1).value;
      TableIndex(n);
      StepExactly(d, end, enabled, root, before, w, i, o);
      StepPasses(d, end, enabled, root, before, w, i, o);
    }
  }

  lemma {:induction false} SlicedFrame(d: bytes, offset: nat, end: nat, sequence: nat, b: Batch)
    requires end <= |d|
    ensures Layout.HoldsFrame(d[..end], offset, end, sequence, b) <==> Layout.HoldsFrame(d, offset, end, sequence, b)
  {
    hide Frame, ValidBatch;
    if offset + FrameLength(b) <= end {
      assert d[..end][offset..offset + FrameLength(b)] == d[offset..offset + FrameLength(b)];
    }
  }

  /** Reading frame after frame up to `end`. */
  lemma {:induction false} RunFinds(d: bytes, frame: nat, end: nat, sequence: nat, time: int)
    returns (batches: seq<Batch>)
    requires frame <= end <= |d| && U64(sequence)
    ensures var run := RunOfFrames(d, frame, end, (sequence + 1) % TWO64, time);
            run.whole ==> HoldsRun(d[..end], frame, sequence, batches, end) && |batches| == run.count
    decreases end - frame
  {
    hide ReadFrame, Records, Layout.HoldsFrame;
    batches := [];
    if frame < end {
      var next := (sequence + 1) % TWO64;
      Layout.FrameExact(d, frame, end, next);
      var r := ReadFrame(d, frame, end, next);
      if r.Complete? {
        var b := Records(r.data, r.count);
        HeldLength(d, frame, end, next, b);
        var rest := RunFinds(d, frame + |r.data|, end, next, LastTimeOf(b));
        batches := [b] + rest;
        assert batches[1..] == rest;
        SlicedFrame(d, frame, end, next, b);
      }
    }
  }

  lemma {:induction false} HeldLength(d: bytes, frame: nat, end: nat, sequence: nat, b: Batch)
    requires frame <= end && U64(sequence) && Layout.HoldsFrame(d, frame, end, sequence, b)
    ensures var r := ReadFrame(d, frame, end, sequence); r.Complete? && |r.data| == FrameLength(b) && b != []
  {
    FrameRoundTrip(d, frame, end, sequence, b);
  }

  lemma {:induction false} RunFollows(d: bytes, frame: nat, end: nat, sequence: nat, batches: seq<Batch>, time: int)
    requires frame <= end <= |d| && U64(sequence) && HoldsRun(d[..end], frame, sequence, batches, end)
    ensures var run := RunOfFrames(d, frame, end, (sequence + 1) % TWO64, time);
            run.whole && run.count == |batches|
    decreases |batches|
  {
    hide ReadFrame, Records, Layout.HoldsFrame;
    if batches != [] {
      var next := (sequence + 1) % TWO64;
      SlicedFrame(d, frame, end, next, batches[0]);
      HeldLength(d, frame, end, next, batches[0]);
      Within(d, frame, end, next, batches[0]);
      var r := ReadFrame(d, frame, end, next);
      RunFollows(d, frame + |r.data|, end, next, batches[1..], LastTimeOf(Records(r.data, r.count)));
    }
  }

  lemma {:induction false} Within(d: bytes, frame: nat, end: nat, sequence: nat, b: Batch)
    requires Layout.HoldsFrame(d, frame, end, sequence, b)
    ensures frame + FrameLength(b) <= end && frame < end
  {
  }

  /** Whole frames fill the file from `frame` to `end`. */
  ghost predicate FramesFill(d: bytes, frame: nat, end: nat, sequence: nat)
  {
    end <= |d| && exists batches :: HoldsRun(d[..end], frame, sequence, batches, end)
  }

  /** This many of them. */
  ghost predicate FramesFillWith(d: bytes, frame: nat, end: nat, sequence: nat, count: int)
  {
    end <= |d| && exists batches :: HoldsRun(d[..end], frame, sequence, batches, end) && |batches| == count
  }

  lemma {:induction false} FillExactly(d: bytes, frame: nat, end: nat, sequence: nat, time: int)
    requires frame <= end <= |d| && U64(sequence)
    ensures var run := RunOfFrames(d, frame, end, (sequence + 1) % TWO64, time);
            && (run.whole <==> FramesFill(d, frame, end, sequence))
            && forall count :: run.whole && run.count == count <==> FramesFillWith(d, frame, end, sequence, count)
  {
    hide RunOfFrames, HoldsRun;
    var found := RunFinds(d, frame, end, sequence, time);
    forall batches | HoldsRun(d[..end], frame, sequence, batches, end)
      ensures RunOfFrames(d, frame, end, (sequence + 1) % TWO64, time).count == |batches|
    {
      RunFollows(d, frame, end, sequence, batches, time);
    }
    if FramesFill(d, frame, end, sequence) {
      var batches :| HoldsRun(d[..end], frame, sequence, batches, end);
      RunFollows(d, frame, end, sequence, batches, time);
    }
  }

  /** The claim about time fits the last header; where no header or manifest tells the
      last time, the frames of the last segment must all be readable. */
  ghost predicate TimeOk(d: bytes, c: Claim, i: SegmentInfo, o: nat)
  {
    if i.ordered && !c.enabled then c.timed ==> c.time == i.highest
    else c.timed || (i.first >= 1 && FramesFill(d, o + i.headerSize, c.end, i.first - 1))
  }

  /** The chain a claim describes: as many headers as it says, all in order, ending where
      and with the number it says. */
  ghost predicate ChainHolds(d: bytes, c: Claim, h: Headers)
  {
    && HeadersOk(d, c.end, c.enabled, c.root, h)
    && |h.infos| == c.generation
    && OffsetAt(c.root, h, c.generation) == c.end
    && NumberAt(h, c.generation) <= c.last && (!c.enabled ==> NumberAt(h, c.generation) == c.last)
    && (c.timed ==> c.tail == Ordinal(h.offs, c.generation))
    && (c.generation > 0 ==> TimeOk(d, c, h.infos[c.generation - 1], h.offs[c.generation - 1]))
  }

  lemma {:induction false} ConcludesExactly(d: bytes, c: Claim, w: WalkState, h: Headers)
    requires Passed(w, c.root, h) && |h.infos| == c.generation && HeadersOk(d, c.end, c.enabled, c.root, h)
    requires c.generation != 0 ==> w.final.Some? && c.end <= |d|
    ensures Conclude(d, c, w).Some? <==> ChainHolds(d, c, h)
    ensures Conclude(d, c, w).Some? ==> Conclude(d, c, w).value.tail == Ordinal(h.offs, c.generation)
  {
    hide HeaderOk, RunOfFrames, FramesFill, TableOfLinks;
    if c.generation > 0 && w.offset == c.end {
      var i, o := h.infos[c.generation - 1], h.offs[c.generation - 1];
      HeaderNumbers(d, c.end, c.enabled, c.root, h, c.generation - 1);
      FillExactly(d, o + i.headerSize, c.end, i.first - 1, c.time);
    }
  }

  lemma {:induction false} HeaderNumbers(d: bytes, end: nat, enabled: bool, root: nat, h: Headers, n: nat)
    requires HeadersOk(d, end, enabled, root, h) && n < |h.infos|
    ensures U64(h.infos[n].first) && h.infos[n].first >= 1 && (h.infos[n].first - 1 + 1) % TWO64 == h.infos[n].first
  {
    hide HeaderOk;
    assert HeaderOk(d, end, enabled, root, h, n);
    HeaderNumber(d, end, enabled, root, h, n);
  }

  lemma {:induction false} HeaderNumber(d: bytes, end: nat, enabled: bool, root: nat, h: Headers, n: nat)
    requires Paired(h) && n < |h.infos| && HeaderOk(d, end, enabled, root, h, n)
    ensures U64(h.infos[n].first) && h.infos[n].first >= 1
  {
    hide LowBit, Seal, Ordinal, LongFields, ShortFields;
  }

  /** `check_segments` accepts exactly the chains that are as claimed. */
  lemma {:induction false} ChecksExactly(d: bytes, c: Claim)
    requires c.generation < Pow2(TABLE_SIZE) && (c.generation != 0 ==> c.end <= |d|)
    ensures CheckChain(d, c).Some? <==> exists h :: ChainHolds(d, c, h)
  {
    hide Pow2, Walk, Conclude, HeadersOk, Passed, TimeOk;
    var r := Walk(d, c.end, c.enabled, c.root, c.generation);
    if r.Some? {
      var h := WalkFinds(d, c.end, c.enabled, c.root, c.generation);
      ConcludesExactly(d, c, r.value, h);
    }
    forall h | ChainHolds(d, c, h)
      ensures CheckChain(d, c).Some?
    {
      WalkFollows(d, c.end, c.enabled, c.root, h);
      ConcludesExactly(d, c, r.value, h);
    }
  }

  /** The newest manifest, the chain it describes and the WAL fit together, with every
      byte of the database accounted for. */
  ghost predicate Acceptable(d: bytes, w: bytes)
  {
    var s := Select(d);
    && !s.Unusable?
    && var c := SelectedClaim(s);
       var phase := if s.Chosen? then PhaseOf(s.m) else 0;
       && (exists h :: ChainHolds(d, c, h))
       && WalAccepted(w, c.last, NoOrphans(|d|, c.end, phase, c.enabled && c.generation == 0))
  }

  /** Open decides for exactly those pairs. */
  lemma {:induction false} OpensExactly(d: bytes, w: bytes)
    ensures Recover(d, w).Some? <==> Acceptable(d, w)
  {
    hide Select, CheckChain, DecideWal, ChainHolds, WalAccepted, Pow2;
    if !Select(d).Unusable? {
      var s, c := Select(d), SelectedClaim(Select(d));
      RecoverSplits(d, w);
      ClaimBounds(d);
      ChecksExactly(d, c);
      if CheckChain(d, c).Some? {
        DecidesExactly(|d|, s, c, CheckChain(d, c).value, w);
      }
    }
  }

  lemma {:induction false} ClaimBounds(d: bytes)
    requires !Select(d).Unusable?
    ensures var c := SelectedClaim(Select(d)); U64(c.last) && (c.generation != 0 ==> c.end <= |d|)
  {
    hide SlotAt, Select;
    if Select(d).Chosen? {
      ChosenExactly(d, Select(d).m);
    }
  }

  /** Bytes past the installed data without a batch to account for them are refused:
      with an empty WAL, or one that only repeats installed batches. */
  lemma {:induction false} OrphanRefused(d: bytes, w: bytes, m: Manifest)
    requires Select(d) == Chosen(m) && PhaseOf(m) == 0 && |d| > m.end && !(m.Retain? && m.count == 0 && |d| == 161)
    requires |w| == 32 || exists batches :: Repeating(w, m.last, batches)
    ensures Recover(d, w) == None
  {
    hide Select, ChainHolds, Recover, HoldsRun, CutFrame;
    OpensExactly(d, w);
    if 32 <= |w| <= 67108864 {
      ClaimBounds(d);
      FirstDecides(w, m.last);
      forall batches, end | Follows(w, m.last, batches, end)
        ensures batches == []
      {
        NoRoom(w, m.last, batches, end);
      }
    }
  }

  /** Nothing but the first 160 bytes and the size matters to the choice. */
  lemma {:induction false} SelectLocal(d: bytes, x: bytes)
    requires |x| == |d| >= 160 && x[..160] == d[..160]
    ensures Select(x) == Select(d)
  {
    hide ParseSlot, Un;
    forall i | 0 <= i < 2
      ensures SlotBytes(x, i) == SlotBytes(d, i)
    {
      SubSlice(x, 0, 160, SlotStart(i), SlotStart(i) + 64);
      SubSlice(d, 0, 160, SlotStart(i), SlotStart(i) + 64);
    }
  }

  // --- finishing a retention -----------------------------------------------

  /** From offset to end: headers with sound fields, each followed by the frames it
      announces. */
  ghost predicate Filled(d: bytes, offset: nat, end: nat, infos: seq<SegmentInfo>)
    decreases |infos|
  {
    if infos == [] then offset == end
    else
      var i := infos[0];
      && Layout.HeaderSound(i, offset, end) && (exists kind :: Layout.HoldsHeader(d, offset, kind, i))
      && FramesFillWith(d, offset + i.headerSize, offset + i.headerSize + i.body, i.first - 1, i.last - i.first + 1)
      && Filled(d, offset + i.headerSize + i.body, end, infos[1..])
  }

  lemma {:induction false} FramesExactly(d: bytes, base: nat, i: SegmentInfo, offset: nat, end: nat)
    requires ReadSegment(d, offset, end) == Some(i) && end <= |d| && base == offset + i.headerSize
    ensures Relocation.FramesReadable(d, base, i.body, i.first, i.last) <==>
              FramesFillWith(d, base, base + i.body, i.first - 1, i.last - i.first + 1)
  {
    hide RunOfFrames, ReadSegment, FramesFillWith;
    NumberBound(d, end, i, offset);
    FillExactly(d, base, base + i.body, i.first - 1, 0);
  }

  /** The chain a retention copies is readable exactly when it is filled so. */
  lemma {:induction false} ReadableExactly(d: bytes, offset: nat, end: nat)
    requires offset <= end <= |d|
    ensures Relocation.ChainReadable(d, offset, end) <==> exists infos :: Filled(d, offset, end, infos)
    decreases end - offset
  {
    hide ReadSegment, FramesFillWith, Relocation.FramesReadable, Layout.HeaderSound, Layout.HoldsHeader;
    var r := ReadSegment(d, offset, end);
    if offset == end {
      assert Filled(d, offset, end, []);
    } else {
      if r.Some? {
        var i := r.value;
        Layout.HeaderExact(d, offset, end, i);
        FramesExactly(d, offset + i.headerSize, i, offset, end);
        ReadableExactly(d, offset + i.headerSize + i.body, end);
        if Relocation.ChainReadable(d, offset, end) {
          var rest :| Filled(d, offset + i.headerSize + i.body, end, rest);
          assert ([i] + rest)[1..] == rest;
          assert Filled(d, offset, end, [i] + rest);
        }
      }
      forall infos | Filled(d, offset, end, infos)
        ensures Relocation.ChainReadable(d, offset, end)
      {
        var i := infos[0];
        Layout.HeaderExact(d, offset, end, i);
        assert Filled(d, offset + i.headerSize + i.body, end, infos[1..]);
      }
    }
  }
}
