/** Installed segments and the chain they form in the database file. */
module Segments {
  import opened Bytes
  import opened Checksum
  import opened Frames

  const DATA_START: nat := 160
  const SEGMENT_MIN: nat := 116
  const WAL_CAPACITY: nat := 67108864
  const DATABASE_CAPACITY: nat := 1073741824

  datatype Option<+T> = None | Some(value: T)

  /** TLSPAN07 (ordered), TLUNOR07 (unordered) and the older TLSEGMNT, whose
      32-byte header has neither a time span nor links. */
  datatype Kind = Span | Unordered | Plain

  datatype Segment = Segment(kind: Kind, first: nat, batches: seq<Batch>)

  const SPAN_MAGIC: bytes := [84, 76, 83, 80, 65, 78, 48, 55]
  const UNORDERED_MAGIC: bytes := [84, 76, 85, 78, 79, 82, 48, 55]
  const PLAIN_MAGIC: bytes := [84, 76, 83, 69, 71, 77, 78, 84]

  // --- runs of consecutive frames ------------------------------------------

  function BodyLength(batches: seq<Batch>): nat
  {
    if batches == [] then 0 else BodyLength(batches[..|batches| - 1]) + FrameLength(batches[|batches| - 1])
  }

  predicate ValidBatches(batches: seq<Batch>)
  {
    forall j :: 0 <= j < |batches| ==> ValidBatch(batches[j])
  }

  function FrameParts(first: nat, batches: seq<Batch>): (parts: seq<bytes>)
    requires ValidBatches(batches)
    ensures |parts| == |batches|
  {
    seq(|batches|, j requires 0 <= j < |batches| => Frame(first + j, batches[j]))
  }

  function BodyBytes(first: nat, batches: seq<Batch>): bytes
    requires ValidBatches(batches)
  {
    Concat(FrameParts(first, batches))
  }

  lemma {:induction false} BodyTotal(first: nat, batches: seq<Batch>)
    requires ValidBatches(batches)
    ensures Total(FrameParts(first, batches)) == BodyLength(batches) == |BodyBytes(first, batches)|
  {
    if batches != [] {
      var front := batches[..|batches| - 1];
      BodyTotal(first, front);
      assert FrameParts(first, batches)[..|front|] == FrameParts(first, front);
    }
  }

  lemma {:induction false} BodyLengthPrefix(batches: seq<Batch>, j: nat)
    requires j <= |batches|
    ensures BodyLength(batches[..j]) <= BodyLength(batches)
    ensures j < |batches| ==>
              BodyLength(batches[..j + 1]) == BodyLength(batches[..j]) + FrameLength(batches[j]) <= BodyLength(batches)
    decreases |batches| - j
  {
    if j < |batches| {
      assert batches[..j + 1][..j] == batches[..j];
      BodyLengthPrefix(batches, j + 1);
    } else {
      assert batches[..j] == batches;
    }
  }

  lemma {:induction false} BodySnoc(first: nat, batches: seq<Batch>, b: Batch)
    requires ValidBatches(batches) && ValidBatch(b)
    ensures ValidBatches(batches + [b])
    ensures BodyBytes(first, batches + [b]) == BodyBytes(first, batches) + Frame(first + |batches|, b)
    ensures BodyLength(batches + [b]) == BodyLength(batches) + FrameLength(b)
  {
    hide Frame, FrameLength;
    var all := batches + [b];
    assert all[..|batches|] == batches;
    assert FrameParts(first, all)[..|batches|] == FrameParts(first, batches);
  }

  /** The bytes of `d` from `base` are exactly these frames. */
  predicate FramesAt(d: bytes, base: nat, first: nat, batches: seq<Batch>)
    requires ValidBatches(batches)
  {
    && base + BodyLength(batches) <= |d|
    && d[base..base + BodyLength(batches)] == BodyBytes(first, batches)
  }

  lemma {:induction false} FrameAt(d: bytes, base: nat, first: nat, batches: seq<Batch>, j: nat)
    requires ValidBatches(batches) && FramesAt(d, base, first, batches) && j < |batches|
    ensures var o := base + BodyLength(batches[..j]);
            && o + FrameLength(batches[j]) <= base + BodyLength(batches)
            && o + FrameLength(batches[j]) == base + BodyLength(batches[..j + 1])
            && d[o..o + FrameLength(batches[j])] == Frame(first + j, batches[j])
  {
    hide Frame, Total, Concat, BodyLength, FrameLength, ValidBatch;
    var parts := FrameParts(first, batches);
    BodyTotal(first, batches);
    BodyTotal(first, batches[..j]);
    assert parts[..j] == FrameParts(first, batches[..j]);
    ConcatPart(parts, j);
    BodyLengthPrefix(batches, j);
    var o := BodyLength(batches[..j]);
    SubSlice(d, base, base + BodyLength(batches), o, o + FrameLength(batches[j]));
  }

  /** Reading the j-th of a run of frames. */
  lemma {:induction false} ReadFrameAt(d: bytes, base: nat, first: nat, batches: seq<Batch>, j: nat, end: nat)
    requires ValidBatches(batches) && FramesAt(d, base, first, batches) && j < |batches|
    requires U64(first + j) && base + BodyLength(batches) <= end
    ensures base + BodyLength(batches[..j]) <= end
    ensures ReadFrame(d, base + BodyLength(batches[..j]), end, first + j)
         == Complete(Frame(first + j, batches[j]), |batches[j]|)
    ensures Records(Frame(first + j, batches[j]), |batches[j]|) == batches[j]
  {
    hide ReadFrame, BodyLength, Frame, Records, ValidBatch, FrameLength;
    FrameAt(d, base, first, batches, j);
    FrameRoundTrip(d, base + BodyLength(batches[..j]), end, first + j, batches[j]);
  }

  lemma {:induction false} BodyLengthBounds(batches: seq<Batch>)
    requires ValidBatches(batches)
    ensures 84 * |batches| <= BodyLength(batches) <= BATCH_SCRATCH * |batches|
  {
    if batches != [] {
      BodyLengthBounds(batches[..|batches| - 1]);
    }
  }

  lemma {:induction false} WholeBody(batches: seq<Batch>, j: nat)
    requires ValidBatches(batches) && j <= |batches| && BodyLength(batches[..j]) >= BodyLength(batches)
    ensures j == |batches|
  {
    if j < |batches| {
      BodyLengthPrefix(batches, j);
    }
  }

  // --- record times --------------------------------------------------------

  function BatchTimes(b: Batch): (t: seq<int>)
    ensures |t| == |b|
  {
    seq(|b|, i requires 0 <= i < |b| => b[i].time)
  }

  function Times(batches: seq<Batch>): seq<int>
  {
    if batches == [] then [] else Times(batches[..|batches| - 1]) + BatchTimes(batches[|batches| - 1])
  }

  predicate Sorted(t: seq<int>)
  {
    forall i, j :: 0 <= i < j < |t| ==> t[i] <= t[j]
  }

  function LowestOf(t: seq<int>): int
    requires t != []
  {
    if |t| == 1 then t[0] else Min(LowestOf(t[..|t| - 1]), t[|t| - 1])
  }

  function HighestOf(t: seq<int>): int
    requires t != []
  {
    if |t| == 1 then t[0] else Max(HighestOf(t[..|t| - 1]), t[|t| - 1])
  }

  lemma {:induction false} Extremes(t: seq<int>)
    requires t != []
    ensures forall i :: 0 <= i < |t| ==> LowestOf(t) <= t[i] <= HighestOf(t)
    ensures LowestOf(t) in t && HighestOf(t) in t
    ensures Sorted(t) ==> LowestOf(t) == t[0] && HighestOf(t) == t[|t| - 1]
  {
    if |t| > 1 {
      Extremes(t[..|t| - 1]);
    }
  }

  lemma {:induction false} TimesOf(batches: seq<Batch>)
    requires ValidBatches(batches)
    ensures forall i :: 0 <= i < |Times(batches)| ==> U64(Times(batches)[i])
    ensures batches != [] ==>
              && Times(batches) != []
              && Times(batches)[0] == batches[0][0].time
              && Times(batches)[|Times(batches)| - 1] == LastTimeOf(batches[|batches| - 1])
  {
    if batches != [] {
      TimesOf(batches[..|batches| - 1]);
    }
  }

  function LastTimeOf(b: Batch): int
    requires b != []
  {
    b[|b| - 1].time
  }

  // --- one segment ---------------------------------------------------------

  predicate ValidSegment(s: Segment)
  {
    && s.first >= 1
    && s.batches != []
    && ValidBatches(s.batches)
    && U64(LastOf(s))
    && BodyLength(s.batches) <= WAL_CAPACITY - 32
    && (s.kind == Span ==> Sorted(Times(s.batches)))
  }

  function LastOf(s: Segment): int { s.first + |s.batches| - 1 }

  function HeaderSize(s: Segment): nat { if s.kind == Plain then 32 else 64 }

  function SegmentSize(s: Segment): nat { HeaderSize(s) + BodyLength(s.batches) }

  function Lowest(s: Segment): (m: int)
    requires ValidSegment(s)
    ensures U64(m)
  {
    TimesOf(s.batches);
    Extremes(Times(s.batches));
    LowestOf(Times(s.batches))
  }

  function Highest(s: Segment): (m: int)
    requires ValidSegment(s)
    ensures U64(m) && Lowest(s) <= m
  {
    TimesOf(s.batches);
    Extremes(Times(s.batches));
    HighestOf(Times(s.batches))
  }

  function MagicOf(kind: Kind): (m: bytes)
    ensures |m| == 8
  {
    match kind
    case Span => SPAN_MAGIC
    case Unordered => UNORDERED_MAGIC
    case Plain => PLAIN_MAGIC
  }

  function ShortFields(kind: Kind, first: nat, last: nat, body: nat): (s: bytes)
    ensures |s| == 28
  {
    MagicOf(kind) + Le(first, 8) + Le(last, 8) + Le(body, 4)
  }

  function LongFields(kind: Kind, first: nat, last: nat, body: nat,
                      lowest: nat, highest: nat, previous: nat, skip: nat): (s: bytes)
    ensures |s| == 60
  {
    ShortFields(kind, first, last, body) + Le(lowest, 8) + Le(highest, 8) + Le(previous, 8) + Le(skip, 8)
  }

  function HeaderBytes(s: Segment, previous: nat, skip: nat): (h: bytes)
    requires ValidSegment(s)
    ensures |h| == HeaderSize(s)
  {
    if s.kind == Plain then Seal(ShortFields(s.kind, s.first, LastOf(s), BodyLength(s.batches)))
    else Seal(LongFields(s.kind, s.first, LastOf(s), BodyLength(s.batches), Lowest(s), Highest(s), previous, skip))
  }

  function SegmentBytes(s: Segment, previous: nat, skip: nat): (r: bytes)
    requires ValidSegment(s)
    ensures |r| == SegmentSize(s)
  {
    BodyTotal(s.first, s.batches);
    HeaderBytes(s, previous, skip) + BodyBytes(s.first, s.batches)
  }

  datatype SegmentInfo = SegmentInfo(first: nat, last: nat, body: nat, lowest: nat, highest: nat,
                                     previous: nat, skip: nat, headerSize: nat, ordered: bool)

  function ShortInfo(h: bytes): SegmentInfo
    requires |h| == 32
  {
    SegmentInfo(Un(h[8..16]), Un(h[16..24]), Un(h[24..28]), 0, TWO64 - 1, 0, 0, 32, false)
  }

  function LongInfo(h: bytes): SegmentInfo
    requires |h| == 64
  {
    SegmentInfo(Un(h[8..16]), Un(h[16..24]), Un(h[24..28]), Un(h[28..36]), Un(h[36..44]),
                Un(h[44..52]), Un(h[52..60]), 64, h[..8] == SPAN_MAGIC)
  }

  /** The range checks of `read_segment`, on an already decoded header. */
  predicate SegmentInRange(i: SegmentInfo, offset: nat, end: nat)
    requires offset + i.headerSize <= end
  {
    && i.first != 0
    && i.first <= i.last
    && i.body <= WAL_CAPACITY - 32
    && i.body <= end - offset - i.headerSize
    && i.last - i.first + 1 <= i.body / 84
    && i.body <= (i.last - i.first + 1) * BATCH_SCRATCH
    && i.lowest <= i.highest
    && (i.previous == 0 || DATA_START <= i.previous < offset)
    && (i.skip == 0 || DATA_START <= i.skip < offset)
  }

  /** `read_segment`: None is TIMELITE_INVALID_DATABASE. */
  function ReadSegment(d: bytes, offset: nat, end: nat): (r: Option<SegmentInfo>)
    ensures r.Some? ==>
              && offset + r.value.headerSize + r.value.body <= end
              && r.value.first >= 1 && r.value.first <= r.value.last
              && r.value.body >= 84
              && (r.value.headerSize == 32 || r.value.headerSize == 64)
  {
    if offset + 32 > end || offset + 32 > |d| then None
    else
      var magic := d[offset..offset + 8];
      if magic == SPAN_MAGIC || magic == UNORDERED_MAGIC then
        if offset + 64 > end || offset + 64 > |d| then None
        else
          var h := d[offset..offset + 64];
          if Sealed(h) && SegmentInRange(LongInfo(h), offset, end) then Some(LongInfo(h)) else None
      else if magic == PLAIN_MAGIC then
        var h := d[offset..offset + 32];
        if Sealed(h) && SegmentInRange(ShortInfo(h), offset, end) then Some(ShortInfo(h)) else None
      else None
  }

  function InfoOf(s: Segment, previous: nat, skip: nat): SegmentInfo
    requires ValidSegment(s)
  {
    if s.kind == Plain then
      SegmentInfo(s.first, LastOf(s), BodyLength(s.batches), 0, TWO64 - 1, 0, 0, 32, false)
    else
      SegmentInfo(s.first, LastOf(s), BodyLength(s.batches), Lowest(s), Highest(s),
                  previous, skip, 64, s.kind == Span)
  }

  lemma {:induction false} ShortSlices(kind: Kind, first: nat, last: nat, body: nat)
    ensures var s := ShortFields(kind, first, last, body);
            s[..8] == MagicOf(kind) && s[8..16] == Le(first, 8) && s[16..24] == Le(last, 8) && s[24..28] == Le(body, 4)
  {
  }

  lemma {:induction false} FiveParts(a: bytes, b: bytes, c: bytes, d: bytes, e: bytes)
    requires |a| == 28 && |b| == 8 && |c| == 8 && |d| == 8 && |e| == 8
    ensures var s := a + b + c + d + e;
            s[..28] == a && s[28..36] == b && s[36..44] == c && s[44..52] == d && s[52..60] == e
  {
  }

  lemma {:induction false} LongSlices(kind: Kind, first: nat, last: nat, body: nat, lowest: nat, highest: nat,
                                      previous: nat, skip: nat)
    ensures var s := LongFields(kind, first, last, body, lowest, highest, previous, skip);
            && s[..8] == MagicOf(kind) && s[8..16] == Le(first, 8) && s[16..24] == Le(last, 8)
            && s[24..28] == Le(body, 4)
            && s[28..36] == Le(lowest, 8) && s[36..44] == Le(highest, 8)
            && s[44..52] == Le(previous, 8) && s[52..60] == Le(skip, 8)
  {
    hide Le, MagicOf, ShortFields;
    var short := ShortFields(kind, first, last, body);
    var s := LongFields(kind, first, last, body, lowest, highest, previous, skip);
    ShortSlices(kind, first, last, body);
    FiveParts(short, Le(lowest, 8), Le(highest, 8), Le(previous, 8), Le(skip, 8));
    SubSlice(s, 0, 28, 0, 8);
    SubSlice(s, 0, 28, 8, 16);
    SubSlice(s, 0, 28, 16, 24);
    SubSlice(s, 0, 28, 24, 28);
  }

  lemma {:induction false} HeaderDecodes(s: Segment, previous: nat, skip: nat)
    requires ValidSegment(s) && U64(previous) && U64(skip)
    ensures var h := HeaderBytes(s, previous, skip);
            && h[..8] == MagicOf(s.kind) && Sealed(h)
            && InfoOf(s, previous, skip) == if s.kind == Plain then ShortInfo(h) else LongInfo(h)
  {
    var h := HeaderBytes(s, previous, skip);
    var body := BodyLength(s.batches);
    Un8Le(s.first);
    Un8Le(LastOf(s));
    Un4Le(body);
    if s.kind == Plain {
      var f := ShortFields(s.kind, s.first, LastOf(s), body);
      ShortSlices(s.kind, s.first, LastOf(s), body);
      SealSealed(f);
      SliceOfSeal(f, 0, 8);
      SliceOfSeal(f, 8, 16);
      SliceOfSeal(f, 16, 24);
      SliceOfSeal(f, 24, 28);
    } else {
      var f := LongFields(s.kind, s.first, LastOf(s), body, Lowest(s), Highest(s), previous, skip);
      LongSlices(s.kind, s.first, LastOf(s), body, Lowest(s), Highest(s), previous, skip);
      SealSealed(f);
      SliceOfSeal(f, 0, 8);
      SliceOfSeal(f, 8, 16);
      SliceOfSeal(f, 16, 24);
      SliceOfSeal(f, 24, 28);
      SliceOfSeal(f, 28, 36);
      SliceOfSeal(f, 36, 44);
      SliceOfSeal(f, 44, 52);
      SliceOfSeal(f, 52, 60);
      Un8Le(Lowest(s));
      Un8Le(Highest(s));
      Un8Le(previous);
      Un8Le(skip);
      SpanMagicIsDistinct();
    }
  }

  lemma {:induction false} SpanMagicIsDistinct()
    ensures forall kind :: MagicOf(kind) == SPAN_MAGIC <==> kind == Span
    ensures forall kind :: MagicOf(kind) == UNORDERED_MAGIC <==> kind == Unordered
    ensures forall kind :: MagicOf(kind) == PLAIN_MAGIC <==> kind == Plain
  {
    assert SPAN_MAGIC[2] != PLAIN_MAGIC[3] && SPAN_MAGIC[3] != PLAIN_MAGIC[3];
    assert SPAN_MAGIC[2] != UNORDERED_MAGIC[2];
    assert PLAIN_MAGIC[2] != UNORDERED_MAGIC[2];
  }

  /** A written segment header is accepted by `read_segment` and decodes to
      itself, whatever its body holds. */
  lemma {:induction false} HeaderRoundTrip(d: bytes, offset: nat, end: nat, s: Segment, previous: nat, skip: nat)
    requires ValidSegment(s)
    requires previous == 0 || DATA_START <= previous < offset
    requires skip == 0 || DATA_START <= skip < offset
    requires U64(offset)
    requires offset + SegmentSize(s) <= end && offset + SegmentSize(s) <= |d|
    requires d[offset..offset + HeaderSize(s)] == HeaderBytes(s, previous, skip)
    ensures ReadSegment(d, offset, end) == Some(InfoOf(s, previous, skip))
  {
    hide Le, Un, Crc, Seal, Sealed, BodyLength, Times, Lowest, Highest, HeaderBytes, MagicOf, ShortInfo, LongInfo,
      SegmentInRange, InfoOf;
    HeaderDecodes(s, previous, skip);
    BodyLengthBounds(s.batches);
    SpanMagicIsDistinct();
    var h := HeaderBytes(s, previous, skip);
    assert d[offset..offset + 8] == d[offset..offset + HeaderSize(s)][..8] == h[..8];
    InfoInRange(s, previous, skip, offset, end);
  }

  lemma {:induction false} SegmentRoundTrip(d: bytes, offset: nat, end: nat, s: Segment, previous: nat, skip: nat)
    requires ValidSegment(s)
    requires previous == 0 || DATA_START <= previous < offset
    requires skip == 0 || DATA_START <= skip < offset
    requires U64(offset)
    requires offset + SegmentSize(s) <= end && offset + SegmentSize(s) <= |d|
    requires d[offset..offset + SegmentSize(s)] == SegmentBytes(s, previous, skip)
    ensures ReadSegment(d, offset, end) == Some(InfoOf(s, previous, skip))
  {
    hide BodyLength, HeaderBytes, BodyBytes, InfoOf, ReadSegment, ValidSegment;
    var whole := d[offset..offset + SegmentSize(s)];
    assert d[offset..offset + HeaderSize(s)] == whole[..HeaderSize(s)];
    HeaderRoundTrip(d, offset, end, s, previous, skip);
  }

  lemma {:induction false} InfoInRange(s: Segment, previous: nat, skip: nat, offset: nat, end: nat)
    requires ValidSegment(s)
    requires previous == 0 || DATA_START <= previous < offset
    requires skip == 0 || DATA_START <= skip < offset
    requires offset + SegmentSize(s) <= end
    ensures SegmentInRange(InfoOf(s, previous, skip), offset, end)
  {
    BodyLengthBounds(s.batches);
  }

  lemma {:induction false} SegmentNotEmpty(s: Segment)
    requires ValidSegment(s)
    ensures SegmentSize(s) > 0
  {
  }

  lemma {:induction false} NonEmptySegment(s: Segment)
    requires ValidSegment(s)
    ensures s.batches != [] && s.first >= 1
  {
  }

  // --- the chain -----------------------------------------------------------

  /** `n & (~n + 1)`: the largest power of two dividing n. */
  function LowBit(n: nat): (b: nat)
    requires n > 0
    ensures 0 < b <= n
  {
    if n % 2 == 1 then 1 else 2 * LowBit(n / 2)
  }

  function ChainLength(segs: seq<Segment>): nat
  {
    if segs == [] then 0 else ChainLength(segs[..|segs| - 1]) + SegmentSize(segs[|segs| - 1])
  }

  predicate ValidSegments(segs: seq<Segment>)
  {
    forall i :: 0 <= i < |segs| ==> ValidSegment(segs[i])
  }

  /** Where segment `i` (counted from 0) of a chain placed at `root` begins. */
  function OffsetOf(root: nat, segs: seq<Segment>, i: nat): nat
    requires i <= |segs|
  {
    root + ChainLength(segs[..i])
  }

  /** Offset of the n-th segment (counted from 1), 0 standing for "none". */
  function LinkTo(root: nat, segs: seq<Segment>, n: nat): nat
    requires n <= |segs|
  {
    if n == 0 then 0 else OffsetOf(root, segs, n - 1)
  }

  /** The links of the segment that follows the segments `before`. */
  function PreviousLink(root: nat, before: seq<Segment>): nat
  {
    LinkTo(root, before, |before|)
  }

  function SkipLink(root: nat, before: seq<Segment>): nat
  {
    LinkTo(root, before, |before| + 1 - LowBit(|before| + 1))
  }

  function ChainParts(root: nat, segs: seq<Segment>): (parts: seq<bytes>)
    requires ValidSegments(segs)
    ensures |parts| == |segs|
  {
    seq(|segs|, i requires 0 <= i < |segs| =>
      SegmentBytes(segs[i], PreviousLink(root, segs[..i]), SkipLink(root, segs[..i])))
  }

  function ChainBytes(root: nat, segs: seq<Segment>): bytes
    requires ValidSegments(segs)
  {
    Concat(ChainParts(root, segs))
  }

  lemma {:induction false} ChainPartsPrefix(root: nat, segs: seq<Segment>, n: nat)
    requires ValidSegments(segs) && n <= |segs|
    ensures ChainParts(root, segs[..n]) == ChainParts(root, segs)[..n]
  {
    assert forall i :: 0 <= i < n ==> segs[..n][..i] == segs[..i];
  }

  lemma {:induction false} ChainTotal(root: nat, segs: seq<Segment>)
    requires ValidSegments(segs)
    ensures Total(ChainParts(root, segs)) == ChainLength(segs) == |ChainBytes(root, segs)|
  {
    if segs != [] {
      var front := segs[..|segs| - 1];
      ChainTotal(root, front);
      ChainPartsPrefix(root, segs, |front|);
    }
  }

  lemma {:induction false} ChainSize(root: nat, segs: seq<Segment>)
    requires ValidSegments(segs)
    ensures |ChainBytes(root, segs)| == ChainLength(segs)
  {
    ChainTotal(root, segs);
  }

  lemma {:induction false} ChainSnoc(root: nat, segs: seq<Segment>, s: Segment)
    requires ValidSegments(segs) && ValidSegment(s)
    ensures ValidSegments(segs + [s])
    ensures ChainBytes(root, segs + [s])
         == ChainBytes(root, segs) + SegmentBytes(s, PreviousLink(root, segs), SkipLink(root, segs))
    ensures ChainLength(segs + [s]) == ChainLength(segs) + SegmentSize(s)
  {
    var all := segs + [s];
    assert all[..|segs|] == segs;
    ChainPartsPrefix(root, all, |segs|);
  }

  lemma {:induction false} ChainLengthPrefix(segs: seq<Segment>, i: nat)
    requires i <= |segs|
    ensures ChainLength(segs[..i]) <= ChainLength(segs)
    ensures i < |segs| ==>
              ChainLength(segs[..i + 1]) == ChainLength(segs[..i]) + SegmentSize(segs[i]) <= ChainLength(segs)
    decreases |segs| - i
  {
    if i < |segs| {
      assert segs[..i + 1][..i] == segs[..i];
      ChainLengthPrefix(segs, i + 1);
    } else {
      assert segs[..i] == segs;
    }
  }

  lemma {:induction false} OffsetIncreases(root: nat, segs: seq<Segment>, i: nat, j: nat)
    requires i < j <= |segs|
    ensures OffsetOf(root, segs, i) + SegmentSize(segs[i]) <= OffsetOf(root, segs, j)
    ensures root <= OffsetOf(root, segs, i) < OffsetOf(root, segs, j)
    ensures j == i + 1 ==> OffsetOf(root, segs, i) + SegmentSize(segs[i]) == OffsetOf(root, segs, j)
    decreases j
  {
    ChainLengthPrefix(segs, j - 1);
    if i < j - 1 {
      OffsetIncreases(root, segs, i, j - 1);
    }
  }

  lemma {:induction false} ChainLengthBound(segs: seq<Segment>)
    requires ValidSegments(segs)
    ensures SEGMENT_MIN * |segs| <= ChainLength(segs)
  {
    if segs != [] {
      ChainLengthBound(segs[..|segs| - 1]);
      BodyLengthBounds(segs[|segs| - 1].batches);
    }
  }

  /** The database bytes from `root` hold exactly this chain. */
  predicate Located(d: bytes, root: nat, segs: seq<Segment>)
    requires ValidSegments(segs)
  {
    && root + ChainLength(segs) <= |d|
    && d[root..root + ChainLength(segs)] == ChainBytes(root, segs)
  }

  lemma {:induction false} LocatedSegment(d: bytes, root: nat, segs: seq<Segment>, i: nat)
    requires ValidSegments(segs) && Located(d, root, segs) && i < |segs|
    ensures var o := OffsetOf(root, segs, i);
            && o + SegmentSize(segs[i]) <= root + ChainLength(segs) <= |d|
            && d[o..o + SegmentSize(segs[i])]
               == SegmentBytes(segs[i], PreviousLink(root, segs[..i]), SkipLink(root, segs[..i]))
            && FramesAt(d, o + HeaderSize(segs[i]), segs[i].first, segs[i].batches)
  {
    hide SegmentBytes, BodyBytes, HeaderBytes, ChainBytes, PreviousLink, SkipLink, BodyLength, ChainLength, Total,
      Concat, ValidBatch;
    var parts := ChainParts(root, segs);
    ChainTotal(root, segs);
    ChainTotal(root, segs[..i]);
    ChainPartsPrefix(root, segs, i);
    ConcatPart(parts, i);
    ChainLengthPrefix(segs, i);
    var o, n := ChainLength(segs[..i]), SegmentSize(segs[i]);
    SubSlice(d, root, root + ChainLength(segs), o, o + n);
    assert ChainBytes(root, segs) == Concat(parts) by { ChainIsConcat(root, segs); }
    SegmentBody(segs[i], PreviousLink(root, segs[..i]), SkipLink(root, segs[..i]));
    BodyTotal(segs[i].first, segs[i].batches);
    SubSlice(d, root + o, root + o + n, HeaderSize(segs[i]), n);
  }

  lemma {:induction false} ChainIsConcat(root: nat, segs: seq<Segment>)
    requires ValidSegments(segs)
    ensures ChainBytes(root, segs) == Concat(ChainParts(root, segs))
  {
  }

  lemma {:induction false} SegmentBody(s: Segment, previous: nat, skip: nat)
    requires ValidSegment(s)
    ensures SegmentBytes(s, previous, skip)[HeaderSize(s)..] == BodyBytes(s.first, s.batches)
  {
  }

  lemma {:induction false} LinksInRange(root: nat, segs: seq<Segment>, i: nat)
    requires i < |segs| && root >= DATA_START
    ensures var p := PreviousLink(root, segs[..i]);
            p == LinkTo(root, segs, i) && (p == 0 || DATA_START <= p < OffsetOf(root, segs, i))
    ensures var t := i + 1 - LowBit(i + 1);
            var k := SkipLink(root, segs[..i]);
            k == LinkTo(root, segs, t) && (k == 0 || DATA_START <= k < OffsetOf(root, segs, i))
  {
    var t := i + 1 - LowBit(i + 1);
    if i > 0 {
      assert segs[..i][..i - 1] == segs[..i - 1];
      OffsetIncreases(root, segs, i - 1, i);
    }
    if t > 0 {
      assert segs[..i][..t - 1] == segs[..t - 1];
      OffsetIncreases(root, segs, t - 1, i);
    }
  }

  /** `read_segment` at the i-th segment of a chain returns that segment, with
      links to its predecessor and to ordinal n - lowbit(n). */
  lemma {:induction false} ReadChain(d: bytes, root: nat, segs: seq<Segment>, i: nat)
    requires ValidSegments(segs) && Located(d, root, segs) && i < |segs|
    requires root >= DATA_START && U64(root + ChainLength(segs))
    ensures ReadSegment(d, OffsetOf(root, segs, i), root + ChainLength(segs))
         == Some(InfoOf(segs[i], LinkTo(root, segs, i), LinkTo(root, segs, i + 1 - LowBit(i + 1))))
  {
    hide ReadSegment, SegmentBytes, InfoOf, FramesAt, LowBit, LinkTo, ChainLength, Located, ValidSegment;
    LocatedSegment(d, root, segs, i);
    LinksInRange(root, segs, i);
    SegmentRoundTrip(d, OffsetOf(root, segs, i), root + ChainLength(segs), segs[i],
                     PreviousLink(root, segs[..i]), SkipLink(root, segs[..i]));
  }
}
