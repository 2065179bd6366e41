/** Validation of an installed chain at open: one pass over the headers. */
module ChainCheck {
  import opened Bytes
  import opened Checksum
  import opened Frames
  import opened Segments
  import opened SkipLinks

  // --- what a chain of segments amounts to ---------------------------------

  /** The sequence number reached after the first n segments. */
  function SequenceAfter(segs: seq<Segment>, n: nat): int
    requires n <= |segs|
  {
    if n == 0 then 0 else LastOf(segs[n - 1])
  }

  /** Sequences increase; without retention they have no gaps either. */
  ghost predicate Sequenced(segs: seq<Segment>, gaps: bool)
  {
    forall i :: 0 <= i < |segs| ==> FollowsAt(segs, i, gaps)
  }

  ghost predicate FollowsAt(segs: seq<Segment>, i: nat, gaps: bool)
    requires i < |segs|
  {
    && segs[i].first > SequenceAfter(segs, i)
    && (!gaps ==> segs[i].first == SequenceAfter(segs, i) + 1)
  }

  function LiveCount(segs: seq<Segment>): nat
  {
    if segs == [] then 0 else LiveCount(segs[..|segs| - 1]) + |segs[|segs| - 1].batches|
  }

  /** Segments from ordinal k on are ordered spans that follow one another in time. */
  ghost predicate OrderedFrom(segs: seq<Segment>, k: nat)
    requires ValidSegments(segs)
  {
    && (forall i :: k <= i + 1 <= |segs| && i >= 0 ==> segs[i].kind == Span)
    && (forall i :: k <= i && 0 < i < |segs| ==> TouchesAt(segs, i))
  }

  ghost predicate TouchesAt(segs: seq<Segment>, i: nat)
    requires ValidSegments(segs) && 0 < i < |segs|
  {
    Highest(segs[i - 1]) <= Lowest(segs[i])
  }

  /** The ordinal the header walk arrives at, with the maximum it carries along. */
  function SpanState(segs: seq<Segment>): (r: (nat, int))
    requires ValidSegments(segs)
    ensures 1 <= r.0 <= |segs| + 1
  {
    if segs == [] then (1, 0)
    else
      var front, s, n := segs[..|segs| - 1], segs[|segs| - 1], |segs|;
      var (start, prior) := SpanState(front);
      match s.kind
      case Span => (if Lowest(s) < prior then n else start, Highest(s))
      case Unordered => (n + 1, Highest(s))
      case Plain => (n + 1, 0)
  }

  function SpanStart(segs: seq<Segment>): (k: nat)
    requires ValidSegments(segs)
    ensures 1 <= k <= |segs| + 1
  {
    SpanState(segs).0
  }

  /** `private_span_start` is the least ordinal from which the chain is ordered. */
  lemma {:induction false} SpanStartIsLeast(segs: seq<Segment>, k: nat)
    requires ValidSegments(segs) && 1 <= k <= |segs| + 1
    ensures OrderedFrom(segs, k) <==> SpanStart(segs) <= k
  {
    if segs != [] {
      var front, s, n := segs[..|segs| - 1], segs[|segs| - 1], |segs|;
      PriorMaximum(front);
      if k <= n {
        SpanStartIsLeast(front, k);
        if s.kind == Span {
          OrderedSnoc(segs, k);
        }
      }
    }
  }

  lemma {:induction false} OrderedSnoc(segs: seq<Segment>, k: nat)
    requires ValidSegments(segs) && segs != [] && 1 <= k <= |segs| && segs[|segs| - 1].kind == Span
    ensures var n := |segs|;
            OrderedFrom(segs, k) <==>
              OrderedFrom(segs[..n - 1], k) && (k < n ==> TouchesAt(segs, n - 1))
  {
    var n := |segs|;
    var front := segs[..n - 1];
    assert forall i :: 0 < i < |front| ==> TouchesAt(front, i) == TouchesAt(segs, i);
  }

  lemma {:induction false} PriorMaximum(segs: seq<Segment>)
    requires ValidSegments(segs)
    ensures SpanState(segs).1 == if segs == [] || segs[|segs| - 1].kind == Plain then 0 else Highest(segs[|segs| - 1])
    ensures segs != [] && segs[|segs| - 1].kind != Span ==> SpanStart(segs) == |segs| + 1
  {
  }

  // --- the walk ------------------------------------------------------------

  datatype WalkState = WalkState(offset: nat, previous: nat, sequence: nat, table: seq<nat>,
                                 prior: int, spanStart: nat, live: nat, final: Option<SegmentInfo>)

  function WalkStart(root: nat): WalkState
  {
    WalkState(root, 0, 0, seq(TABLE_SIZE, j => 0), 0, 1, 0, None)
  }

  /** Entries 0..bit of the table now name the segment at `offset`. */
  function Record24(table: seq<nat>, bit: nat, offset: nat): (t: seq<nat>)
    requires |table| == TABLE_SIZE
    ensures |t| == TABLE_SIZE
  {
    seq(TABLE_SIZE, j requires 0 <= j < TABLE_SIZE => if j <= bit then offset else table[j])
  }

  predicate SequenceAccepted(first: nat, sequence: nat, enabled: bool)
  {
    sequence != TWO64 - 1 && first > sequence && (enabled || first == sequence + 1)
  }

  function Advance(w: WalkState, n: nat, bit: nat, i: SegmentInfo): WalkState
    requires |w.table| == TABLE_SIZE && i.last >= i.first
  {
    WalkState(w.offset + i.headerSize + i.body, w.offset, i.last, Record24(w.table, bit, w.offset),
              if i.headerSize == 64 then i.highest else 0,
              if i.headerSize != 64 || !i.ordered then n + 1
              else if i.lowest < w.prior then n else w.spanStart,
              w.live + (i.last - i.first + 1), Some(i))
  }

  /** One iteration of the loop in `check_segments`, at ordinal n. */
  function WalkStep(d: bytes, end: nat, enabled: bool, n: nat, w: WalkState): (r: Option<WalkState>)
    requires n > 0 && |w.table| == TABLE_SIZE && BitOf(n) < TABLE_SIZE
    ensures r.Some? ==> |r.value.table| == TABLE_SIZE
  {
    match ReadSegment(d, w.offset, end)
    case None => None
    case Some(i) =>
      var bit := BitOf(n);
      if !SequenceAccepted(i.first, w.sequence, enabled) then None
      else if i.headerSize == 64 && (i.previous != w.previous || i.skip != w.table[bit]) then None
      else Some(Advance(w, n, bit, i))
  }

  lemma {:induction false} TableIndex(n: nat)
    requires 0 < n < Pow2(TABLE_SIZE)
    ensures BitOf(n) < TABLE_SIZE
  {
    BitOfBound(n, TABLE_SIZE);
  }

  function Walk(d: bytes, end: nat, enabled: bool, root: nat, n: nat): (r: Option<WalkState>)
    requires n < Pow2(TABLE_SIZE)
    ensures r.Some? ==> |r.value.table| == TABLE_SIZE
    ensures r.Some? && n > 0 ==> r.value.final.Some?
  {
    if n == 0 then Some(WalkStart(root))
    else
      match Walk(d, end, enabled, root, n - 1)
      case None => None
      case Some(w) => TableIndex(n); WalkStep(d, end, enabled, n, w)
  }

  /** Frames read one after another: how many, whether they fill the extent, and
      the last record time met. */
  datatype FrameRun = FrameRun(count: nat, whole: bool, time: int)

  function RunOfFrames(d: bytes, frame: nat, end: nat, sequence: nat, time: int): FrameRun
    decreases end - frame
  {
    if frame >= end then FrameRun(0, true, time)
    else
      match ReadFrame(d, frame, end, sequence)
      case Complete(data, count) =>
        var rest := RunOfFrames(d, frame + |data|, end, (sequence + 1) % TWO64, LastTimeOf(Records(data, count)));
        rest.(count := rest.count + 1)
      case _ => FrameRun(0, false, time)
  }

  /** The last record time of a run of frames; None if one is damaged. */
  function ScanLastTime(d: bytes, frame: nat, end: nat, sequence: nat, time: int): Option<int>
  {
    var run := RunOfFrames(d, frame, end, sequence, time);
    if run.whole then Some(run.time) else None
  }

  datatype Claim = Claim(generation: nat, end: nat, last: nat, time: int, tail: nat, timed: bool,
                         enabled: bool, root: nat)

  datatype ChainInfo = ChainInfo(tail: nat, time: int, spanStart: nat, live: nat)

  /** The verdict after the walk, on the state it ended in. */
  function Conclude(d: bytes, c: Claim, w: WalkState): Option<ChainInfo>
    requires c.generation != 0 ==> w.final.Some?
  {
    if w.offset != c.end || w.sequence > c.last || (!c.enabled && w.sequence != c.last)
      || (c.timed && c.tail != w.previous)
    then None
    else if c.generation == 0 then Some(ChainInfo(w.previous, c.time, w.spanStart, w.live))
    else
      var i := w.final.value;
      if i.ordered && !c.enabled then
        if c.timed && c.time != i.highest then None else Some(ChainInfo(w.previous, i.highest, w.spanStart, w.live))
      else if c.timed then Some(ChainInfo(w.previous, c.time, w.spanStart, w.live))
      else
        match ScanLastTime(d, w.previous + i.headerSize, c.end, i.first, c.time)
        case None => None
        case Some(t) => Some(ChainInfo(w.previous, t, w.spanStart, w.live))
  }

  /** `check_segments`. */
  function CheckChain(d: bytes, c: Claim): Option<ChainInfo>
    requires c.generation < Pow2(TABLE_SIZE)
  {
    match Walk(d, c.end, c.enabled, c.root, c.generation)
    case None => None
    case Some(w) => Conclude(d, c, w)
  }

  // --- acceptance ----------------------------------------------------------

  /** Entry j of the table is the last segment whose ordinal is a multiple of 2^j. */
  ghost predicate TableOf(table: seq<nat>, root: nat, segs: seq<Segment>, n: nat)
    requires n <= |segs|
  {
    && |table| == TABLE_SIZE
    && forall j :: 0 <= j < TABLE_SIZE ==> table[j] == LinkTo(root, segs, LastMultiple(n, j))
  }

  lemma {:induction false} TableStart(root: nat, segs: seq<Segment>)
    ensures TableOf(WalkStart(root).table, root, segs, 0)
  {
  }

  /** The table invariant is kept, and at each step its low-bit entry is the skip link. */
  lemma {:induction false} TableKept(table: seq<nat>, root: nat, segs: seq<Segment>, n: nat)
    requires n < |segs| && TableOf(table, root, segs, n) && n + 1 < Pow2(TABLE_SIZE)
    ensures BitOf(n + 1) < TABLE_SIZE
    ensures table[BitOf(n + 1)] == LinkTo(root, segs, n + 1 - LowBit(n + 1))
    ensures TableOf(Record24(table, BitOf(n + 1), OffsetOf(root, segs, n)), root, segs, n + 1)
  {
    hide BitOf, LowBit, Pow2, ChainLength, LastMultiple;
    var links := seq(|segs| + 1, i requires 0 <= i <= |segs| => LinkTo(root, segs, i));
    assert links[n + 1] == OffsetOf(root, segs, n);
    LinksKept(table, links, n);
  }

  /** Entry j of the table is the link to the last multiple of 2^j. */
  ghost predicate TableOfLinks(table: seq<nat>, links: seq<nat>, n: nat)
    requires n < |links|
  {
    && |table| == TABLE_SIZE
    && forall j :: 0 <= j < TABLE_SIZE ==> table[j] == links[LastMultiple(n, j)]
  }

  lemma {:induction false} LinksKept(table: seq<nat>, links: seq<nat>, n: nat)
    requires n + 1 < |links| && TableOfLinks(table, links, n) && n + 1 < Pow2(TABLE_SIZE)
    ensures BitOf(n + 1) < TABLE_SIZE
    ensures table[BitOf(n + 1)] == links[n + 1 - LowBit(n + 1)]
    ensures TableOfLinks(Record24(table, BitOf(n + 1), links[n + 1]), links, n + 1)
  {
    hide BitOf, LowBit, Pow2, LastMultiple;
    TableIndex(n + 1);
    TableStep(n, 0);
    var after := Record24(table, BitOf(n + 1), links[n + 1]);
    forall j | 0 <= j < TABLE_SIZE
      ensures after[j] == links[LastMultiple(n + 1, j)]
    {
      TableStep(n, j);
    }
  }

  ghost predicate WalkedTo(w: WalkState, root: nat, segs: seq<Segment>, n: nat)
    requires ValidSegments(segs) && n <= |segs|
  {
    && w.offset == OffsetOf(root, segs, n)
    && w.previous == LinkTo(root, segs, n)
    && w.sequence == SequenceAfter(segs, n)
    && TableOf(w.table, root, segs, n)
    && (w.spanStart, w.prior) == SpanState(segs[..n])
    && w.live == LiveCount(segs[..n])
    && (n > 0 ==> w.final == Some(InfoAt(root, segs, n - 1)))
  }

  lemma {:induction false} AdvanceWalk(w: WalkState, root: nat, segs: seq<Segment>, n: nat)
    requires ValidSegments(segs) && n < |segs| && n + 1 < Pow2(TABLE_SIZE)
    requires WalkedTo(w, root, segs, n)
    ensures WalkedTo(Advance(w, n + 1, BitOf(n + 1), InfoAt(root, segs, n)), root, segs, n + 1)
  {
    hide BodyLength, Times, Lowest, Highest, LowBit, BitOf, Pow2, TableOf, ValidSegment;
    TableKept(w.table, root, segs, n);
    OffsetIncreases(root, segs, n, n + 1);
    assert segs[..n + 1][..n] == segs[..n];
  }

  lemma {:induction false} WalkAccepts(d: bytes, root: nat, segs: seq<Segment>, enabled: bool, n: nat)
    requires ValidSegments(segs) && Located(d, root, segs) && Sequenced(segs, enabled)
    requires root >= DATA_START && U64(root + ChainLength(segs))
    requires n <= |segs| < Pow2(TABLE_SIZE)
    ensures var r := Walk(d, root + ChainLength(segs), enabled, root, n);
            r.Some? && WalkedTo(r.value, root, segs, n)
  {
    hide WalkStep, WalkedTo, WalkStart, ChainLength, Located, Sequenced, ValidSegment, Pow2, BitOf;
    if n == 0 {
      StartAccepts(root, segs);
    } else {
      TableIndex(n);
      WalkAccepts(d, root, segs, enabled, n - 1);
      StepAccepts(d, root, segs, enabled, n - 1, Walk(d, root + ChainLength(segs), enabled, root, n - 1).value);
    }
  }

  lemma {:induction false} StartAccepts(root: nat, segs: seq<Segment>)
    requires ValidSegments(segs)
    ensures WalkedTo(WalkStart(root), root, segs, 0)
  {
    TableStart(root, segs);
    assert segs[..0] == [];
  }

  lemma {:induction false} StepAccepts(d: bytes, root: nat, segs: seq<Segment>, enabled: bool, n: nat, w: WalkState)
    requires ValidSegments(segs) && Located(d, root, segs) && Sequenced(segs, enabled)
    requires root >= DATA_START && U64(root + ChainLength(segs))
    requires n < |segs| && n + 1 < Pow2(TABLE_SIZE)
    requires WalkedTo(w, root, segs, n)
    ensures BitOf(n + 1) < TABLE_SIZE
    ensures var r := WalkStep(d, root + ChainLength(segs), enabled, n + 1, w);
            r.Some? && WalkedTo(r.value, root, segs, n + 1)
  {
    hide BodyLength, Times, Lowest, Highest, LowBit, BitOf, Pow2, ReadSegment, Advance, ChainLength, Located;
    TableIndex(n + 1);
    assert FollowsAt(segs, n, enabled);
    ReadChain(d, root, segs, n);
    TableKept(w.table, root, segs, n);
    AdvanceWalk(w, root, segs, n);
  }

  /** Reading on from the j-th of a run of whole frames reads all the others. */
  lemma {:induction false} RunAccepts(d: bytes, base: nat, first: nat, batches: seq<Batch>, j: nat, time: int)
    requires ValidBatches(batches) && FramesAt(d, base, first, batches) && j <= |batches| && batches != []
    requires U64(first + |batches| - 1)
    requires j > 0 ==> time == LastTimeOf(batches[j - 1])
    ensures RunOfFrames(d, base + BodyLength(batches[..j]), base + BodyLength(batches), (first + j) % TWO64, time)
         == FrameRun(|batches| - j, true, LastTimeOf(batches[|batches| - 1]))
    decreases |batches| - j
  {
    hide ReadFrame, Frame, FrameLength, RunOfFrames, FramesAt, BodyLength, Records, ValidBatch;
    var end := base + BodyLength(batches);
    if j == |batches| {
      assert batches[..j] == batches;
      RunDone(d, end, end, (first + j) % TWO64, time);
    } else {
      ReadFrameAt(d, base, first, batches, j, end);
      BodyLengthPrefix(batches, j);
      FrameSize(first + j, batches[j]);
      NextSequence(first + j);
      RunStep(d, base + BodyLength(batches[..j]), end, first + j, time);
      BatchNotEmpty(batches, j);
      RunAccepts(d, base, first, batches, j + 1, LastTimeOf(batches[j]));
    }
  }

  lemma {:induction false} BatchNotEmpty(batches: seq<Batch>, j: nat)
    requires ValidBatches(batches) && j < |batches|
    ensures batches[j] != []
  {
  }

  lemma {:induction false} RunDone(d: bytes, frame: nat, end: nat, sequence: nat, time: int)
    requires frame >= end
    ensures RunOfFrames(d, frame, end, sequence, time) == FrameRun(0, true, time)
  {
  }

  lemma {:induction false} RunStep(d: bytes, frame: nat, end: nat, sequence: nat, time: int)
    requires frame < end && ReadFrame(d, frame, end, sequence).Complete?
    ensures var r := ReadFrame(d, frame, end, sequence);
            var rest := RunOfFrames(d, frame + |r.data|, end, (sequence + 1) % TWO64,
                                    LastTimeOf(Records(r.data, r.count)));
            RunOfFrames(d, frame, end, sequence, time) == rest.(count := rest.count + 1)
  {
  }

  lemma {:induction false} FrameSize(sequence: nat, b: Batch)
    requires ValidBatch(b)
    ensures |Frame(sequence, b)| == FrameLength(b) > 0
  {
  }

  lemma {:induction false} NextSequence(s: nat)
    requires U64(s)
    ensures s % TWO64 == s && (s % TWO64 + 1) % TWO64 == (s + 1) % TWO64
  {
  }

  /** The claim a manifest makes about the chain it points at. */
  ghost predicate TrueClaim(c: Claim, segs: seq<Segment>, time: int)
    requires ValidSegments(segs)
  {
    && c.generation == |segs| < Pow2(TABLE_SIZE)
    && c.end == c.root + ChainLength(segs)
    && c.root >= DATA_START && U64(c.end)
    && Sequenced(segs, c.enabled)
    && SequenceAfter(segs, |segs|) <= c.last
    && (!c.enabled ==> SequenceAfter(segs, |segs|) == c.last)
    && (!c.enabled && segs != [] ==> time == LastTimeOf(Final(segs)))
    && (c.timed ==> c.tail == LinkTo(c.root, segs, |segs|) && c.time == time)
    && (!c.timed ==> !c.enabled && (segs == [] ==> c.time == time))
  }

  function Final(segs: seq<Segment>): (b: Batch)
    requires segs != [] && ValidSegments(segs)
    ensures b != []
  {
    var s := segs[|segs| - 1];
    s.batches[|s.batches| - 1]
  }

  /** Every chain a manifest truly describes passes `check_segments`, which
      recomputes tail, last time, span start and live count from the headers. */
  lemma {:induction false} ChainAccepted(d: bytes, c: Claim, segs: seq<Segment>, time: int)
    requires ValidSegments(segs) && Located(d, c.root, segs) && TrueClaim(c, segs, time)
    ensures CheckChain(d, c) == Some(ChainInfo(LinkTo(c.root, segs, |segs|), time, SpanStart(segs), LiveCount(segs)))
  {
    hide Pow2, ChainLength, Walk, SpanState, Located, Sequenced, Conclude, WalkedTo, ValidSegment;
    WalkAccepts(d, c.root, segs, c.enabled, |segs|);
    ConclusionAccepts(d, c, segs, time, Walk(d, c.end, c.enabled, c.root, c.generation).value);
  }

  lemma {:induction false} ConclusionAccepts(d: bytes, c: Claim, segs: seq<Segment>, time: int, w: WalkState)
    requires ValidSegments(segs) && Located(d, c.root, segs) && TrueClaim(c, segs, time)
    requires WalkedTo(w, c.root, segs, |segs|)
    ensures Conclude(d, c, w) == Some(ChainInfo(LinkTo(c.root, segs, |segs|), time, SpanStart(segs), LiveCount(segs)))
  {
    hide Pow2, ChainLength, SpanState, Located, Sequenced, RunOfFrames, TableOf, LowBit, LinkTo, LiveCount,
      ValidSegment, Lowest, Highest, BodyLength;
    assert segs[..|segs|] == segs;
    if segs != [] {
      LastInSpan(segs[|segs| - 1]);
      FinalScan(d, c.root, segs, c.time);
    }
  }

  lemma {:induction false} FinalScan(d: bytes, root: nat, segs: seq<Segment>, time: int)
    requires ValidSegments(segs) && Located(d, root, segs) && segs != []
    ensures var i := InfoAt(root, segs, |segs| - 1);
            && LinkTo(root, segs, |segs|) + i.headerSize + i.body == root + ChainLength(segs)
            && i.last == i.first + |segs[|segs| - 1].batches| - 1
            && RunOfFrames(d, LinkTo(root, segs, |segs|) + i.headerSize, root + ChainLength(segs), i.first, time)
               == FrameRun(|segs[|segs| - 1].batches|, true, LastTimeOf(Final(segs)))
  {
    hide RunOfFrames, ChainLength, Located, BodyLength, FramesAt, Lowest, Highest, Sorted, Times, SegmentBytes,
      PreviousLink, SkipLink, LowBit, ValidBatches;
    var s := segs[|segs| - 1];
    LocatedSegment(d, root, segs, |segs| - 1);
    OffsetIncreases(root, segs, |segs| - 1, |segs|);
    assert segs[..|segs|] == segs;
    NoFramesYet(s);
    RunAccepts(d, OffsetOf(root, segs, |segs| - 1) + HeaderSize(s), s.first, s.batches, 0, time);
  }

  lemma {:induction false} NoFramesYet(s: Segment)
    requires ValidSegment(s)
    ensures BodyLength(s.batches[..0]) == 0 && s.first % TWO64 == s.first
  {
  }

  /** An ordered segment's maximum is its last record's time. */
  lemma {:induction false} LastInSpan(s: Segment)
    requires ValidSegment(s)
    ensures s.kind == Span ==> Highest(s) == LastTimeOf(s.batches[|s.batches| - 1])
    ensures s.kind == Span ==> Lowest(s) == s.batches[0][0].time
  {
    TimesOf(s.batches);
    Extremes(Times(s.batches));
  }

  // --- what an accepted chain guarantees on any image ----------------------

  /** The offsets at which the header walk reads its first n headers. */
  ghost function WalkOffsets(d: bytes, end: nat, enabled: bool, root: nat, n: nat): (offs: seq<nat>)
    requires n < Pow2(TABLE_SIZE)
    ensures |offs| == n
  {
    if n == 0 then []
    else
      var w := Walk(d, end, enabled, root, n - 1);
      WalkOffsets(d, end, enabled, root, n - 1) + [if w.Some? then w.value.offset else 0]
  }

  ghost predicate WalkIndexed(d: bytes, end: nat, enabled: bool, root: nat, n: nat, w: WalkState, offs: seq<nat>)
    requires |offs| == n
  {
    && (n > 0 ==> offs[0] == root && w.final.Some? && ReadSegment(d, offs[n - 1], end) == w.final
                  && w.offset == offs[n - 1] + w.final.value.headerSize + w.final.value.body)
    && (n == 0 ==> w.offset == root)
    && w.previous == Ordinal(offs, n)
    && TableOfLinks(w.table, [0] + offs, n)
    && forall i :: 1 <= i <= n ==> HeaderInPlace(d, end, offs, i)
  }

  lemma {:induction false} WalkIsIndexed(d: bytes, end: nat, enabled: bool, root: nat, n: nat)
    requires n < Pow2(TABLE_SIZE) && Walk(d, end, enabled, root, n).Some?
    ensures WalkIndexed(d, end, enabled, root, n, Walk(d, end, enabled, root, n).value,
                        WalkOffsets(d, end, enabled, root, n))
  {
    hide ReadSegment, BitOf, LowBit, Pow2, LastMultiple, TableOfLinks;
    if n == 0 {
      EmptyTable(root);
      assert [0] + WalkOffsets(d, end, enabled, root, 0) == [0];
    } else {
      WalkFails(d, end, enabled, root, n - 1, n);
      TableIndex(n);
      WalkIsIndexed(d, end, enabled, root, n - 1);
      WalkIndexedNext(d, end, enabled, root, n, Walk(d, end, enabled, root, n - 1).value,
                      WalkOffsets(d, end, enabled, root, n - 1));
    }
  }

  lemma {:induction false} EmptyTable(root: nat)
    ensures TableOfLinks(WalkStart(root).table, [0], 0)
  {
  }

  lemma {:induction false} WalkIndexedNext(d: bytes, end: nat, enabled: bool, root: nat, n: nat, w: WalkState,
                                           offs: seq<nat>)
    requires 0 < n < Pow2(TABLE_SIZE) && |offs| == n - 1 && |w.table| == TABLE_SIZE && BitOf(n) < TABLE_SIZE
    requires WalkIndexed(d, end, enabled, root, n - 1, w, offs) && WalkStep(d, end, enabled, n, w).Some?
    ensures WalkIndexed(d, end, enabled, root, n, WalkStep(d, end, enabled, n, w).value, offs + [w.offset])
  {
    hide ReadSegment, BitOf, LowBit, Pow2, LastMultiple, TableOfLinks, Record24;
    var all, links := offs + [w.offset], [0] + (offs + [w.offset]);
    TableExtends(w.table, [0] + offs, w.offset, n - 1);
    assert [0] + offs + [w.offset] == links;
    LinksKept(w.table, links, n - 1);
    forall i | 1 <= i <= n
      ensures HeaderInPlace(d, end, all, i)
    {
      if i < n {
        assert HeaderInPlace(d, end, offs, i);
      }
    }
  }

  lemma {:induction false} TableExtends(table: seq<nat>, links: seq<nat>, next: nat, n: nat)
    requires n < |links| && TableOfLinks(table, links, n)
    ensures TableOfLinks(table, links + [next], n)
  {
  }

  /** On any image whose chain is accepted, whatever its frames hold, the lookup
      structure is exactly the walked headers: damage cannot mislead the index. */
  lemma {:induction false} CheckedIndexed(d: bytes, c: Claim)
    requires c.generation < Pow2(TABLE_SIZE) && c.root == DATA_START && CheckChain(d, c).Some?
    ensures Walk(d, c.end, c.enabled, c.root, c.generation).Some?
    ensures Indexed(d, c.end, c.generation, CheckChain(d, c).value.tail,
                    WalkOffsets(d, c.end, c.enabled, c.root, c.generation))
  {
    hide ReadSegment, Pow2, Walk, WalkOffsets, TableOfLinks, RunOfFrames;
    WalkIsIndexed(d, c.end, c.enabled, c.root, c.generation);
  }

  // --- the loops -----------------------------------------------------------

  lemma {:induction false} WalkFails(d: bytes, end: nat, enabled: bool, root: nat, n: nat, m: nat)
    requires n <= m < Pow2(TABLE_SIZE)
    ensures Walk(d, end, enabled, root, n) == None ==> Walk(d, end, enabled, root, m) == None
  {
    hide WalkStep, Pow2, BitOf;
    if n < m {
      WalkFails(d, end, enabled, root, n, m - 1);
    }
  }

  method FindBit(n: nat) returns (bit: nat)
    requires n > 0
    ensures bit == BitOf(n)
  {
    bit := 0;
    LowBitPower(n);
    var power := 1;
    while power != LowBit(n)
      invariant bit <= BitOf(n)
      invariant power == Pow2(bit)
      decreases BitOf(n) - bit
    {
      PowerGap(bit, BitOf(n));
      power := power * 2;
      bit := bit + 1;
    }
    PowersDiffer(bit, BitOf(n));
  }

  lemma {:induction false} PowerGap(a: nat, b: nat)
    ensures a < b ==> Pow2(a) < Pow2(b)
  {
    if a < b {
      PowerGap(a, b - 1);
    }
  }

  lemma {:induction false} PowersDiffer(a: nat, b: nat)
    requires Pow2(a) == Pow2(b)
    ensures a == b
  {
    PowerGap(a, b);
    PowerGap(b, a);
  }

  /** `check_segments`, with its local table of 24 offsets. */
  method CheckSegments(d: bytes, c: Claim) returns (r: Option<ChainInfo>)
    requires c.generation < Pow2(TABLE_SIZE)
    ensures r == CheckChain(d, c)
  {
    hide ReadSegment, BitOf, ReadFrame, Pow2;
    var offsets := new nat[TABLE_SIZE](_ => 0);
    var offset: nat, previous: nat, sequence: nat, live: nat := c.root, 0, 0, 0;
    var prior, spanStart: nat := 0, 1;
    var final: Option<SegmentInfo> := None;
    var n := 1;
    ghost var w := WalkStart(c.root);
    assert offsets[..] == w.table;
    while n <= c.generation
      invariant 1 <= n <= c.generation + 1
      invariant Walk(d, c.end, c.enabled, c.root, n - 1) == Some(w)
      invariant w == WalkState(offset, previous, sequence, offsets[..], prior, spanStart, live, final)
    {
      TableIndex(n);
      WalkFails(d, c.end, c.enabled, c.root, n, c.generation);
      var segment := ReadSegment(d, offset, c.end);
      if segment == None {
        return None;
      }
      var i := segment.value;
      if sequence == TWO64 - 1 || i.first <= sequence || (!c.enabled && i.first != sequence + 1) {
        return None;
      }
      var bit := FindBit(n);
      if i.headerSize == 64 {
        if i.previous != previous || i.skip != offsets[bit] {
          return None;
        }
        if !i.ordered {
          spanStart := n + 1;
        } else if i.lowest < prior {
          spanStart := n;
        }
        prior := i.highest;
      } else {
        spanStart := n + 1;
        prior := 0;
      }
      RecordOffset(offsets, bit, offset);
      previous := offset;
      live := live + (i.last - i.first + 1);
      sequence := i.last;
      offset := offset + i.headerSize + i.body;
      final := Some(i);
      w := Advance(w, n, bit, i);
      n := n + 1;
    }
    r := Finish(d, c, w, offset, previous, sequence, spanStart, live, final);
  }

  /** `for (j = 0; j <= bit; j++) offsets[j] = offset`. */
  method RecordOffset(offsets: array<nat>, bit: nat, offset: nat)
    requires offsets.Length == TABLE_SIZE && bit < TABLE_SIZE
    modifies offsets
    ensures offsets[..] == Record24(old(offsets[..]), bit, offset)
  {
    for j := 0 to bit + 1
      invariant forall k :: 0 <= k < j ==> offsets[k] == offset
      invariant forall k :: j <= k < TABLE_SIZE ==> offsets[k] == old(offsets[k])
    {
      offsets[j] := offset;
    }
  }

  method Finish(d: bytes, c: Claim, ghost w: WalkState, offset: nat, previous: nat, sequence: nat,
                spanStart: nat, live: nat, final: Option<SegmentInfo>) returns (r: Option<ChainInfo>)
    requires c.generation != 0 ==> w.final.Some?
    requires w.offset == offset && w.previous == previous && w.sequence == sequence
    requires w.spanStart == spanStart && w.live == live && w.final == final
    ensures r == Conclude(d, c, w)
  {
    hide ReadFrame, Records, LastTimeOf;
    if offset != c.end || sequence > c.last || (!c.enabled && sequence != c.last) || (c.timed && c.tail != previous) {
      return None;
    }
    var time := c.time;
    if c.generation != 0 {
      var i := final.value;
      if i.ordered && !c.enabled {
        if c.timed && c.time != i.highest {
          return None;
        }
        time := i.highest;
      } else if !c.timed {
        var frame: nat, frameSequence: nat := previous + i.headerSize, i.first;
        while frame < c.end
          invariant ScanLastTime(d, frame, c.end, frameSequence, time)
                 == ScanLastTime(d, previous + i.headerSize, c.end, i.first, c.time)
          decreases c.end - frame
        {
          match ReadFrame(d, frame, c.end, frameSequence)
          case Complete(data, count) =>
            time := LastTimeOf(Records(data, count));
            frame := frame + |data|;
            frameSequence := (frameSequence + 1) % TWO64;
          case _ =>
            return None;
        }
      }
    }
    r := Some(ChainInfo(previous, time, spanStart, live));
  }
}
