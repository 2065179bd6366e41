/** The handle as each call updates it, against the handle open would derive. */
module Maintenance {
  import opened Bytes
  import opened Frames
  import opened Segments
  import opened SkipLinks
  import opened ChainCheck
  import opened Recovery
  import opened Stores
  import opened Cursors

  // --- append --------------------------------------------------------------

  function AppendedTimes(t: WalTimes, initial: bool, first: int, last: int): WalTimes
  {
    var u := if initial then t.(first := first, lowest := first, highest := last) else t;
    u.(lowest := if first < u.lowest then first else u.lowest, highest := if last > u.highest then last else u.highest)
  }

  function AppendedHandle(h: Handle, b: Batch): Handle
    requires b != []
  {
    h.(times := AppendedTimes(h.times, h.end == 32, b[0].time, LastTimeOf(b)),
       lastTime := LastTimeOf(b), end := h.end + FrameLength(b), sequence := h.sequence + 1)
  }

  lemma {:induction false} ExtremesConcat(a: seq<int>, b: seq<int>)
    requires a != [] && b != []
    ensures LowestOf(a + b) == Min(LowestOf(a), LowestOf(b)) && HighestOf(a + b) == Max(HighestOf(a), HighestOf(b))
  {
    var front := b[..|b| - 1];
    assert (a + b)[..|a + b| - 1] == a + front;
    if front == [] {
      assert a + front == a;
    } else {
      ExtremesConcat(a, front);
    }
  }

  lemma {:induction false} SortedConcat(a: seq<int>, b: seq<int>)
    requires a != [] && b != [] && Sorted(b) && a[|a| - 1] <= b[0]
    ensures Sorted(a + b) <==> Sorted(a)
  {
    if Sorted(a + b) {
      assert forall i :: 0 <= i < |a| ==> a[i] == (a + b)[i];
    }
  }

  lemma {:induction false} TimesSnoc(wal: seq<Batch>, b: Batch)
    ensures Times(wal + [b]) == Times(wal) + BatchTimes(b)
    ensures wal == [] ==> Times(wal) == []
  {
    assert (wal + [b])[..|wal|] == wal;
  }

  lemma {:induction false} AppendedSummary(wal: seq<Batch>, b: Batch, t: WalTimes)
    requires ValidBatches(wal) && ValidBatch(b) && Sorted(BatchTimes(b))
    requires wal != [] ==> LastTimeOf(wal[|wal| - 1]) <= b[0].time && t.(last := 0) == Summary(Times(wal)).(last := 0)
    requires wal == [] ==> t.ordered
    ensures AppendedTimes(t, wal == [], b[0].time, LastTimeOf(b)).(last := 0) == Summary(Times(wal + [b])).(last := 0)
  {
    hide Times, Summary, LowestOf, HighestOf, Sorted, ValidBatch;
    var x, y := Times(wal), BatchTimes(b);
    TimesSnoc(wal, b);
    TimesOf(wal);
    BatchExtremes(b);
    SummaryMeans(x + y);
    if wal == [] {
      assert x + y == y;
    } else {
      SummaryMeans(x);
      ExtremesConcat(x, y);
      SortedConcat(x, y);
    }
  }

  lemma {:induction false} BatchExtremes(b: Batch)
    requires ValidBatch(b) && Sorted(BatchTimes(b))
    ensures b != [] && LowestOf(BatchTimes(b)) == b[0].time == BatchTimes(b)[0]
    ensures HighestOf(BatchTimes(b)) == LastTimeOf(b) == BatchTimes(b)[|b| - 1]
  {
    Extremes(BatchTimes(b));
  }

  /** After an append the handle holds what open would derive. */
  lemma {:induction false} AppendReflects(h: Handle, st: Store, b: Batch)
    requires ValidStore(st) && ValidSegments(st.segs) && Reflects(h, st) && AppendAllowed(st, b)
    ensures Reflects(AppendedHandle(h, b), Appended(st, b))
  {
    hide Times, Summary, SpanStart, LiveCount, ChainLength, Sorted, BodyLength, AppendedTimes, LinkTo, ValidStore,
      AppendAllowed, LastTime, LastTimeOf;
    AppendFacts(st, b);
    AppendedSummary(st.wal, b, h.times);
  }

  lemma {:induction false} AppendFacts(st: Store, b: Batch)
    requires ValidStore(st) && AppendAllowed(st, b)
    ensures ValidBatches(st.wal) && ValidBatch(b) && Sorted(BatchTimes(b))
    ensures BodyLength(st.wal + [b]) == BodyLength(st.wal) + FrameLength(b)
    ensures BodyLength(st.wal) == 0 <==> st.wal == []
    ensures LastTime(st.floor, st.wal + [b]) == LastTimeOf(b)
    ensures st.wal != [] ==> st.wal[|st.wal| - 1] != [] && LastTimeOf(st.wal[|st.wal| - 1]) <= b[0].time
  {
    hide ValidData, BodyLength, Sorted, BatchTimes;
    BodySnoc(1, st.wal, b);
    EmptyWal(st);
    if st.wal != [] {
      BatchNotEmpty(st.wal, |st.wal| - 1);
    }
  }

  lemma {:induction false} EmptyWal(st: Store)
    ensures BodyLength(st.wal) == 0 <==> st.wal == []
  {
  }

  // --- checkpoint ----------------------------------------------------------

  /** The times a new segment is compared with: the floor, or after retention
      the maximum of the last segment that is left. */
  ghost predicate PriorOf(st: Store, prior: int)
    requires ValidSegments(st.segs)
  {
    if st.retained && st.segs != [] then prior == InfoAt(DATA_START, st.segs, |st.segs| - 1).highest
    else prior == st.floor
  }

  function InstalledHandle(h: Handle, prior: int): Handle
    requires h.end >= 32 && h.sequence >= h.installed
  {
    var first := if h.times.first < prior then h.generation + 1 else h.spanStart;
    h.(spanStart := if !h.times.ordered then h.generation + 2 else first,
       installedTime := h.lastTime, generation := h.generation + 1, revision := h.revision + 1,
       live := h.live + (h.sequence - h.installed), dataEnd := h.dataEnd + 64 + (h.end - 32),
       lastSegment := h.dataEnd, installed := h.sequence)
  }

  function ReclaimedHandle(h: Handle): Handle
  {
    h.(end := 32, times := h.times.(ordered := true))
  }

  /** The span start kept by checkpoint is the one the header walk finds. */
  lemma {:induction false} CheckpointSpan(st: Store, first: int, prior: int, start: nat)
    requires ValidStore(st) && ValidSegments(st.segs) && st.wal != [] && ValidSegment(NewSegment(st))
    requires ValidSegments(Checkpointed(st).segs)
    requires PriorOf(st, prior) && start == SpanStart(st.segs)
    requires first == st.wal[0][0].time
    ensures SpanStart(Checkpointed(st).segs)
         == if !Sorted(Times(st.wal)) then |st.segs| + 2 else if first < prior then |st.segs| + 1 else start
  {
    hide Times, Sorted, Highest, Lowest, ValidBatches, BodyLength, ValidData, LastTime, ValidSegment, LinkTo,
      SequenceAfter, Sequenced;
    var s, after := NewSegment(st), Checkpointed(st).segs;
    assert after[..|st.segs|] == st.segs && after[|st.segs|] == s;
    PriorMaximum(st.segs);
    LastInSpan(s);
    FirstTime(st);
    FloorOf(st);
    if st.segs != [] {
      var last := st.segs[|st.segs| - 1];
      assert ValidSegment(last);
      LastInSpan(last);
      PlainMaximum(st, last);
    }
  }

  lemma {:induction false} FirstTime(st: Store)
    requires ValidStore(st) && st.wal != []
    ensures st.wal[0] != [] && U64(st.wal[0][0].time)
  {
    assert ValidBatch(st.wal[0]);
  }

  lemma {:induction false} FloorOf(st: Store)
    requires ValidStore(st) && ValidSegments(st.segs)
    ensures !st.retained ==> st.floor == if st.segs == [] then 0 else LastTimeOf(Final(st.segs))
  {
  }

  lemma {:induction false} PlainMaximum(st: Store, s: Segment)
    requires ValidSegment(s)
    ensures forall p, k :: InfoOf(s, p, k).highest == if s.kind == Plain then TWO64 - 1 else Highest(s)
  {
  }

  /** After a checkpoint the handle holds what open would derive. */
  lemma {:induction false} CheckpointReflects(h: Handle, st: Store, prior: int)
    requires ValidStore(st) && ValidSegments(st.segs) && Reflects(h, st) && CheckpointAllowed(st) && PriorOf(st, prior)
    requires ValidSegments(Checkpointed(st).segs)
    ensures h.end >= 32 && h.sequence >= h.installed
    ensures Reflects(ReclaimedHandle(InstalledHandle(h, prior)), Checkpointed(st))
  {
    hide Times, Summary, SpanStart, Sorted, BodyLength, PriorOf, LastTime, NewSegment, ChainLength, ValidSegments,
      LiveCount, ValidStore, LinkTo;
    CheckpointFacts(st);
    WalSummary(st);
    CheckpointSpan(st, h.times.first, prior, h.spanStart);
  }

  lemma {:induction false} CheckpointFacts(st: Store)
    requires ValidStore(st) && ValidSegments(st.segs) && st.wal != []
    ensures ValidSegment(NewSegment(st)) && BodyLength([]) == 0
    ensures var after := Checkpointed(st);
            && ChainLength(after.segs) == ChainLength(st.segs) + 64 + BodyLength(st.wal)
            && LiveCount(after.segs) == LiveCount(st.segs) + |st.wal|
            && LinkTo(DATA_START, after.segs, |after.segs|) == DATA_START + ChainLength(st.segs)
            && LastTime(after.floor, after.wal) == after.floor
  {
    hide NewSegment, ChainLength, LiveCount, BodyLength, ValidData, ValidSegment, ValidBatches;
    NewSegmentValid(st);
    NewSegmentShape(st);
    ChainSnoc(DATA_START, st.segs, NewSegment(st));
    LiveSnoc(st.segs, NewSegment(st));
    NoBody();
    var after := Checkpointed(st);
    assert after.segs[..|st.segs|] == st.segs;
  }

  lemma {:induction false} NewSegmentShape(st: Store)
    requires st.wal != []
    ensures SegmentSize(NewSegment(st)) == 64 + BodyLength(st.wal) && NewSegment(st).batches == st.wal
  {
  }

  lemma {:induction false} LiveSnoc(segs: seq<Segment>, s: Segment)
    ensures LiveCount(segs + [s]) == LiveCount(segs) + |s.batches|
  {
    assert (segs + [s])[..|segs|] == segs;
  }

  lemma {:induction false} WalSummary(st: Store)
    requires ValidStore(st) && st.wal != []
    ensures st.wal[0] != []
    ensures Summary(Times(st.wal)).first == st.wal[0][0].time && Summary(Times(st.wal)).ordered == Sorted(Times(st.wal))
    ensures var t := Times(st.wal); t != [] && Summary(t).lowest == LowestOf(t) && Summary(t).highest == HighestOf(t)
  {
    TimesOf(st.wal);
    SummaryMeans(Times(st.wal));
    assert ValidBatch(st.wal[0]);
  }

  // --- retention -----------------------------------------------------------

  function ExpiredHandle(h: Handle, segments: nat, revision: nat, live: nat, end: nat, tail: nat, span: nat): Handle
  {
    h.(generation := segments, revision := revision, retention := true, live := live, dataEnd := end,
       lastSegment := tail, spanStart := span)
  }

  lemma {:induction false} ExpireReflects(h: Handle, st: Store, cutoff: int)
    requires ValidStore(st) && ValidSegments(st.segs) && Reflects(h, st)
    ensures var kept := Kept(st.segs, cutoff);
            Reflects(ExpiredHandle(h, |kept|, st.revision + 4, LiveCount(kept), DATA_START + ChainLength(kept),
                                   LinkTo(DATA_START, kept, |kept|), SpanStart(kept)), Expired(st, cutoff))
  {
    hide SpanStart, LiveCount, ChainLength, LinkTo, Kept, Summary, Times;
  }
}
