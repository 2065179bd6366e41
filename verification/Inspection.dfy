/** The offline inspector: a second, read-only implementation of open's decision
    that predicts the outcome and the status values after recovery. */
module Inspection {
  import opened Bytes
  import opened Checksum
  import opened Frames
  import opened Segments
  import opened SkipLinks
  import opened ChainCheck
  import opened Manifests
  import opened Recovery
  import opened Stores
  import opened CrashSafety
  import opened Calls
  import opened Cursors
  import opened Identity
  import opened Examination
  import opened Relocation
  import opened Device
  import opened Engine

  // --- one structure at a time ---------------------------------------------

  datatype Slot = Slot(present: bool, wellFormed: bool, valid: bool, retention: bool, hasTime: bool,
                       revision: nat, dataEnd: nat, last: nat, lastTime: nat, tail: nat, root: nat, count: nat,
                         phase: nat)

  function SlotManifest(s: Slot): Manifest
  {
    if s.retention then Retain(s.revision, s.count, s.dataEnd, s.last, s.lastTime, s.tail, s.root, s.phase)
    else Install(s.revision, s.dataEnd, s.last, s.lastTime, s.tail, s.hasTime)
  }

  /** The fields the two kinds of slot do not store. */
  predicate Plainly(s: Slot)
  {
    if s.retention then s.hasTime else s.count == s.revision && s.root == DATA_START
  }

  function NoSlot(): Slot
  {
    Slot(false, false, false, false, false, 0, 0, 0, 0, 0, 0, 0, 0)
  }

  /** `inspect_slot_parse`: accepts exactly the slots open accepts, with the same fields. */
  method InspectSlot(m: bytes, size: nat) returns (s: Slot)
    requires |m| == 64
    ensures s.valid <==> ParseSlot(m, size).Some?
    ensures s.valid ==> SlotManifest(s) == ParseSlot(m, size).value && Plainly(s)
    ensures s.wellFormed ==> Sealed(m)
    ensures s.valid ==> s.present && s.wellFormed
  {
    hide Un, Crc, Sealed;
    s := NoSlot();
    MagicsDiffer();
    if m == Zeros(64) {
      assert m[..8][0] == 0 && RETAIN_MAGIC[0] == 84 && INSTALL_MAGIC[0] == 84;
      return;
    }
    s := s.(present := true, revision := Un(m[8..16]), dataEnd := Un(m[16..24]), last := Un(m[24..32]),
            lastTime := Un(m[32..40]));
    var marker := Un(m[48..52]);
    if m[..8] == RETAIN_MAGIC {
      s := s.(retention := true, hasTime := true, tail := Un(m[40..44]), root := Un(m[44..48]),
              count := Un(m[52..56]), phase := Un(m[56..60]));
      if !Sealed(m) || marker != 10 {
        return;
      }
      s := s.(wellFormed := true);
      if s.revision == 0 || s.phase > 3 {
        return;
      } else if s.root < DATA_START || s.root > s.dataEnd || s.dataEnd > size || s.dataEnd > DATABASE_CAPACITY {
        return;
      } else if s.count > (s.dataEnd - s.root) / SEGMENT_MIN || s.count > s.last {
        return;
      } else if if s.count != 0 then !(s.root <= s.tail < s.dataEnd) else !(s.tail == 0 && s.root == s.dataEnd) {
        return;
      } else if if s.phase == TAIL then s.dataEnd - s.root > s.root - DATA_START else s.root != DATA_START {
        return;
      }
      s := s.(valid := true);
      return;
    }
    if m[..8] != INSTALL_MAGIC {
      return;
    }
    s := s.(count := s.revision, tail := Un(m[40..48]), root := DATA_START, hasTime := marker == 7);
    if m[32..60] != Zeros(28) && (marker != 7 || m[52..60] != Zeros(8) || s.revision == 0) {
      return;
    }
    if !Sealed(m) {
      return;
    }
    s := s.(wellFormed := true);
    if s.dataEnd < DATA_START || s.dataEnd > DATABASE_CAPACITY || s.dataEnd > size {
      return;
    } else if if s.revision == 0 then s.dataEnd != DATA_START || s.last != 0
              else
                || s.revision > MOST_SEGMENTS || s.last < s.revision
                || s.dataEnd < DATA_START + s.revision * SEGMENT_MIN {
      return;
    }
    s := s.(valid := true);
  }

  /** `inspect_segment_parse`: reads up to 64 bytes at once, accepts what `read_segment` accepts. */
  method InspectSegment(d: bytes, offset: nat, end: nat) returns (r: Option<SegmentInfo>)
    ensures r == ReadSegment(d, offset, end)
  {
    hide Un, Crc, Sealed, ReadSegment, SegmentInRange;
    ReadCases(d, offset, end);
    r := None;
    if offset > end || end - offset < 32 {
      return;
    }
    var header := if offset >= |d| then [] else d[offset..Min(|d|, offset + 64)];
    if |header| < 32 {
      return;
    }
    SubSlice(d, offset, offset + |header|, 0, 8);
    SubSlice(d, offset, offset + |header|, 0, 32);
    var magic := header[..8];
    var i: SegmentInfo;
    if magic == SPAN_MAGIC || magic == UNORDERED_MAGIC {
      if end - offset < 64 || |header| < 64 || !Sealed(header) {
        return;
      }
      assert header == d[offset..offset + 64];
      i := SegmentInfo(Un(header[8..16]), Un(header[16..24]), Un(header[24..28]), Un(header[28..36]),
                       Un(header[36..44]), Un(header[44..52]), Un(header[52..60]), 64, magic == SPAN_MAGIC);
    } else if magic == PLAIN_MAGIC {
      var short := header[..32];
      assert short == d[offset..offset + 32];
      if !Sealed(short) {
        return;
      }
      i := SegmentInfo(Un(short[8..16]), Un(short[16..24]), Un(short[24..28]), 0, TWO64 - 1, 0, 0, 32, false);
    } else {
      return;
    }
    var valid := InspectRange(i, offset, end);
    r := if valid then Some(i) else None;
  }

  /** The range rules, one after the other. */
  method InspectRange(i: SegmentInfo, offset: nat, end: nat) returns (valid: bool)
    requires offset + i.headerSize <= end
    requires i.headerSize != 64 ==> i.lowest <= i.highest && i.previous == 0 && i.skip == 0
    ensures valid == SegmentInRange(i, offset, end)
  {
    if i.first == 0 || i.last < i.first || i.body > WAL_CAPACITY - 32 || i.body > end - offset - i.headerSize {
      return false;
    }
    var frames := i.last - i.first + 1;
    if frames > i.body / 84 || i.body > frames * BATCH_SCRATCH {
      return false;
    }
    if i.headerSize == 64
       && (i.lowest > i.highest || (i.previous != 0 && (i.previous < DATA_START || i.previous >= offset))
           || (i.skip != 0 && (i.skip < DATA_START || i.skip >= offset))) {
      return false;
    }
    valid := true;
  }

  /** What `read_segment` does, by the kind of magic it finds. */
  lemma {:induction false} ReadCases(d: bytes, offset: nat, end: nat)
    ensures var r := ReadSegment(d, offset, end);
            if offset + 32 > end || offset + 32 > |d| then r == None
            else
              var magic := d[offset..offset + 8];
              if magic == SPAN_MAGIC || magic == UNORDERED_MAGIC then
                if offset + 64 > end || offset + 64 > |d| then r == None
                else
                  var h := d[offset..offset + 64];
                  && h[..8] == magic
                  && r == if Sealed(h) && SegmentInRange(LongInfo(h), offset, end) then Some(LongInfo(h)) else None
              else if magic == PLAIN_MAGIC then
                var h := d[offset..offset + 32];
                r == if Sealed(h) && SegmentInRange(ShortInfo(h), offset, end) then Some(ShortInfo(h)) else None
              else r == None
  {
    hide Un, Sealed, SegmentInRange;
  }

  /** `inspect_frame_parse`: the frame open reads, with a summary of its times. */
  method InspectFrame(d: bytes, offset: nat, end: nat, sequence: nat) returns (r: FrameRead, t: WalTimes)
    requires offset <= end
    ensures r == ReadFrame(d, offset, end, sequence)
    ensures r.Complete? ==> t == Summary(BatchTimes(Records(r.data, r.count)))
  {
    hide Un, Crc, Sealed, Summary, BatchTimes, Records;
    r, t := Damaged, NoTimes();
    if end - offset < 32 || |d| < offset + 32 {
      return;
    }
    var h := d[offset..offset + 32];
    var count := Un(h[16..20]);
    if h[..8] != BATCH_MAGIC || count == 0 || count > MAX_RECORDS || Un(h[20..24]) != 32 + count * 20
       || Un(h[24..28]) != 0 || !Sealed(h) {
      return;
    }
    if Un(h[8..16]) != sequence {
      return;
    }
    var length := Un(h[20..24]);
    if length + 32 > end - offset {
      r := Incomplete;
      return;
    }
    if |d| < offset + length + 32 {
      return;
    }
    var data := d[offset..offset + length + 32];
    var body, commit := data[..length], data[length..];
    if commit[..8] != COMMIT_MAGIC || Un(commit[8..16]) != sequence || Un(commit[16..20]) != count
       || Un(commit[20..24]) != length || !Sealed(commit) {
      return;
    }
    if Un(commit[24..28]) != Crc(body) {
      return;
    }
    r := Complete(data, count);
    EmptySummary();
    var b := Records(data, count);
    t := MeetRecords(NoTimes(), true, b, []);
    assert [] + BatchTimes(b) == BatchTimes(b);
  }

  // --- times ---------------------------------------------------------------

  lemma {:induction false} SummaryConcat(a: seq<int>, b: seq<int>)
    requires b != []
    ensures var x, y := Summary(a), Summary(b);
            && Summary(a + b).last == y.last
            && Summary(a + b).ordered == if a == [] then y.ordered else x.ordered && y.ordered && x.last <= y.first
    ensures Summary([]).ordered
  {
    SummaryMeans(a + b);
    SummaryMeans(b);
    if a == [] {
      assert a + b == b;
    } else {
      SummaryMeans(a);
      SortedJoin(a, b);
    }
  }

  lemma {:induction false} SortedJoin(a: seq<int>, b: seq<int>)
    requires a != [] && b != []
    ensures Sorted(a + b) <==> Sorted(a) && Sorted(b) && a[|a| - 1] <= b[0]
  {
    if Sorted(a + b) {
      assert forall i :: 0 <= i < |a| ==> a[i] == (a + b)[i];
      assert forall i :: 0 <= i < |b| ==> b[i] == (a + b)[|a| + i];
    }
  }

  // --- frames of a segment -------------------------------------------------

  /** `inspect_segment_frames`: how many frames could be read, and the last time. */
  method InspectFrames(d: bytes, base: nat, body: nat, first: nat, time: int) returns (frames: nat, lastTime: int)
    ensures var run := RunOfFrames(d, base, base + body, first, time);
            frames == run.count && lastTime == run.time
  {
    hide ReadFrame, Records, BatchTimes, Summary, LastTimeOf;
    frames, lastTime := 0, time;
    var position: nat, end, sequence: nat := base, base + body, first;
    ghost var run := RunOfFrames(d, base, end, first, time);
    while position < end
      invariant var rest := RunOfFrames(d, position, end, sequence, lastTime);
                run == rest.(count := rest.count + frames)
      decreases end - position
    {
      var r, t := InspectFrame(d, position, end, sequence);
      if !r.Complete? {
        return;
      }
      LastOfBatch(Records(r.data, r.count));
      lastTime := t.last;
      position := position + |r.data|;
      sequence := (sequence + 1) % TWO64;
      frames := frames + 1;
    }
  }

  lemma {:induction false} LastOfBatch(b: Batch)
    requires b != []
    ensures Summary(BatchTimes(b)).last == LastTimeOf(b)
  {
    SummaryMeans(BatchTimes(b));
  }

  /** The starting time matters only to a run without frames. */
  lemma {:induction false} RunIgnoresStart(d: bytes, frame: nat, end: nat, sequence: nat, t: int, u: int)
    ensures var x, y := RunOfFrames(d, frame, end, sequence, t), RunOfFrames(d, frame, end, sequence, u);
            x.count == y.count && x.whole == y.whole && (x.count > 0 ==> x.time == y.time)
  {
    hide ReadFrame, Records, LastTimeOf;
  }

  // --- the chain -----------------------------------------------------------

  /** What the inspector learns from the chain. */
  datatype Inspected = Inspected(live: nat, floor: int)

  /** The frames of the last segment the walk read. */
  function FinalRun(d: bytes, w: WalkState): FrameRun
    requires w.final.Some?
  {
    var i := w.final.value;
    RunOfFrames(d, w.previous + i.headerSize, w.previous + i.headerSize + i.body, i.first, 0)
  }

  /** As many frames as the last header says. */
  predicate Counted(i: SegmentInfo, run: FrameRun) { run.count == i.last - i.first + 1 }

  /** The inspector's verdict on the chain; None predicts an error. */
  function InspectorChain(d: bytes, c: Claim): Option<Inspected>
    requires c.generation < Pow2(TABLE_SIZE)
  {
    match Walk(d, c.end, c.enabled, c.root, c.generation)
    case None => None
    case Some(w) =>
      if w.offset != c.end then None
      else if c.generation == 0 then Some(Inspected(w.live, if c.timed then c.time else 0))
      else
        var i := w.final.value;
        if w.sequence > c.last || (!c.enabled && w.sequence != c.last) then None
        else if c.timed && (c.tail != w.previous || (i.ordered && !c.enabled && c.time != i.highest)) then None
        else if !c.timed && !Counted(i, FinalRun(d, w)) then None
        else Some(Inspected(w.live, if c.timed then c.time else FinalRun(d, w).time))
  }

  /** What slot validity says about a claim without segments. */
  lemma {:induction false} EmptyClaims(d: bytes)
    requires !Select(d).Unusable?
    ensures var c := SelectedClaim(Select(d));
            && c.generation < Pow2(TABLE_SIZE)
            && (c.generation == 0 ==>
                  && c.end == c.root && (c.enabled || c.last == 0)
                  && (if c.timed then c.tail == 0 else c.time == 0))
  {
    hide Un, Sealed, Pow2;
    SelectionBounded(d);
    var s := Select(d);
    if s.Chosen? {
      var index := if SlotAt(d, 0) == Some(s.m) then 0 else 1;
      assert SlotAt(d, index) == Some(s.m);
      UntimedIsZero(SlotBytes(d, index), |d|);
    }
  }

  lemma {:induction false} UntimedIsZero(s: bytes, size: nat)
    requires |s| == 64
    ensures var r := ParseSlot(s, size);
            r.Some? && CountOf(r.value) == 0 ==>
              && r.value.end == RootOf(r.value)
              && (if r.value.Install? then !r.value.timed && r.value.time == 0 && r.value.last == 0
                  else r.value.tail == 0)
  {
    hide Un, Sealed;
    if InstallValid(s, size) && Un(s[8..16]) == 0 {
      SubSlice(s, 32, 60, 0, 8);
      SubSlice(s, 32, 60, 16, 20);
      assert Zeros(28)[0..8] == Zeros(8) && Zeros(28)[16..20] == Zeros(4);
      ZeroFields();
      MagicsDiffer();
    }
  }

  ghost predicate Follows(d: bytes, c: Claim, n: nat, w: WalkState, offset: nat, previous: nat, sequence: nat,
                          table: seq<nat>,
                          live: nat, segment: Option<SegmentInfo>)
    requires n < Pow2(TABLE_SIZE)
  {
    && Walk(d, c.end, c.enabled, c.root, n) == Some(w)
    && w.offset == offset && w.previous == previous && w.sequence == sequence && w.table == table && w.live == live
    && w.final == segment
  }

  /** The walk of `inspect_segments`: after a first mismatch it goes on, but the
      prediction stands. */
  method InspectWalk(d: bytes, c: Claim)
    returns (failed: bool, offset: nat, previous: nat, sequence: nat, live: nat, floor: int,
             segment: Option<SegmentInfo>, damaged: bool,
             ghost w: WalkState, ghost table: seq<nat>)
    requires c.generation < Pow2(TABLE_SIZE)
    ensures failed <==> Walk(d, c.end, c.enabled, c.root, c.generation) == None
    ensures !failed ==> Follows(d, c, c.generation, w, offset, previous, sequence, table, live, segment)
    ensures !failed && c.generation > 0 ==> FinalSeen(d, w, damaged, floor)
  {
    hide ReadSegment, BitOf, Pow2, Walk, WalkStart, RunOfFrames, FinalSeen;
    var offsets := new nat[TABLE_SIZE](_ => 0);
    failed, offset, previous, sequence, live, floor, segment, damaged := false, c.root, 0, 0, 0, 0, None, false;
    var n := 1;
    w := WalkStart(c.root);
    WalkNothing(d, c);
    assert offsets[..] == w.table;
    while n <= c.generation
      invariant 1 <= n <= c.generation + 1
      invariant failed ==> Walk(d, c.end, c.enabled, c.root, c.generation) == None
      invariant !failed ==> Follows(d, c, n - 1, w, offset, previous, sequence, offsets[..], live, segment)
      invariant !failed && n > 1 ==> FinalSeen(d, w, damaged, floor)
    {
      TableIndex(n);
      WalkFails(d, c.end, c.enabled, c.root, n, c.generation);
      if !failed {
        WalkNext(d, c, n, w);
      }
      var read := InspectSegment(d, offset, c.end);
      if read == None {
        failed := true;
        break;
      }
      var i := read.value;
      segment := read;
      if sequence == TWO64 - 1 || i.first <= sequence || (!c.enabled && i.first != sequence + 1) {
        failed := true;
      }
      var bit := FindBit(n);
      if i.headerSize == 64 && (i.previous != previous || i.skip != offsets[bit]) {
        failed := true;
      }
      RecordOffset(offsets, bit, offset);
      live := live + (i.last - i.first + 1);
      var frames;
      ghost var before := floor;
      frames, floor := InspectFrames(d, offset + i.headerSize, i.body, i.first, floor);
      damaged := frames != i.last - i.first + 1;
      previous, sequence := offset, i.last;
      offset := offset + i.headerSize + i.body;
      if !failed {
        w := Advance(w, n, bit, i);
        SeenFinal(d, w, before, damaged, floor);
      }
      n := n + 1;
    }
    table := offsets[..];
  }

  /** What reading the last segment's frames left behind. */
  ghost predicate FinalSeen(d: bytes, w: WalkState, damaged: bool, floor: int)
  {
    && w.final.Some? && w.final.value.first <= w.final.value.last
    && damaged == !Counted(w.final.value, FinalRun(d, w))
    && (!damaged ==> floor == FinalRun(d, w).time)
  }

  lemma {:induction false} SeenFinal(d: bytes, w: WalkState, before: int, damaged: bool, floor: int)
    requires w.final.Some? && w.final.value.first <= w.final.value.last
    requires var i := w.final.value;
             var run := RunOfFrames(d, w.previous + i.headerSize, w.previous + i.headerSize + i.body, i.first, before);
             damaged == (run.count != i.last - i.first + 1) && floor == run.time
    ensures FinalSeen(d, w, damaged, floor)
  {
    hide RunOfFrames;
    var i := w.final.value;
    RunIgnoresStart(d, w.previous + i.headerSize, w.previous + i.headerSize + i.body, i.first, before, 0);
  }

  lemma {:induction false} WalkNothing(d: bytes, c: Claim)
    ensures 0 < Pow2(TABLE_SIZE) && Walk(d, c.end, c.enabled, c.root, 0) == Some(WalkStart(c.root))
    ensures WalkStart(c.root) == WalkState(c.root, 0, 0, seq(TABLE_SIZE, j => 0), 0, 1, 0, None)
  {
  }

  lemma {:induction false} WalkNext(d: bytes, c: Claim, n: nat, w: WalkState)
    requires 0 < n < Pow2(TABLE_SIZE) && Walk(d, c.end, c.enabled, c.root, n - 1) == Some(w)
    ensures |w.table| == TABLE_SIZE && BitOf(n) < TABLE_SIZE
    ensures Walk(d, c.end, c.enabled, c.root, n) == WalkStep(d, c.end, c.enabled, n, w)
  {
    hide WalkStep, BitOf;
    TableIndex(n);
  }

  /** `inspect_segments` computes that verdict, on every image. */
  method InspectChain(d: bytes, c: Claim) returns (failed: bool, live: nat, floor: int)
    requires c.generation < Pow2(TABLE_SIZE)
    ensures InspectorChain(d, c) == if failed then None else Some(Inspected(live, floor))
  {
    hide Walk, Pow2, FinalRun, Counted;
    var offset, previous, sequence, segment, damaged;
    ghost var w, table;
    failed, offset, previous, sequence, live, floor, segment, damaged, w, table := InspectWalk(d, c);
    if !failed {
      if offset != c.end {
        failed := true;
      }
      if c.generation != 0 {
        var i := segment.value;
        if sequence > c.last || (!c.enabled && sequence != c.last) {
          failed := true;
        }
        if c.timed && c.tail != previous {
          failed := true;
        }
        if c.timed && i.ordered && !c.enabled && c.time != i.highest {
          failed := true;
        }
        if !c.timed && damaged {
          failed := true;
        }
      }
    }
    if c.timed {
      floor := c.time;
    } else if c.generation == 0 {
      floor := 0;
    }
  }

  // --- the WAL -------------------------------------------------------------

  /** The frame loop of `inspect_wal`; order is judged frame by frame. */
  method InspectWalFrames(w: bytes, after: nat) returns (end: nat, sequence: nat, last: int, ordered: bool, stop: Stop)
    requires |w| >= 32
    ensures var r := ScanFrames(w, 32, after, []);
            && end == r.end && sequence == r.sequence && stop == r.stop
            && last == Summary(r.times).last && ordered == Summary(r.times).ordered
  {
    hide ReadFrame, Summary, BatchTimes, Records;
    end, sequence, stop, last, ordered := 32, after, AtEnd, 0, true;
    ghost var times: seq<int> := [];
    var frames := 0;
    EmptySummary();
    while end < |w|
      invariant 32 <= end && (frames == 0 <==> times == [])
      invariant ScanFrames(w, end, sequence, times) == ScanFrames(w, 32, after, [])
      invariant last == Summary(times).last && ordered == Summary(times).ordered && stop == AtEnd
      decreases |w| - end
    {
      var r, t := InspectFrame(w, end, |w|, (sequence + 1) % TWO64);
      if r.Incomplete? {
        stop := Cut;
        return;
      }
      if r.Damaged? {
        stop := Bad;
        return;
      }
      SummaryConcat(times, BatchTimes(Records(r.data, r.count)));
      if frames != 0 && t.first < last {
        ordered := false;
      }
      ordered, last := ordered && t.ordered, t.last;
      times := times + BatchTimes(Records(r.data, r.count));
      frames := frames + 1;
      end := end + |r.data|;
      sequence := (sequence + 1) % TWO64;
    }
  }

  /** `inspect_wal`: decides on every image what open decides after its walk. */
  method InspectWal(w: bytes, size: nat, c: Claim, phase: nat, floor: int, ghost s: Selection, ghost chain: ChainInfo)
    returns (failed: bool, stale: bool, sequence: nat, walEnd: nat, floorTime: int, ordered: bool)
    requires phase == (if s.Chosen? then PhaseOf(s.m) else NORMAL) && chain.time == floor
    ensures failed <==> DecideWal(size, s, c, chain, w) == None
    ensures !failed ==> var o := DecideWal(size, s, c, chain, w).value;
                        && stale == o.stale && sequence == o.sequence && floorTime == o.lastTime
                        && o.walEnd == (if stale then 32 else walEnd) && (stale || ordered == o.times.ordered)
  {
    hide ScanFrames, Summary, CheckFrameHeader, Un;
    failed, stale, sequence, walEnd, floorTime, ordered := false, false, c.last, 32, floor, true;
    if |w| < 32 || |w| > WAL_CAPACITY {
      failed := true;
      return;
    }
    if |w| > 32 {
      if |w| < 64 || !CheckFrameHeader(w[32..64]) {
        failed := true;
        return;
      }
      var first := Un(w[32..64][8..16]);
      if first != 0 && first <= c.last {
        stale, sequence := true, first - 1;
      }
    }
    var last, stop;
    walEnd, sequence, last, ordered, stop := InspectWalFrames(w, sequence);
    if stop == Bad || (stop == Cut && stale) {
      failed := true;
      return;
    }
    if stale && sequence != c.last {
      failed := true;
    }
    if size > c.end && phase == NORMAL && !(c.enabled && c.generation == 0 && size == MARKER_SIZE)
      && (stale || sequence == c.last) {
      failed := true;
    }
    if !stale && sequence > c.last {
      floorTime := last;
    }
  }

  // --- the inspector -------------------------------------------------------

  /** `struct inspect_state`, without what is only printed. */
  class Inspector {
    const d: bytes
    const w: bytes
    /** An error of open is predicted. */
    var failed: bool
    var legacy: bool
    /** What the active slot says about the chain. */
    var claim: Claim
    var phase: nat
    var live: nat
    var floorTime: int
    var stale: bool
    var sequence: nat
    var walEnd: nat
    var walOrdered: bool

    constructor (d: bytes, w: bytes)
      ensures this.d == d && this.w == w && Blank()
    {
      this.d, this.w := d, w;
      failed, legacy, stale, walOrdered := false, false, false, true;
      phase, claim := NORMAL, EmptyClaim();
      live, floorTime, sequence, walEnd := 0, 0, 0, 0;
    }

    ghost predicate Blank()
      reads this
    {
      !failed && !legacy && !stale && phase == NORMAL && claim == EmptyClaim() && live == 0 && floorTime == 0
    }

    /** The slots were read as open reads them. */
    ghost predicate Selecting()
      reads this
    {
      var s := Select(d);
      && !s.Unusable? && claim == SelectedClaim(s)
      && phase == (if s.Chosen? then PhaseOf(s.m) else NORMAL) && legacy == s.Legacy?
    }

    /** `inspect_manifests`: the same slot as open, on every image. */
    method InspectManifests()
      requires Blank()
      modifies this
      ensures failed <==> Select(d).Unusable?
      ensures !failed ==> Selecting()
      ensures !stale && live == 0 && floorTime == 0
    {
      hide Select, SlotAt, PhaseOf, ClaimOf, SlotManifest, Better, Chose, Un, Sealed, ParseSlot, Plainly;
      legacy := |d| == 32;
      LegacySelected(d);
      if legacy {
        return;
      }
      var active := InspectSlots(d);
      SlotSelected(d, active);
      if active == None {
        failed := |d| > DATA_START;
        return;
      }
      var a := active.value;
      claim := Claim(a.count, a.dataEnd, a.last, a.lastTime, a.tail, a.hasTime, a.retention, a.root);
      phase := if a.retention then a.phase else NORMAL;
    }

    method InspectSegments()
      requires !failed && Selecting()
      modifies this`failed, this`live, this`floorTime
      ensures claim.generation < Pow2(TABLE_SIZE)
      ensures InspectorChain(d, claim) == if failed then None else Some(Inspected(live, floorTime))
    {
      hide Select, InspectorChain, Pow2;
      SelectionBounded(d);
      failed, live, floorTime := InspectChain(d, claim);
    }

    method InspectLog(ghost chain: ChainInfo)
      requires !failed && Selecting() && chain.time == floorTime
      modifies this`failed, this`stale, this`sequence, this`walEnd, this`floorTime, this`walOrdered
      ensures failed <==> DecideWal(|d|, Select(d), claim, chain, w) == None
      ensures !failed ==> var o := DecideWal(|d|, Select(d), claim, chain, w).value;
                          && stale == o.stale && sequence == o.sequence && floorTime == o.lastTime
                          && o.walEnd == (if stale then 32 else walEnd) && (stale || walOrdered == o.times.ordered)
                          && o.root == claim.root && o.end == claim.end && o.live == chain.live
                          && o.generation == claim.generation && o.installed == claim.last
                          && (stale ==> sequence == claim.last)
    {
      hide Select, DecideWal, ClaimOf, PhaseOf;
      failed, stale, sequence, walEnd, floorTime, walOrdered := InspectWal(w, |d|, claim, phase, floorTime, Select(d),
        chain);
      if !failed {
        DecidedFields(|d|, Select(d), claim, chain, w);
      }
    }

    /** `inspect_summary`: the seven predicted status values. */
    method Predict() returns (info: StatusInfo)
      requires claim.root <= claim.end && (phase != TAIL ==> claim.root == DATA_START) && DATA_START <= claim.root
      ensures info.pending == (if stale then 0 else (sequence - claim.last) % TWO64)
      ensures info == StatusInfo(live + info.pending, live, info.pending, claim.generation,
                                 if stale then 32 else walEnd, claim.end - claim.root, floorTime)
    {
      var pending := if stale then 0 else (sequence - claim.last) % TWO64;
      var end := if phase == TAIL then DATA_START + (claim.end - claim.root) else claim.end;
      info := StatusInfo(live + pending, live, pending, claim.generation, if stale then 32 else walEnd,
                         end - DATA_START, floorTime);
    }
  }

  // --- verify --------------------------------------------------------------

  /** What the inspector predicts of any pair of images: the status values after
      recovery, or None for an error of open. */
  function Prediction(d: bytes, w: bytes): Option<StatusInfo>
  {
    var s := Select(d);
    if s.Unusable? then None
    else
      SelectionBounded(d);
      match InspectorChain(d, SelectedClaim(s))
      case None => None
      case Some(x) =>
        match DecideWal(|d|, s, SelectedClaim(s), ChainInfo(0, x.floor, 0, x.live), w)
        case None => None
        case Some(o) => Some(OpeningStatus(o))
  }

  lemma {:induction false} SelectedBounds(d: bytes)
    requires !Select(d).Unusable?
    ensures var s, c := Select(d), SelectedClaim(Select(d));
            && DATA_START <= c.root <= c.end
            && ((s.Chosen? ==> PhaseOf(s.m) != TAIL) ==> c.root == DATA_START)
  {
    hide SlotAt;
    SlotBounds(d, 0);
    SlotBounds(d, 1);
  }

  /** `inspect_verify`, behind the pair headers: computes the prediction. */
  method Verify(d: bytes, w: bytes) returns (predicted: Option<StatusInfo>)
    ensures predicted == Prediction(d, w)
  {
    hide Select, InspectorChain, Pow2, DecideWal, OpeningStatus, PhaseOf, ClaimOf;
    var v := new Inspector(d, w);
    v.InspectManifests();
    if v.failed {
      return None;
    }
    v.InspectSegments();
    if v.failed {
      return None;
    }
    ghost var chain := ChainInfo(0, v.floorTime, 0, v.live);
    v.InspectLog(chain);
    if v.failed {
      return None;
    }
    SelectedBounds(d);
    var info := v.Predict();
    predicted := Some(info);
    StatusAgrees(DecideWal(|d|, Select(d), SelectedClaim(Select(d)), chain, w).value, v.live, v.stale, v.sequence,
                 v.walEnd, v.floorTime, info);
  }

  lemma {:induction false} StatusAgrees(o: Opening, live: nat, stale: bool, sequence: nat, walEnd: nat, floor: int,
                                        info: StatusInfo)
    requires o.live == live && stale == o.stale && sequence == o.sequence && floor == o.lastTime
    requires o.walEnd == (if stale then 32 else walEnd)
    requires (o.stale ==> o.sequence == o.installed) && o.root <= o.end
    requires info.pending == (if stale then 0 else (sequence - o.installed) % TWO64)
    requires info == StatusInfo(live + info.pending, live, info.pending, o.generation, o.walEnd, o.end - o.root, floor)
    ensures info == OpeningStatus(o)
  {
  }

  lemma {:induction false} DecidedFields(size: nat, s: Selection, c: Claim, chain: ChainInfo, w: bytes)
    requires DecideWal(size, s, c, chain, w).Some?
    ensures var o := DecideWal(size, s, c, chain, w).value;
            && o.root == c.root && o.end == c.end && o.live == chain.live && o.generation == c.generation
            && o.installed == c.last
            && (o.stale ==> o.sequence == c.last)
  {
    hide ScanFrames, Summary, ReadFirst;
  }


  // --- prediction and recovery ---------------------------------------------

  /** What open derives from a coherent pair has the status of the store. */
  lemma {:induction false} CoherentStatus(d: bytes, w: bytes, m: Manifest, st: Store)
    requires Openable(d, w, m, st)
    ensures Recover(d, w).Some?
    ensures var o := Recover(d, w).value; o.root <= o.end && OpeningStatus(o) == StatusOf(st)
  {
    hide Holds, Recover, WalFits, ValidStore, Fits, SpanStart, LinkTo, LastTime, Visible;
    DescribedBy(d, GoalFor(m, st).r);
    OpeningReflects(d, w, m, st);
    StatusReflects(Recover(d, w).value, st);
  }

  /** The inspector and `check_segments` answer alike: both refuse, or both accept
      with the same count and time. */
  ghost predicate ChainAgrees(d: bytes, c: Claim)
    requires c.generation < Pow2(TABLE_SIZE)
  {
    match InspectorChain(d, c)
    case None => CheckChain(d, c) == None
    case Some(x) =>
      && CheckChain(d, c).Some?
      && CheckChain(d, c).value.live == x.live && CheckChain(d, c).value.time == x.floor
  }

  /** The manifest carries a time, or there is nothing installed. */
  predicate DatedClaim(c: Claim) { c.timed || c.generation == 0 }

  /** The last segment's frames are as its header says: for an ordered segment all of
      them, up to the header's maximum; for another, they fill the extent exactly when
      their number is right. */
  predicate FinalSound(d: bytes, w: WalkState)
    requires w.final.Some?
  {
    var i, run := w.final.value, FinalRun(d, w);
    if i.ordered then Counted(i, run) && run.time == i.highest else run.whole <==> Counted(i, run)
  }

  /** The walk refuses, or ends in the wrong place or at the wrong sequence. */
  predicate WalkRefused(d: bytes, c: Claim)
    requires c.generation < Pow2(TABLE_SIZE)
  {
    match Walk(d, c.end, c.enabled, c.root, c.generation)
    case None => true
    case Some(w) => w.offset != c.end || w.sequence > c.last || (!c.enabled && w.sequence != c.last)
  }

  /** Of the claim of any image, the exact condition of agreement: only the last
      segment of a manifest without a time can make a difference. */
  lemma {:induction false} ChainAgreesExactly(d: bytes)
    requires !Select(d).Unusable?
    ensures SelectedClaim(Select(d)).generation < Pow2(TABLE_SIZE)
    ensures var c := SelectedClaim(Select(d));
            ChainAgrees(d, c) <==>
              || DatedClaim(c) || WalkRefused(d, c)
              || FinalSound(d, Walk(d, c.end, c.enabled, c.root, c.generation).value)
  {
    hide Walk, Pow2, Select, RunOfFrames;
    EmptyClaims(d);
    var c := SelectedClaim(Select(d));
    var r := Walk(d, c.end, c.enabled, c.root, c.generation);
    if r.Some? && c.generation > 0 {
      WalkEnd(d, c, r.value);
      var i := r.value.final.value;
      RunIgnoresStart(d, r.value.previous + i.headerSize, r.value.previous + i.headerSize + i.body, i.first, c.time, 0);
    } else if r.Some? {
      WalkNothing(d, c);
    }
  }

  lemma {:induction false} WalkEnd(d: bytes, c: Claim, w: WalkState)
    requires 0 < c.generation < Pow2(TABLE_SIZE) && Walk(d, c.end, c.enabled, c.root, c.generation) == Some(w)
    ensures w.final.Some? && w.final.value.first <= w.final.value.last
    ensures w.offset == w.previous + w.final.value.headerSize + w.final.value.body
  {
    hide Walk, Pow2, LowBit, HeaderInPlace;
    WalkIsIndexed(d, c.end, c.enabled, c.root, c.generation);
  }

  /** Where the chains agree, the prediction is that of open's decision. */
  lemma {:induction false} PredictsDecision(d: bytes, w: bytes)
    requires !Select(d).Unusable? ==>
               SelectedClaim(Select(d)).generation < Pow2(TABLE_SIZE) && ChainAgrees(d, SelectedClaim(Select(d)))
    ensures Prediction(d, w) == match Recover(d, w)
                                case None => None
                                case Some(o) => Some(OpeningStatus(o))
  {
    hide Select, CheckChain, InspectorChain, DecideWal, Pow2, OpeningStatus;
    if Select(d).Unusable? {
      UnusableFails(d, w);
    } else {
      var s, c := Select(d), SelectedClaim(Select(d));
      RecoverSplits(d, w);
      if CheckChain(d, c).Some? {
        var chain := CheckChain(d, c).value;
        DecideIgnores(|d|, s, c, chain, ChainInfo(0, chain.time, 0, chain.live), w);
      }
    }
  }

  lemma {:induction false} UnusableFails(d: bytes, w: bytes)
    requires Select(d).Unusable?
    ensures Recover(d, w) == None
  {
  }

  lemma {:induction false} DecideIgnores(size: nat, s: Selection, c: Claim, x: ChainInfo, y: ChainInfo, w: bytes)
    requires x.time == y.time && x.live == y.live
    ensures var a, b := DecideWal(size, s, c, x, w), DecideWal(size, s, c, y, w);
            a.Some? == b.Some? && (a.Some? ==> OpeningStatus(a.value) == OpeningStatus(b.value))
  {
    hide ScanFrames, Decide, ReadFirst;
    DecideSame(size, s, c, x, y, false, ScanFrames(w, 32, c.last, []));
    if |w| >= 32 && ReadFirst(w, c.last).Stale? {
      StaleFirst(w, c.last);
      DecideSame(size, s, c, x, y, true, ScanFrames(w, 32, ReadFirst(w, c.last).first - 1, []));
    }
  }

  lemma {:induction false} StaleFirst(w: bytes, installed: nat)
    requires |w| >= 32 && ReadFirst(w, installed).Stale?
    ensures ReadFirst(w, installed).first >= 1
  {
  }

  lemma {:induction false} DecideSame(size: nat, s: Selection, c: Claim, x: ChainInfo, y: ChainInfo, stale: bool,
                                      scan: WalScan)
    requires x.time == y.time && x.live == y.live
    ensures var a, b := Decide(size, s, c, x, stale, scan), Decide(size, s, c, y, stale, scan);
            a.Some? == b.Some? && (a.Some? ==> OpeningStatus(a.value) == OpeningStatus(b.value))
  {
    hide Summary;
  }

  /** The prediction is what open, when no operation fails, goes on to answer. */
  ghost predicate Agrees(d: bytes, w: bytes)
  {
    Prediction(d, w) == if OpenAnswer(d, w) == Success && Recover(d, w).Some?
      then Some(OpeningStatus(Recover(d, w).value)) else None
  }

  /** A retention in progress, if there is one, can be finished: two revisions are
      left, and a tail to copy back reads from end to end. */
  predicate Finishable(d: bytes)
  {
    Select(d).Chosen? ==>
      var m := Select(d).m;
      || PhaseOf(m) == NORMAL
      || (RevisionOf(m) <= TWO64 - 1 - 2 && (PhaseOf(m) == TAIL ==> ChainReadable(d, RootOf(m), m.end)))
  }

  /** The exact condition under which the inspector predicts open, on every pair of
      images whose manifest is dated: open refuses at once, or can finish. */
  lemma {:induction false} PredictsOpen(d: bytes, w: bytes)
    requires !Select(d).Unusable? ==> DatedClaim(SelectedClaim(Select(d)))
    ensures Agrees(d, w) <==> Recover(d, w) == None || Finishable(d)
  {
    hide Select, CheckChain, InspectorChain, Pow2, Recover, Prediction, OpeningStatus, ChainReadable;
    if !Select(d).Unusable? {
      ChainAgreesExactly(d);
    }
    PredictsDecision(d, w);
    if Recover(d, w).Some? {
      RecoverFields(d, w);
    }
  }

  /** Frames of the WAL follow the installed data, so their last time counts. */
  predicate WalPending(c: Claim, w: bytes)
  {
    |w| >= 32 && !ReadFirst(w, c.last).Stale? && ScanFrames(w, 32, c.last, []).sequence > c.last
  }

  lemma {:induction false} DecideTimes(size: nat, s: Selection, c: Claim, x: ChainInfo, y: ChainInfo, w: bytes)
    requires x.live == y.live
    ensures var a, b := DecideWal(size, s, c, x, w), DecideWal(size, s, c, y, w);
            && a.Some? == b.Some?
            && (a.Some? ==>
                  (OpeningStatus(a.value) == OpeningStatus(b.value) <==> x.time == y.time || WalPending(c, w)))
  {
    hide ScanFrames, Decide, ReadFirst;
    DecideOther(size, s, c, x, y, false, ScanFrames(w, 32, c.last, []));
    if |w| >= 32 && ReadFirst(w, c.last).Stale? {
      StaleFirst(w, c.last);
      DecideOther(size, s, c, x, y, true, ScanFrames(w, 32, ReadFirst(w, c.last).first - 1, []));
    }
  }

  lemma {:induction false} DecideOther(size: nat, s: Selection, c: Claim, x: ChainInfo, y: ChainInfo, stale: bool,
                                       scan: WalScan)
    requires x.live == y.live
    ensures var a, b := Decide(size, s, c, x, stale, scan), Decide(size, s, c, y, stale, scan);
            && a.Some? == b.Some?
            && (a.Some? ==> (OpeningStatus(a.value) == OpeningStatus(b.value) <==>
                               x.time == y.time || (!stale && scan.sequence > c.last)))
  {
    hide Summary;
  }

  /** A manifest without a time: the prediction is open's answer if and only if the
      WAL is refused anyway, or the chains agree, or they differ only in a last time
      that the WAL replaces. */
  lemma {:induction false} PredictsUndated(d: bytes, w: bytes)
    requires !Select(d).Unusable? && !DatedClaim(SelectedClaim(Select(d)))
    ensures SelectedClaim(Select(d)).generation < Pow2(TABLE_SIZE)
    ensures var c := SelectedClaim(Select(d));
            Agrees(d, w) <==>
              || DecideWal(|d|, Select(d), c, ChainInfo(0, 0, 0, 0), w) == None
              || ChainAgrees(d, c)
              || (InspectorChain(d, c).Some? && CheckChain(d, c).Some? && WalPending(c, w))
  {
    hide Select, CheckChain, InspectorChain, Pow2, DecideWal, OpeningStatus, WalPending, Recover;
    var s, c := Select(d), SelectedClaim(Select(d));
    RecoverSplits(d, w);
    if Recover(d, w).Some? {
      RecoverFields(d, w);
    }
    if InspectorChain(d, c).Some? && CheckChain(d, c).Some? {
      SameLive(d, c);
    }
    var none := ChainInfo(0, 0, 0, 0);
    if InspectorChain(d, c).Some? {
      var i := InspectorChain(d, c).value;
      var x := ChainInfo(0, i.floor, 0, i.live);
      RefusalIgnores(|d|, s, c, x, none, w);
      if CheckChain(d, c).Some? {
        DecideTimes(|d|, s, c, CheckChain(d, c).value, x, w);
      }
    }
    if CheckChain(d, c).Some? {
      RefusalIgnores(|d|, s, c, CheckChain(d, c).value, none, w);
    }
  }

  lemma {:induction false} SameLive(d: bytes, c: Claim)
    requires c.generation < Pow2(TABLE_SIZE) && InspectorChain(d, c).Some? && CheckChain(d, c).Some?
    ensures InspectorChain(d, c).value.live == CheckChain(d, c).value.live
  {
    hide Walk, Pow2, RunOfFrames;
  }

  lemma {:induction false} RefusalIgnores(size: nat, s: Selection, c: Claim, x: ChainInfo, y: ChainInfo, w: bytes)
    ensures DecideWal(size, s, c, x, w).Some? == DecideWal(size, s, c, y, w).Some?
  {
    hide ScanFrames, Summary, ReadFirst;
  }

  // --- prediction for the images the protocol leaves -----------------------

  lemma {:induction false} LocatedRead(d: bytes, root: nat, segs: seq<Segment>, i: nat)
    requires ValidSegments(segs) && Located(d, root, segs) && i < |segs|
    requires root >= DATA_START && U64(root + ChainLength(segs))
    ensures var o, r := OffsetOf(root, segs, i), ReadSegment(d, OffsetOf(root, segs, i), root + ChainLength(segs));
            && r.Some? && o + r.value.headerSize + r.value.body == OffsetOf(root, segs, i + 1)
            && FramesReadable(d, o + r.value.headerSize, r.value.body, r.value.first, r.value.last)
  {
    hide ReadSegment, SegmentBytes, InfoOf, FramesAt, LowBit, LinkTo, ChainLength, Located, ValidSegment, BodyLength,
      PreviousLink, SkipLink, FramesReadable, SegmentSize, HeaderSize, LastOf, OffsetOf, SegmentCopyOps, Bounded;
    assert ValidSegment(segs[i]);
    var s, o := segs[i], OffsetOf(root, segs, i);
    var p, k := LinkTo(root, segs, i), LinkTo(root, segs, i + 1 - LowBit(i + 1));
    LocatedSegment(d, root, segs, i);
    LinksInRange(root, segs, i);
    ReadChain(d, root, segs, i);
    SegmentCopied(d, o, s, p, k, 0, 0, 0);
    InfoLinks(s, p, k);
    OffsetIncreases(root, segs, i, i + 1);
  }

  lemma {:induction false} LocatedReadable(d: bytes, root: nat, segs: seq<Segment>, i: nat)
    requires ValidSegments(segs) && Located(d, root, segs) && i <= |segs|
    requires root >= DATA_START && U64(root + ChainLength(segs))
    ensures ChainReadable(d, OffsetOf(root, segs, i), root + ChainLength(segs))
    decreases |segs| - i
  {
    hide ReadSegment, SegmentBytes, InfoOf, FramesAt, LowBit, LinkTo, ChainLength, Located, ValidSegment, BodyLength,
      PreviousLink, SkipLink, FramesReadable, SegmentSize, HeaderSize, LastOf, ChainReadable, OffsetOf,
      SegmentCopyOps;
    var end := root + ChainLength(segs);
    if i == |segs| {
      AllRead(d, root, segs);
    } else {
      LocatedRead(d, root, segs, i);
      LocatedReadable(d, root, segs, i + 1);
      ReadableNext(d, OffsetOf(root, segs, i), end);
    }
  }

  lemma {:induction false} AllRead(d: bytes, root: nat, segs: seq<Segment>)
    ensures ChainReadable(d, OffsetOf(root, segs, |segs|), root + ChainLength(segs))
  {
    assert segs[..|segs|] == segs;
  }

  lemma {:induction false} ReadableNext(d: bytes, offset: nat, end: nat)
    requires ReadSegment(d, offset, end).Some?
    requires var i := ReadSegment(d, offset, end).value;
             && FramesReadable(d, offset + i.headerSize, i.body, i.first, i.last)
             && ChainReadable(d, offset + i.headerSize + i.body, end)
    ensures ChainReadable(d, offset, end)
  {
    hide ReadSegment, FramesReadable;
  }

  /** A database a store's manifest stands in: the chains agree and a retention in
      progress can be finished, so the prediction is open's answer. */
  lemma {:induction false} PredictsProtocol(d: bytes, w: bytes, m: Manifest, st: Store)
    requires DbFits(d, m, st)
    ensures Agrees(d, w)
    ensures WalFits(w, st) ==> Prediction(d, w) == Some(StatusOf(st))
  {
    hide Select, CheckChain, InspectorChain, Pow2, Recover, Prediction, OpeningStatus, StatusOf, ChainReadable,
      DbFits, WalFits;
    HeldChain(d, m, st);
    HeldFinishable(d, m, st);
    PredictsDecision(d, w);
    if Recover(d, w).Some? {
      RecoverFields(d, w);
    }
    if WalFits(w, st) {
      CoherentStatus(d, w, m, st);
    }
  }

  lemma {:induction false} HeldFinishable(d: bytes, m: Manifest, st: Store)
    requires DbFits(d, m, st)
    ensures Select(d) == Chosen(m) && Finishable(d)
  {
    hide Located, ChainLength, ManifestBytes, Outranks, Select, ChainReadable, ValidBatches, Sequenced;
    var r := GoalFor(m, st).r;
    SelectsRoot(d, r);
    RootBounds(r);
    LocatedReadable(d, RootOf(m), st.segs, 0);
    assert st.segs[..0] == [];
    assert OffsetOf(RootOf(m), st.segs, 0) == RootOf(m) by { EmptyChain(); }
  }

  lemma {:induction false} HeldChain(d: bytes, m: Manifest, st: Store)
    requires DbFits(d, m, st)
    ensures !Select(d).Unusable? && SelectedClaim(Select(d)).generation < Pow2(TABLE_SIZE)
    ensures ChainAgrees(d, SelectedClaim(Select(d)))
  {
    hide Located, ChainLength, ManifestBytes, Outranks, Select, GoodManifest, ValidBatches, Sequenced, Pow2, Walk,
      RunOfFrames, InspectorChain, CheckChain, LinkTo;
    var r := GoalFor(m, st).r;
    var c := ClaimOf(m);
    SelectsRoot(d, r);
    ChecksRoot(d, r);
    RootBounds(r);
    ChainAgreesExactly(d);
    if !DatedClaim(c) {
      WalkAccepts(d, c.root, st.segs, c.enabled, |st.segs|);
      HeldFinal(d, m, st);
    }
  }

  lemma {:induction false} HeldFinal(d: bytes, m: Manifest, st: Store)
    requires DbFits(d, m, st) && st.segs != [] && ValidSegments(st.segs)
    requires ClaimOf(m).generation == |st.segs| < Pow2(TABLE_SIZE)
    requires var c := ClaimOf(m);
             var r := Walk(d, c.end, c.enabled, c.root, c.generation);
             r.Some? && WalkedTo(r.value, c.root, st.segs, |st.segs|)
    ensures var c := ClaimOf(m);
            var r := Walk(d, c.end, c.enabled, c.root, c.generation);
            r.value.final.Some? && FinalSound(d, r.value)
  {
    hide Located, ChainLength, ManifestBytes, Outranks, GoodManifest, ValidBatches, Sequenced, Pow2, Walk,
      RunOfFrames, LinkTo, TableOf, SpanState, LiveCount, LowBit, Lowest, Highest, BodyLength, Times, Sorted;
    var s := st.segs[|st.segs| - 1];
    assert ValidSegment(s);
    FinalScan(d, RootOf(m), st.segs, 0);
    LastInSpan(s);
  }

  lemma {:induction false} StatusReflects(o: Opening, st: Store)
    requires ValidStore(st) && ValidSegments(st.segs) && o.root <= o.end && o.end - o.root == ChainLength(st.segs)
    requires Reflects(OpenedHandle(o, st.revision, DATA_START + ChainLength(st.segs),
                                   LinkTo(DATA_START, st.segs, |st.segs|)), st)
    ensures OpeningStatus(o) == StatusOf(st)
  {
    hide ValidData, LiveCount, LinkTo, SpanStart, LastTime, SegmentEntries, ChainLength, BodyLength, Summary, Times;
    LiveEntries(st.segs);
    SmallPending(st);
  }

  lemma {:induction false} SmallPending(st: Store)
    requires ValidStore(st)
    ensures |st.wal| % TWO64 == |st.wal| && |Visible(st)| == |SegmentEntries(st.segs)| + |st.wal|
  {
    hide ValidData;
  }

  lemma {:induction false} LegacySelected(d: bytes)
    ensures Select(d).Legacy? <==> |d| == 32
  {
    hide SlotAt;
  }

  lemma {:induction false} SlotSelected(d: bytes, active: Option<Slot>)
    requires |d| != 32 && Chose(active, Better(SlotAt(d, 0), SlotAt(d, 1)))
    ensures active == None ==> Select(d) == if |d| > DATA_START then Unusable else Empty
    ensures active.Some? ==>
              var a := active.value;
              && Select(d) == Chosen(SlotManifest(a))
              && ClaimOf(SlotManifest(a))
                == Claim(a.count, a.dataEnd, a.last, a.lastTime, a.tail, a.hasTime, a.retention, a.root)
              && PhaseOf(SlotManifest(a)) == if a.retention then a.phase else NORMAL
  {
    hide SlotAt;
  }

  /** The slot loop: parity selects, the highest revision wins. */
  method InspectSlots(d: bytes) returns (active: Option<Slot>)
    ensures Chose(active, Better(SlotAt(d, 0), SlotAt(d, 1)))
  {
    hide ParseSlot, Un;
    active := None;
    for index := 0 to 2
      invariant index == 0 ==> active == None
      invariant index == 1 ==> Chose(active, SlotAt(d, 0))
      invariant index == 2 ==> Chose(active, Better(SlotAt(d, 0), SlotAt(d, 1)))
    {
      var slot := NoSlot();
      if |d| >= SlotStart(index) + 64 {
        slot := InspectSlot(SlotBytes(d, index), |d|);
        if slot.valid && slot.revision % 2 != index {
          slot := slot.(valid := false, wellFormed := false);
        }
      }
      if slot.valid && (active == None || slot.revision > active.value.revision) {
        active := Some(slot);
      }
    }
  }

  ghost predicate Chose(active: Option<Slot>, m: Option<Manifest>)
  {
    if m == None then active == None else active.Some? && SlotManifest(active.value) == m.value && Plainly(active.value)
  }

  // --- images on which it does not -----------------------------------------

  /** A database whose second slot is the only valid one. */
  function SecondSlot(header: bytes, m: Manifest, data: bytes): (d: bytes)
    requires |header| == 32 && m.time >= 0
    ensures |d| == DATA_START + |data|
  {
    header + Zeros(64) + ManifestBytes(m) + data
  }

  lemma {:induction false} SecondSelected(header: bytes, m: Manifest, data: bytes)
    requires |header| == 32 && m.time >= 0 && RevisionOf(m) % 2 == 1 && GoodManifest(m, DATA_START + |data|)
    ensures Select(SecondSlot(header, m, data)) == Chosen(m)
  {
    hide ManifestBytes, ParseSlot, GoodManifest, Un;
    var d := SecondSlot(header, m, data);
    assert SlotBytes(d, 0) == Zeros(64);
    assert SlotBytes(d, 1) == ManifestBytes(m);
    ZerosInvalid(|d|);
    ManifestRoundTrip(m, |d|);
    assert SlotAt(d, 0) == None;
  }

  lemma {:induction false} EmptyWalOpens(size: nat, s: Selection, c: Claim, chain: ChainInfo, w: bytes)
    requires |w| == 32 && s.Chosen? && (size == c.end || PhaseOf(s.m) != NORMAL)
    ensures DecideWal(size, s, c, chain, w).Some?
  {
    hide ReadFrame, Summary;
  }

  /** The last revision of an empty database in PREPARE: open accepts the pair, then
      answers EOVERFLOW, and the inspector predicts success. */
  lemma {:induction false} OverflowImage(header: bytes, w: bytes)
    requires |header| == 32 && |w| == 32
    ensures var d := SecondSlot(header, Retain(TWO64 - 1, 0, DATA_START, 0, 0, 0, DATA_START, PREPARE), []);
            && DatedClaim(SelectedClaim(Select(d))) && OpenAnswer(d, w) == Overflow
            && Prediction(d, w).Some? && !Agrees(d, w)
  {
    hide ManifestBytes, DecideWal, Select, CheckChain, InspectorChain, Pow2, OpeningStatus, Prediction, Recover;
    var m := Retain(TWO64 - 1, 0, DATA_START, 0, 0, 0, DATA_START, PREPARE);
    var d := SecondSlot(header, m, []);
    SecondSelected(header, m, []);
    EmptyRetained(d, ClaimOf(m));
    RecoverSplits(d, w);
    EmptyWalOpens(|d|, Chosen(m), ClaimOf(m), CheckChain(d, ClaimOf(m)).value, w);
    RecoverFields(d, w);
    ChainAgreesExactly(d);
    PredictsDecision(d, w);
  }

  lemma {:induction false} EmptyRetained(d: bytes, c: Claim)
    requires c.generation == 0 && c.end == c.root && c.tail == 0 && c.enabled
    ensures 0 < Pow2(TABLE_SIZE) && CheckChain(d, c).Some?
  {
    assert Pow2(TABLE_SIZE) > 0;
  }

  const Single: Segment := Segment(Span, 1, [[Record(0, 0, 0)]])

  lemma {:induction false} SingleValid()
    ensures ValidSegment(Single) && SegmentSize(Single) == 148 && BodyLength(Single.batches) == 84
    ensures HeaderSize(Single) == 64
    ensures ValidBatch(Single.batches[0]) && |HeaderBytes(Single, 0, 0)| == 64
    ensures InfoOf(Single, 0, 0).first == 1 && InfoOf(Single, 0, 0).last == 1
  {
    var b := Single.batches;
    assert b[..0] == [];
    assert [] + [b[0]] == b;
    assert ValidBatch(b[0]);
    BodySnoc(1, [], b[0]);
    NoBody();
    assert Times(b) == [0];
  }

  /** Its segment with the first byte of the frame changed. */
  function DamagedData(): bytes
    requires ValidSegment(Single) && ValidBatch(Single.batches[0])
  {
    HeaderBytes(Single, 0, 0) + Frame(1, Single.batches[0])[0 := 0]
  }

  /** An ordered segment under a manifest without a time, its frame damaged: open
      trusts the header and succeeds, and the inspector predicts failure. */
  lemma {:induction false} UndatedImage(header: bytes, w: bytes)
    requires |header| == 32 && |w| == 32
    ensures ValidSegment(Single) && ValidBatch(Single.batches[0])
    ensures var d := SecondSlot(header, Install(1, 308, 1, 0, 0, false), DamagedData());
            OpenAnswer(d, w) == Success && Prediction(d, w) == None && !Agrees(d, w)
  {
    hide ManifestBytes, DecideWal, Select, CheckChain, InspectorChain, Pow2, OpeningStatus, Recover, HeaderBytes,
      Frame, Walk, FinalRun, DamagedData;
    SingleValid();
    DamagedSize();
    var m := Install(1, 308, 1, 0, 0, false);
    var d := SecondSlot(header, m, DamagedData());
    SecondSelected(header, m, DamagedData());
    DamagedChain(header, d);
    RecoverSplits(d, w);
    EmptyWalOpens(|d|, Chosen(m), ClaimOf(m), CheckChain(d, ClaimOf(m)).value, w);
    RecoverFields(d, w);
  }

  lemma {:induction false} DamagedSize()
    requires ValidSegment(Single) && ValidBatch(Single.batches[0])
    ensures |DamagedData()| == 148
  {
    SingleValid();
  }

  lemma {:induction false} DamagedReads(header: bytes, d: bytes)
    requires |header| == 32 && ValidSegment(Single) && ValidBatch(Single.batches[0])
    requires d == SecondSlot(header, Install(1, 308, 1, 0, 0, false), DamagedData())
    ensures ReadSegment(d, DATA_START, 308) == Some(InfoOf(Single, 0, 0))
    ensures ReadFrame(d, 224, 308, 1) == Damaged
  {
    hide ManifestBytes, HeaderBytes, Frame, ReadSegment, ReadFrame, InfoOf;
    SingleValid();
    var f := Frame(1, Single.batches[0]);
    assert d[DATA_START..DATA_START + 64] == HeaderBytes(Single, 0, 0);
    assert d[224..224 + 84] == f[0 := 0];
    FirstByte(Single.batches[0]);
    HeaderRoundTrip(d, DATA_START, 308, Single, 0, 0);
    DamageDetected(d, 224, 308, 1, Single.batches[0], 0, 0);
  }

  lemma {:induction false} FirstByte(b: Batch)
    requires ValidBatch(b)
    ensures Frame(1, b)[0] == 84
  {
    hide Payload, Commit, Crc, Le;
    assert HeadFields(1, |b|)[0] == 84;
  }

  lemma {:induction false} DamagedChain(header: bytes, d: bytes)
    requires |header| == 32 && ValidSegment(Single) && ValidBatch(Single.batches[0])
    requires d == SecondSlot(header, Install(1, 308, 1, 0, 0, false), DamagedData())
    ensures 1 < Pow2(TABLE_SIZE)
    ensures var c := ClaimOf(Install(1, 308, 1, 0, 0, false)); CheckChain(d, c).Some? && InspectorChain(d, c) == None
  {
    hide ReadSegment, ReadFrame, SecondSlot, DamagedData, Lowest, Highest, BodyLength, Times, Sorted, ValidBatch;
    SingleValid();
    DamagedReads(header, d);
    var c := ClaimOf(Install(1, 308, 1, 0, 0, false));
    FewSegments(1);
    WalkNothing(d, c);
    WalkNext(d, c, 1, WalkStart(c.root));
    assert BitOf(1) == 0;
  }
}
