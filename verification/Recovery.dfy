/** Open as a decision over a pair of file images, and the images it accepts. */
module Recovery {
  import opened Bytes
  import opened Checksum
  import opened Frames
  import opened Segments
  import opened SkipLinks
  import opened ChainCheck
  import opened Manifests

  const MARKER_SIZE: nat := 161

  // --- scanning the WAL ----------------------------------------------------

  /** What open and append keep about the record times of the WAL. */
  datatype WalTimes = WalTimes(first: int, lowest: int, highest: int, last: int, ordered: bool)

  function NoTimes(): WalTimes { WalTimes(0, 0, 0, 0, true) }

  /** One record time, in the order open meets them. */
  function MeetTime(t: WalTimes, initial: bool, time: int): WalTimes
  {
    if initial then WalTimes(time, time, time, time, t.ordered)
    else WalTimes(t.first, if time < t.lowest then time else t.lowest,
                  if time > t.highest then time else t.highest, time, t.ordered && !(time < t.last))
  }

  function Summary(times: seq<int>): WalTimes
  {
    if times == [] then NoTimes()
    else MeetTime(Summary(times[..|times| - 1]), |times| == 1, times[|times| - 1])
  }

  /** The running summary is first, minimum, maximum, last and "is sorted". */
  lemma {:induction false} SummaryMeans(times: seq<int>)
    requires times != []
    ensures Summary(times) == WalTimes(times[0], LowestOf(times), HighestOf(times), times[|times| - 1], Sorted(times))
  {
    var front, x := times[..|times| - 1], times[|times| - 1];
    if |times| > 1 {
      SummaryMeans(front);
      assert Sorted(times) <==> Sorted(front) && front[|front| - 1] <= x;
    }
  }

  datatype Stop = AtEnd | Cut | Bad

  datatype WalScan = WalScan(end: nat, sequence: nat, times: seq<int>, stop: Stop)

  /** The frame loop of open, from `offset`, after `sequence`. */
  function ScanFrames(w: bytes, offset: nat, sequence: nat, times: seq<int>): (r: WalScan)
    decreases |w| - offset
    ensures r.end >= offset
  {
    if offset >= |w| then WalScan(offset, sequence, times, AtEnd)
    else
      match ReadFrame(w, offset, |w|, (sequence + 1) % TWO64)
      case Complete(data, count) =>
        ScanFrames(w, offset + |data|, (sequence + 1) % TWO64, times + BatchTimes(Records(data, count)))
      case Incomplete => WalScan(offset, sequence, times, Cut)
      case Damaged => WalScan(offset, sequence, times, Bad)
  }

  /** Whether the WAL starts at or below the installed sequence. */
  datatype FirstFrame = NoFrame | Stale(first: nat) | Fresh | BadFrame

  function ReadFirst(w: bytes, installed: nat): FirstFrame
    requires |w| >= 32
  {
    if |w| == 32 then NoFrame
    else if |w| < 64 || !CheckFrameHeader(w[32..64]) then BadFrame
    else
      var first := Un(w[32..64][8..16]);
      if first != 0 && first <= installed then Stale(first) else Fresh
  }

  // --- the decision --------------------------------------------------------

  /** Everything open knows before its first effect. */
  datatype Opening = Opening(
    legacy: bool, revision: nat, enabled: bool, phase: nat, root: nat,
    generation: nat, end: nat, installed: nat, installedTime: int, tail: nat, spanStart: nat, live: nat,
    stale: bool, sequence: nat, walEnd: nat, lastTime: int, times: WalTimes)

  function EmptyClaim(): Claim { Claim(0, DATA_START, 0, 0, 0, false, false, DATA_START) }

  function SelectedClaim(s: Selection): (c: Claim)
    requires !s.Unusable?
  {
    if s.Chosen? then ClaimOf(s.m) else EmptyClaim()
  }

  lemma {:induction false} SelectionBounded(d: bytes)
    requires !Select(d).Unusable?
    ensures SelectedClaim(Select(d)).generation < Pow2(TABLE_SIZE)
  {
    MostSegments();
  }

  /** The last step of the decision, given the verified chain and the scanned WAL. */
  function Decide(size: nat, s: Selection, c: Claim, chain: ChainInfo, stale: bool, scan: WalScan): Option<Opening>
  {
    var phase := if s.Chosen? then PhaseOf(s.m) else NORMAL;
    if scan.stop == Bad || (scan.stop == Cut && stale) then None
    else if stale && scan.sequence != c.last then None
    else if size > c.end && phase == NORMAL && !(c.enabled && c.generation == 0 && size == MARKER_SIZE)
            && (stale || scan.sequence == c.last) then None
    else
      var t := Summary(scan.times);
      Some(Opening(
        s.Legacy?, if s.Chosen? then RevisionOf(s.m) else 0, c.enabled, phase, c.root,
        c.generation, c.end, c.last, chain.time, chain.tail, chain.spanStart, chain.live,
        stale, scan.sequence, if stale then 32 else scan.end,
        if !stale && scan.sequence > c.last then t.last else chain.time,
        if stale then t.(ordered := true) else t))
  }

  /** What remains of the decision once the chain is verified. */
  function DecideWal(size: nat, s: Selection, c: Claim, chain: ChainInfo, w: bytes): Option<Opening>
  {
    if |w| < 32 || |w| > WAL_CAPACITY then None
    else
      match ReadFirst(w, c.last)
      case BadFrame => None
      case Stale(first) => Decide(size, s, c, chain, true, ScanFrames(w, 32, first - 1, []))
      case _ => Decide(size, s, c, chain, false, ScanFrames(w, 32, c.last, []))
  }

  /** `timelite_batches_open` up to its first effect; None is TIMELITE_INVALID_DATABASE. */
  function Recover(d: bytes, w: bytes): Option<Opening>
  {
    var s := Select(d);
    if s.Unusable? then None
    else
      var c := SelectedClaim(s);
      SelectionBounded(d);
      match CheckChain(d, c)
      case None => None
      case Some(chain) => DecideWal(|d|, s, c, chain, w)
  }

  lemma {:induction false} RecoverSplits(d: bytes, w: bytes)
    requires !Select(d).Unusable?
    ensures SelectedClaim(Select(d)).generation < Pow2(TABLE_SIZE)
    ensures var c := SelectedClaim(Select(d));
            Recover(d, w) == match CheckChain(d, c)
                             case None => None
                             case Some(chain) => DecideWal(|d|, Select(d), c, chain, w)
  {
    hide CheckChain, Select, DecideWal, Pow2;
    SelectionBounded(d);
  }

  // --- what the two files hold ---------------------------------------------

  /** A manifest together with the installed data it stands for. */
  datatype Root = Root(m: Manifest, segs: seq<Segment>, installed: nat, floor: int)

  ghost predicate Describes(m: Manifest, segs: seq<Segment>, installed: nat, floor: int)
  {
    && CountOf(m) == |segs|
    && m.end == RootOf(m) + ChainLength(segs)
    && m.last == installed
    && (if m.Retain? || m.timed then m.time == floor && m.tail == LinkTo(RootOf(m), segs, |segs|)
        else m.time == 0 && m.tail == 0)
  }

  /** Installed data as the engine or an older version of it leaves it. */
  ghost predicate ValidData(segs: seq<Segment>, installed: nat, floor: int, retained: bool)
  {
    && ValidSegments(segs)
    && Sequenced(segs, retained)
    && SequenceAfter(segs, |segs|) <= installed
    && (!retained ==> SequenceAfter(segs, |segs|) == installed)
    && (!retained ==> floor == if segs == [] then 0 else LastTimeOf(Final(segs)))
    && U64(installed) && U64(floor)
    && DATA_START + ChainLength(segs) <= DATABASE_CAPACITY
  }

  ghost predicate ValidRoot(r: Root)
  {
    && ValidData(r.segs, r.installed, r.floor, r.m.Retain?)
    && Describes(r.m, r.segs, r.installed, r.floor)
    && GoodManifest(r.m, r.m.end)
    && WithinBudget(r.m)
  }

  /** Whatever the other slot holds, if its checksum matches it is older. */
  ghost predicate Outranks(x: bytes, m: Manifest)
    requires |x| >= DATA_START
  {
    var index := 1 - RevisionOf(m) % 2;
    var other := SlotBytes(x, index);
    Sealed(other) && Un(other[8..16]) % 2 == index ==> Un(other[8..16]) < RevisionOf(m)
  }

  /** `x` is a database file in which r.m is the authoritative manifest and its
      extent holds exactly the segments r.segs. */
  ghost predicate Holds(x: bytes, r: Root)
  {
    && ValidRoot(r)
    && |x| >= DATA_START && |x| >= r.m.end
    && SlotBytes(x, RevisionOf(r.m) % 2) == ManifestBytes(r.m)
    && Outranks(x, r.m)
    && Located(x, RootOf(r.m), r.segs)
  }

  /** Bytes past the data are accounted for: part of a checkpoint whose frames
      are still in the WAL, the marker byte, or a retention in progress. */
  ghost predicate Accounted(size: nat, m: Manifest, pending: bool)
  {
    || size == m.end
    || PhaseOf(m) != NORMAL
    || (m.Retain? && m.count == 0 && size == MARKER_SIZE)
    || pending
  }

  /** The end of a WAL whose last append was cut off: nothing, or a frame prefix
      of at least a whole header. */
  ghost predicate CutTail(w: bytes, offset: nat, sequence: nat)
  {
    || |w| == offset
    || exists b, k :: TailOf(w, offset, sequence, b, k) && k >= 32
  }

  ghost predicate TailOf(w: bytes, offset: nat, sequence: nat, b: Batch, k: nat)
  {
    U64(sequence) && ValidBatch(b) && 0 < k < FrameLength(b) && |w| == offset + k
    && w[offset..] == Frame(sequence, b)[..k]
  }

  /** The case open deliberately does not repair. */
  ghost predicate ShortHeader(w: bytes, offset: nat, sequence: nat)
  {
    exists b, k :: TailOf(w, offset, sequence, b, k) && k < 32
  }

  ghost predicate WalFrames(w: bytes, first: nat, batches: seq<Batch>)
  {
    && ValidBatches(batches)
    && 32 <= |w| <= WAL_CAPACITY
    && U64(first + |batches| - 1)
    && FramesAt(w, 32, first, batches)
  }

  /** The WAL continues after the installed data. */
  ghost predicate WalContinues(w: bytes, installed: nat, batches: seq<Batch>)
  {
    && WalFrames(w, installed + 1, batches)
    && CutTail(w, 32 + BodyLength(batches), installed + 1 + |batches|)
  }

  /** The WAL repeats batches that are already installed. */
  ghost predicate WalRepeats(w: bytes, installed: nat, first: nat, batches: seq<Batch>)
  {
    && batches != [] && first >= 1
    && WalFrames(w, first, batches)
    && |w| == 32 + BodyLength(batches)
    && first + |batches| - 1 == installed
  }

  ghost predicate WalShort(w: bytes, installed: nat, batches: seq<Batch>)
  {
    && WalFrames(w, installed + 1, batches)
    && ShortHeader(w, 32 + BodyLength(batches), installed + 1 + |batches|)
  }

  // --- acceptance ----------------------------------------------------------

  lemma {:induction false} CountBound(segs: seq<Segment>, gaps: bool, n: nat)
    requires ValidSegments(segs) && Sequenced(segs, gaps) && n <= |segs|
    ensures n <= SequenceAfter(segs, n)
  {
    hide ValidBatches, BodyLength, Times, Sorted;
    if n > 0 {
      CountBound(segs, gaps, n - 1);
      assert FollowsAt(segs, n - 1, gaps) && ValidSegment(segs[n - 1]);
    }
  }

  lemma {:induction false} RootBounds(r: Root)
    requires ValidRoot(r)
    ensures |r.segs| <= MOST_SEGMENTS < Pow2(TABLE_SIZE)
    ensures DATA_START <= RootOf(r.m) <= r.m.end <= DATABASE_CAPACITY
  {
    ChainLengthBound(r.segs);
    MostSegments();
  }

  /** Slot selection finds the authoritative manifest. */
  lemma {:induction false} SelectsRoot(x: bytes, r: Root)
    requires Holds(x, r)
    ensures Select(x) == Chosen(r.m)
  {
    hide ParseSlot, ManifestBytes, Located, ValidData, Describes, GoodManifest, Un;
    var index := RevisionOf(r.m) % 2;
    GoodGrows(r.m, r.m.end, |x|);
    ManifestRoundTrip(r.m, |x|);
    assert SlotStart(index) + 64 <= DATA_START;
    assert SlotAt(x, index) == Some(r.m);
  }

  lemma {:induction false} GoodGrows(m: Manifest, size: nat, more: nat)
    requires GoodManifest(m, size) && size <= more
    ensures GoodManifest(m, more)
  {
  }

  /** Its chain passes validation, with every derived value as in the data. */
  lemma {:induction false} ChecksRoot(x: bytes, r: Root)
    requires Holds(x, r)
    ensures ClaimOf(r.m).generation < Pow2(TABLE_SIZE)
    ensures CheckChain(x, ClaimOf(r.m))
         == Some(ChainInfo(LinkTo(RootOf(r.m), r.segs, |r.segs|), r.floor, SpanStart(r.segs), LiveCount(r.segs)))
  {
    hide Located, ManifestBytes, Outranks, ChainLength, CheckChain, Pow2, Sequenced, ValidSegment;
    RootBounds(r);
    ChainAccepted(x, ClaimOf(r.m), r.segs, r.floor);
  }

  lemma {:induction false} ScanStepAt(w: bytes, first: nat, batches: seq<Batch>, j: nat, times: seq<int>)
    requires WalFrames(w, first, batches) && j < |batches| && first >= 1
    ensures ScanFrames(w, 32 + BodyLength(batches[..j]), first + j - 1, times)
         == ScanFrames(w, 32 + BodyLength(batches[..j + 1]), first + j, times + BatchTimes(batches[j]))
  {
    hide ReadFrame, Frame, FrameLength, BodyLength, Records, ValidBatch;
    ReadFrameAt(w, 32, first, batches, j, |w|);
    BodyLengthPrefix(batches, j);
    FrameSize(first + j, batches[j]);
    NextSequence(first + j);
    assert (first + j - 1 + 1) % TWO64 == first + j;
  }

  /** Scanning a run of whole frames arrives behind it with all its times. */
  lemma {:induction false} ScanWhole(w: bytes, first: nat, batches: seq<Batch>, j: nat)
    requires WalFrames(w, first, batches) && j <= |batches| && first >= 1
    ensures ScanFrames(w, 32, first - 1, [])
         == ScanFrames(w, 32 + BodyLength(batches[..j]), first + j - 1, Times(batches[..j]))
  {
    hide ScanFrames, FramesAt, ValidBatch;
    if j == 0 {
      assert batches[..0] == [];
    } else {
      ScanWhole(w, first, batches, j - 1);
      ScanStepAt(w, first, batches, j - 1, Times(batches[..j - 1]));
      assert batches[..j][..j - 1] == batches[..j - 1];
    }
  }

  lemma {:induction false} ScanContinues(w: bytes, installed: nat, batches: seq<Batch>)
    requires WalContinues(w, installed, batches)
    ensures var r := ScanFrames(w, 32, installed, []);
            && r.end == 32 + BodyLength(batches) && r.sequence == installed + |batches|
            && r.times == Times(batches) && r.stop == if |w| == r.end then AtEnd else Cut
  {
    hide ReadFrame, BodyLength, Times, ValidBatch, FramesAt, TailOf, ScanFrames;
    var o := 32 + BodyLength(batches);
    ScanWhole(w, installed + 1, batches, |batches|);
    assert batches[..|batches|] == batches;
    if |w| == o {
      ScanDoneAt(w, o, installed + |batches|, Times(batches));
    } else {
      var b, k :| TailOf(w, o, installed + 1 + |batches|, b, k) && k >= 32;
      TornAt(w, o, installed + 1 + |batches|, b, k);
      ScanCut(w, o, installed + |batches|, Times(batches));
    }
  }

  lemma {:induction false} ScanDoneAt(w: bytes, o: nat, sequence: nat, times: seq<int>)
    requires o == |w|
    ensures ScanFrames(w, o, sequence, times) == WalScan(o, sequence, times, AtEnd)
  {
  }

  lemma {:induction false} TornAt(w: bytes, o: nat, sequence: nat, b: Batch, k: nat)
    requires TailOf(w, o, sequence, b, k)
    ensures U64(sequence) && |w| == o + k && 0 < k
    ensures ReadFrame(w, o, |w|, sequence) == if k < 32 then Damaged else Incomplete
  {
    TornFrame(w, o, sequence, b, k);
  }

  lemma {:induction false} ScanCut(w: bytes, o: nat, sequence: nat, times: seq<int>)
    requires o < |w| && U64(sequence + 1)
    ensures ReadFrame(w, o, |w|, sequence + 1) == Incomplete ==>
              ScanFrames(w, o, sequence, times) == WalScan(o, sequence, times, Cut)
    ensures ReadFrame(w, o, |w|, sequence + 1) == Damaged ==>
              ScanFrames(w, o, sequence, times) == WalScan(o, sequence, times, Bad)
  {
    assert (sequence + 1) % TWO64 == sequence + 1;
  }

  lemma {:induction false} ScanRepeats(w: bytes, installed: nat, first: nat, batches: seq<Batch>)
    requires WalRepeats(w, installed, first, batches)
    ensures ScanFrames(w, 32, first - 1, []) == WalScan(|w|, installed, Times(batches), AtEnd)
  {
    ScanWhole(w, first, batches, |batches|);
    assert batches[..|batches|] == batches;
  }

  lemma {:induction false} ScanShort(w: bytes, installed: nat, batches: seq<Batch>)
    requires WalShort(w, installed, batches)
    ensures ScanFrames(w, 32, installed, []).stop == Bad
  {
    hide ReadFrame, BodyLength, Times, ValidBatch, FramesAt, TailOf, ScanFrames;
    var o := 32 + BodyLength(batches);
    ScanWhole(w, installed + 1, batches, |batches|);
    assert batches[..|batches|] == batches;
    var b, k :| TailOf(w, o, installed + 1 + |batches|, b, k) && k < 32;
    TornAt(w, o, installed + 1 + |batches|, b, k);
    ScanCut(w, o, installed + |batches|, Times(batches));
  }

  /** The first frame header tells which case applies. */
  lemma {:induction false} FirstOfFrames(w: bytes, first: nat, batches: seq<Batch>, installed: nat)
    requires WalFrames(w, first, batches) && batches != [] && first >= 1
    ensures ReadFirst(w, installed) == if first <= installed then Stale(first) else Fresh
  {
    hide Frame, CheckFrameHeader, Un, BodyLength;
    FrameAt(w, 32, first, batches, 0);
    NoFrames(batches);
    FrameSize(first, batches[0]);
    FrameHeaderAccepted(w, 32, first, batches[0]);
  }

  lemma {:induction false} NoFrames(batches: seq<Batch>)
    ensures BodyLength(batches[..0]) == 0
  {
  }

  lemma {:induction false} FirstOfContinuing(w: bytes, installed: nat, batches: seq<Batch>)
    requires WalContinues(w, installed, batches)
    ensures ReadFirst(w, installed) == if |w| == 32 then NoFrame else Fresh
  {
    hide CheckFrameHeader, Un, Frame, FramesAt, BodyLength, ReadFrame;
    NoFrames(batches);
    if batches != [] {
      hide ReadFirst;
      FirstOfFrames(w, installed + 1, batches, installed);
      FrameAt(w, 32, installed + 1, batches, 0);
    } else if |w| != 32 {
      assert batches[..0] == batches;
      var b, k :| TailOf(w, 32, installed + 1, b, k) && k >= 32;
      TornFrame(w, 32, installed + 1, b, k);
    }
  }

  function OpeningOf(r: Root, wal: seq<Batch>): Opening
    requires ValidSegments(r.segs)
  {
    Opening(false, RevisionOf(r.m), r.m.Retain?, PhaseOf(r.m), RootOf(r.m),
            |r.segs|, r.m.end, r.installed, r.floor, LinkTo(RootOf(r.m), r.segs, |r.segs|),
            SpanStart(r.segs), LiveCount(r.segs),
            false, r.installed + |wal|, 32 + BodyLength(wal),
            LastTime(r.floor, wal), Summary(Times(wal)))
  }

  /** The append floor: the last record of the WAL, or else of the installed data. */
  function LastTime(floor: int, wal: seq<Batch>): int
  {
    if wal == [] || wal[|wal| - 1] == [] then floor else LastTimeOf(wal[|wal| - 1])
  }

  /** Open accepts a database whose newest manifest is coherent and a WAL that
      continues it, and derives every handle value from their contents. */
  lemma {:induction false} RecoversContinuing(d: bytes, w: bytes, r: Root, wal: seq<Batch>)
    requires Holds(d, r) && WalContinues(w, r.installed, wal) && Accounted(|d|, r.m, wal != [])
    ensures Recover(d, w) == Some(OpeningOf(r, wal))
  {
    hide Holds, ScanFrames, ReadFirst, Times, Summary, SpanStart, LiveCount, BodyLength, CutTail, FramesAt,
      ValidBatches, LinkTo, Recover;
    DescribedBy(d, r);
    RecoversRoot(d, w, r);
    FirstOfContinuing(w, r.installed, wal);
    ScanContinues(w, r.installed, wal);
    if wal != [] {
      BatchNotEmpty(wal, |wal| - 1);
      LastOfSummary(wal);
    }
  }

  /** With the root verified, only the WAL decides. */
  lemma {:induction false} RecoversRoot(d: bytes, w: bytes, r: Root)
    requires Holds(d, r)
    ensures ValidSegments(r.segs)
    ensures Recover(d, w) == DecideWal(|d|, Chosen(r.m), ClaimOf(r.m),
              ChainInfo(LinkTo(RootOf(r.m), r.segs, |r.segs|), r.floor, SpanStart(r.segs), LiveCount(r.segs)), w)
  {
    hide Holds, CheckChain, Select, SpanStart, LiveCount, Pow2, DecideWal, ClaimOf, LinkTo;
    DescribedBy(d, r);
    SelectsRoot(d, r);
    ChecksRoot(d, r);
  }

  lemma {:induction false} DescribedBy(d: bytes, r: Root)
    requires Holds(d, r)
    ensures ValidSegments(r.segs)
    ensures CountOf(r.m) == |r.segs| && r.m.last == r.installed && RootOf(r.m) <= r.m.end <= |d|
    ensures r.m.end == RootOf(r.m) + ChainLength(r.segs)
  {
    RootBounds(r);
  }

  lemma {:induction false} LastOfSummary(wal: seq<Batch>)
    requires wal != [] && ValidBatches(wal)
    ensures Summary(Times(wal)).last == LastTimeOf(wal[|wal| - 1])
  {
    TimesOf(wal);
    SummaryMeans(Times(wal));
  }

  /** A WAL that only repeats installed batches is recognised and set aside. */
  lemma {:induction false} RecoversRepeating(d: bytes, w: bytes, r: Root, first: nat, batches: seq<Batch>)
    requires Holds(d, r) && WalRepeats(w, r.installed, first, batches) && Accounted(|d|, r.m, false)
    ensures var t := Summary(Times(batches)).(ordered := true);
            Recover(d, w) == Some(OpeningOf(r, []).(stale := true, times := t))
  {
    hide Holds, ScanFrames, ReadFirst, Times, Summary, SpanStart, LiveCount, FramesAt, ValidBatches, LinkTo, Recover;
    DescribedBy(d, r);
    RecoversRoot(d, w, r);
    FirstOfFrames(w, first, batches, r.installed);
    ScanRepeats(w, r.installed, first, batches);
  }

  /** The one crash image open refuses: 1..31 bytes of a frame header. */
  lemma {:induction false} RefusesShortHeader(d: bytes, w: bytes, r: Root, wal: seq<Batch>)
    requires Holds(d, r) && WalShort(w, r.installed, wal)
    ensures Recover(d, w) == None
  {
    hide Holds, Summary, SpanStart, LiveCount, ScanFrames, FramesAt, ValidBatches, LinkTo, Recover, BodyLength, Frame,
      CheckFrameHeader;
    DescribedBy(d, r);
    RecoversRoot(d, w, r);
    NoFrames(wal);
    if wal == [] {
      assert wal[..0] == wal;
      var b, k :| TailOf(w, 32, r.installed + 1, b, k) && k < 32;
    } else {
      FirstOfFrames(w, r.installed + 1, wal, r.installed);
      ScanShort(w, r.installed, wal);
    }
  }
}
