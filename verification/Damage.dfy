/** Damage to a pair that was in order: what open refuses instead of showing less. */
module Damage {
  import opened Bytes
  import opened Checksum
  import opened Frames
  import opened Segments
  import opened SkipLinks
  import opened ChainCheck
  import opened Manifests
  import opened Storage
  import opened Recovery
  import opened Stores
  import opened Scripts
  import opened CrashSafety
  import opened Calls
  import opened Runs
  import opened Effects
  import Acceptance

  // --- the newest manifest -------------------------------------------------

  /** Once the slot of m' fails its checksum, the manifest in the other slot is chosen. */
  lemma {:induction false} ChoosesOlder(d: bytes, m: Manifest, i: nat)
    requires |d| > DATA_START && m.time >= 0 && GoodManifest(m, m.end) && m.end <= |d| && i < 2
    requires RevisionOf(m) % 2 == 1 - i && SlotBytes(d, 1 - i) == ManifestBytes(m) && !Sealed(SlotBytes(d, i))
    ensures Select(d) == Chosen(m)
  {
    hide ManifestBytes, GoodManifest, Un, Sealed, ParseSlot, SlotBytes;
    GoodGrows(m, m.end, |d|);
    ManifestRoundTrip(m, |d|);
    assert SlotStart(i) + 64 <= DATA_START && SlotStart(1 - i) + 64 <= DATA_START;
    assert ParseSlot(SlotBytes(d, i), |d|) == None;
  }

  /** A checkpoint has moved the batches of the WAL into the database and emptied it.
      If its manifest is damaged afterwards, however, so that the checksum fails, open
      answers INVALID_DATABASE: it does not fall back to the older manifest and the
      fewer batches of that one. */
  lemma {:induction false} DamagedSlotRefused(s: System, s': System, S: set<Store>, d: bytes)
    requires Invariant(s, S) && Step(s, Done(Checkpoint), s') && s'.mode.Usable?
    requires var start := SlotStart(RevisionOf(s'.mode.m) % 2);
             && |d| == |s'.disk.db.stable| >= DATA_START
             && d[..start] == s'.disk.db.stable[..start] && d[start + 64..] == s'.disk.db.stable[start + 64..]
             && !Sealed(d[start..start + 64])
    ensures Recover(d, s'.disk.wal.stable) == None
  {
    hide Ready, TearsDetected, Execute, CheckpointOps, ValidStore, ValidSegments, Sealed, Recover, Select,
      InstallManifest, Checkpointed, ManifestBytes, GoodManifest, CheckpointAllowed, ChainLength;
    var m, st := s.mode.m, s.mode.st;
    WritableStore(st);
    EffectiveWal(st);
    CheckpointFile(s.disk, m, st);
    CheckpointSafely(s.disk, m, st);
    var i := RevisionOf(s'.mode.m) % 2;
    OtherSlot(s'.disk.db.stable, d, i);
    GrownFile(s.disk, m, st);
    ChoosesOlder(d, m, i);
    EmptiedWal(s'.disk, s'.mode.m, st);
    Acceptance.OrphanRefused(d, s'.disk.wal.stable, m);
  }

  lemma {:induction false} OtherSlot(x: bytes, d: bytes, i: nat)
    requires i < 2 && |d| == |x| >= DATA_START
    requires var start := SlotStart(i); d[..start] == x[..start] && d[start + 64..] == x[start + 64..]
    ensures SlotBytes(d, 1 - i) == SlotBytes(x, 1 - i) && SlotBytes(d, i) == d[SlotStart(i)..SlotStart(i) + 64]
  {
    var start, other := SlotStart(i), SlotStart(1 - i);
    if i == 1 {
      SubSlice(d, 0, start, other, other + 64);
      SubSlice(x, 0, start, other, other + 64);
    } else {
      SubSlice(d, start + 64, |d|, 0, 64);
      SubSlice(x, start + 64, |x|, 0, 64);
      assert d[start + 64..] == d[start + 64..|d|] && x[start + 64..] == x[start + 64..|x|];
    }
  }

  lemma {:induction false} GrownFile(disk: Disk, m: Manifest, st: Store)
    requires Ready(disk, m, st) && CheckpointAllowed(st) && ValidSegment(NewSegment(st))
    requires ValidSegments(st.segs) && ValidSegments(Checkpointed(st).segs)
    ensures PhaseOf(m) == 0 && m.end + 64 < DATA_START + ChainLength(Checkpointed(st).segs) && m.end >= DATA_START
  {
    hide DbFits, WalExact, ChainLength, BodyLength, ValidSegment, NewSegment, ValidStore;
    ReadyStanding(disk, m, st);
    NewSegmentSize(st);
    SomeBody(st.wal);
    ChainSnoc(DATA_START, st.segs, NewSegment(st));
  }

  lemma {:induction false} EmptiedWal(disk: Disk, m: Manifest, st: Store)
    requires st.wal != [] && Ready(disk, m, Checkpointed(st))
    ensures |disk.wal.stable| == 32
  {
    hide DbFits, WalFrames, BodyLength, NewSegment;
    NoBody();
  }

  lemma {:induction false} ManifestBroken(m: Manifest, j: nat, x: byte)
    requires m.time >= 0 && j < 64 && x != ManifestBytes(m)[j]
    ensures !Sealed(ManifestBytes(m)[j := x])
  {
    hide Seal, Sealed, CommonFields, TimedFields, RetainFields;
    match m
    case Install(g, end, last, time, tail, timed) =>
      SealBroken(CommonFields(INSTALL_MAGIC, g, end, last) + if timed then TimedFields(time, tail) else Zeros(28), j,
                 x);
    case Retain(revision, count, end, last, time, tail, root, phase) =>
      SealBroken(CommonFields(RETAIN_MAGIC, revision, end, last) + RetainFields(time, tail, root, count, phase), j, x);
  }

  /** In particular any single byte of it. */
  lemma {:induction false} DamagedSlotByte(s: System, s': System, S: set<Store>, j: nat, x: byte)
    requires Invariant(s, S) && Step(s, Done(Checkpoint), s') && s'.mode.Usable?
    requires var start := SlotStart(RevisionOf(s'.mode.m) % 2);
             start <= j < start + 64 && j < |s'.disk.db.stable| && x != s'.disk.db.stable[j]
    ensures Recover(s'.disk.db.stable[j := x], s'.disk.wal.stable) == None
  {
    hide Ready, TearsDetected, Execute, CheckpointOps, ValidStore, ValidSegments, Sealed, Recover, InstallManifest,
      Checkpointed, ManifestBytes, GoodManifest, CheckpointAllowed, ChainLength;
    WritableStore(s.mode.st);
    EffectiveWal(s.mode.st);
    CheckpointFile(s.disk, s.mode.m, s.mode.st);
    var d, start := s'.disk.db.stable, SlotStart(RevisionOf(s'.mode.m) % 2);
    var y := d[j := x];
    assert y[start..start + 64] == d[start..start + 64][j - start := x];
    ManifestBroken(s'.mode.m, j - start, x);
    assert y[..start] == d[..start] && y[start + 64..] == d[start + 64..];
    DamagedSlotRefused(s, s', S, y);
  }

  // --- frames of the WAL ---------------------------------------------------

  lemma {:induction false} FrameHolding(batches: seq<Batch>, p: nat) returns (j: nat)
    requires p < BodyLength(batches)
    ensures j < |batches| && BodyLength(batches[..j]) <= p < BodyLength(batches[..j]) + FrameLength(batches[j])
    decreases |batches|
  {
    var n := |batches| - 1;
    if p < BodyLength(batches[..n]) {
      j := FrameHolding(batches[..n], p);
      assert batches[..n][..j] == batches[..j];
    } else {
      j := n;
    }
  }

  lemma {:induction false} FramePrefix(d: bytes, base: nat, first: nat, batches: seq<Batch>, j: nat)
    requires ValidBatches(batches) && FramesAt(d, base, first, batches) && j <= |batches|
    ensures FramesAt(d, base, first, batches[..j])
    decreases |batches|
  {
    hide BodyBytes, BodyLength, Frame, ValidBatch;
    if j == |batches| {
      assert batches[..j] == batches;
    } else {
      var front, b := batches[..|batches| - 1], batches[|batches| - 1];
      assert batches == front + [b];
      assert ValidBatch(b);
      BodySnoc(first, front, b);
      BodyTotal(first, front);
      var n := BodyLength(front);
      SubSlice(d, base, base + BodyLength(batches), 0, n);
      assert d[base..base + BodyLength(batches)][0..n] == BodyBytes(first, front);
      FramePrefix(d, base, first, front, j);
      assert front[..j] == batches[..j];
    }
  }

  /** The frames before the damaged byte are still there. */
  lemma {:induction false} FramesBefore(w: bytes, y: bytes, first: nat, batches: seq<Batch>, j: nat)
    requires WalFrames(w, first, batches) && j < |batches| && |y| == |w| && first >= 1
    requires var o := 32 + BodyLength(batches[..j]); o <= |w| && y[..o] == w[..o]
    ensures WalFrames(y, first, batches[..j])
  {
    hide BodyBytes, BodyLength, ValidBatch;
    var front := batches[..j];
    var o := 32 + BodyLength(front);
    FramePrefix(w, 32, first, batches, j);
    SubSlice(y, 0, o, 32, o);
    SubSlice(w, 0, o, 32, o);
  }

  /** Any byte of any committed frame: open refuses, it does not drop the frame. */
  lemma {:induction false} DamagedWalRefused(disk: Disk, m: Manifest, st: Store, i: nat, x: byte)
    requires Ready(disk, m, st) && 32 <= i < |disk.wal.stable| && x != disk.wal.stable[i]
    ensures Recover(disk.db.stable, disk.wal.stable[i := x]) == None
  {
    hide DbFits, WalFrames, Holds, BodyLength, Recover, ScanFrames, ReadFirst, SpanStart, LiveCount, LinkTo,
      FrameLength, ReadFrame, Frame, FramesAt, Times, Summary;
    var w, y := disk.wal.stable, disk.wal.stable[i := x];
    var first := st.installed + 1;
    DbHolds(disk.db.stable, m, st);
    RecoversRoot(disk.db.stable, y, GoalFor(m, st).r);
    DescribedBy(disk.db.stable, GoalFor(m, st).r);
    var j := FrameHolding(st.wal, i - 32);
    DamagedScan(w, first, st.wal, j, i, x);
    if i < 64 {
      DamagedFirst(w, first, st.wal, i, x, st.installed);
    } else {
      SameFirst(w, y, st.installed);
      SomeWal(w, first, st.wal, i);
      FirstOfFrames(w, first, st.wal, st.installed);
    }
  }

  lemma {:induction false} SomeWal(w: bytes, first: nat, batches: seq<Batch>, i: nat)
    requires WalFrames(w, first, batches) && |w| == 32 + BodyLength(batches) && 32 <= i < |w|
    ensures batches != []
  {
  }

  lemma {:induction false} SameFirst(w: bytes, y: bytes, installed: nat)
    requires |y| == |w| >= 64 && y[32..64] == w[32..64]
    ensures ReadFirst(y, installed) == ReadFirst(w, installed)
  {
  }

  lemma {:induction false} DamagedFirst(w: bytes, first: nat, batches: seq<Batch>, i: nat, x: byte, installed: nat)
    requires WalFrames(w, first, batches) && batches != [] && 32 <= i < 64 && i < |w| && x != w[i] && first >= 1
    ensures ReadFirst(w[i := x], installed) == BadFrame
  {
    hide Frame, CheckFrameHeader, Un, BodyLength, Sealed;
    FrameAt(w, 32, first, batches, 0);
    NoFrames(batches);
    FrameSize(first, batches[0]);
    var y, b := w[i := x], batches[0];
    HeadOfFrame(first, b);
    assert w[32..64] == w[32..32 + |Frame(first, b)|][..32];
    assert y[32..64] == w[32..64][i - 32 := x];
    SealBroken(HeadFields(first, |b|), i - 32, x);
    HeadNeedsSeal(y[32..64]);
  }

  lemma {:induction false} HeadOfFrame(sequence: nat, b: Batch)
    requires ValidBatch(b)
    ensures Frame(sequence, b)[..32] == Seal(HeadFields(sequence, |b|))
  {
  }

  lemma {:induction false} DamagedScan(w: bytes, first: nat, batches: seq<Batch>, j: nat, i: nat, x: byte)
    requires WalFrames(w, first, batches) && j < |batches| && first >= 1 && i < |w| && x != w[i]
    requires var o := 32 + BodyLength(batches[..j]); o <= i < o + FrameLength(batches[j])
    ensures ScanFrames(w[i := x], 32, first - 1, []).stop == Bad
  {
    hide Frame, BodyLength, ScanFrames, ReadFrame, FrameLength, Times;
    var y, o, b := w[i := x], 32 + BodyLength(batches[..j]), batches[j];
    FrameAt(w, 32, first, batches, j);
    FrameSize(first + j, b);
    BodyLengthPrefix(batches, j);
    assert y[..o] == w[..o];
    FramesBefore(w, y, first, batches, j);
    ScanWhole(y, first, batches[..j], j);
    assert batches[..j][..j] == batches[..j];
    assert y[o..o + FrameLength(b)] == w[o..o + FrameLength(b)][i - o := x];
    DamageDetected(y, o, |y|, first + j, b, i - o, x);
    ScanCut(y, o, first + j - 1, Times(batches[..j]));
  }

  // --- segment headers -----------------------------------------------------

  lemma {:induction false} ReadLocal(d: bytes, y: bytes, o: nat, end: nat)
    requires ReadSegment(d, o, end).Some? && |y| == |d|
    requires var n := o + ReadSegment(d, o, end).value.headerSize; n <= |d| && y[..n] == d[..n]
    ensures ReadSegment(y, o, end) == ReadSegment(d, o, end)
  {
    hide Sealed, SegmentInRange, Un;
    var n := o + ReadSegment(d, o, end).value.headerSize;
    SubSlice(y, 0, n, o, o + 8);
    SubSlice(d, 0, n, o, o + 8);
    SubSlice(y, 0, n, o, n);
    SubSlice(d, 0, n, o, n);
  }

  /** The walk up to a place looks at nothing behind it. */
  lemma {:induction false} WalkLocal(d: bytes, y: bytes, end: nat, enabled: bool, root: nat, n: nat)
    requires n < Pow2(TABLE_SIZE) && Walk(d, end, enabled, root, n).Some? && |y| == |d| && end <= |d|
    requires var o := Walk(d, end, enabled, root, n).value.offset; o <= |d| && y[..o] == d[..o]
    ensures Walk(y, end, enabled, root, n) == Walk(d, end, enabled, root, n)
  {
    hide Pow2, BitOf, ReadSegment, Record24;
    if n > 0 {
      WalkFails(d, end, enabled, root, n - 1, n);
      TableIndex(n);
      var before, after := Walk(d, end, enabled, root, n - 1).value, Walk(d, end, enabled, root, n).value;
      var i := ReadSegment(d, before.offset, end).value;
      var o := after.offset;
      PrefixOf(d, y, o, before.offset);
      WalkLocal(d, y, end, enabled, root, n - 1);
      PrefixOf(d, y, o, before.offset + i.headerSize);
      ReadLocal(d, y, before.offset, end);
    }
  }

  lemma {:induction false} PrefixOf(d: bytes, y: bytes, o: nat, n: nat)
    requires |y| == |d| && n <= o <= |d| && y[..o] == d[..o]
    ensures y[..n] == d[..n]
  {
    assert y[..o][..n] == y[..n] && d[..o][..n] == d[..n];
  }

  /** The magics differ in more than one byte. */
  lemma {:induction false} MagicsApart(kind: Kind, j: nat, x: byte)
    requires j < 8 && x != MagicOf(kind)[j]
    ensures var magic := MagicOf(kind)[j := x];
            magic != SPAN_MAGIC && magic != UNORDERED_MAGIC && magic != PLAIN_MAGIC
  {
    var magic := MagicOf(kind)[j := x];
    assert magic[j] == x;
    assert forall k :: 0 <= k < 8 && k != j ==> magic[k] == MagicOf(kind)[k];
    assert SPAN_MAGIC[2] != UNORDERED_MAGIC[2] && SPAN_MAGIC[3] != UNORDERED_MAGIC[3];
    assert SPAN_MAGIC[6] != PLAIN_MAGIC[6] && SPAN_MAGIC[7] != PLAIN_MAGIC[7];
    assert UNORDERED_MAGIC[6] != PLAIN_MAGIC[6] && UNORDERED_MAGIC[7] != PLAIN_MAGIC[7];
  }

  lemma {:induction false} HeaderBroken(d: bytes, o: nat, end: nat, s: Segment, previous: nat, skip: nat, i: nat,
                                        x: byte)
    requires ValidSegment(s) && o + HeaderSize(s) <= |d| && U64(previous) && U64(skip)
    requires d[o..o + HeaderSize(s)] == HeaderBytes(s, previous, skip)
    requires o <= i < o + HeaderSize(s) && x != d[i]
    ensures ReadSegment(d[i := x], o, end) == None
  {
    hide Sealed, SegmentInRange, LongInfo, ShortInfo, ValidSegment, HeaderBytes;
    var y, n, h := d[i := x], HeaderSize(s), HeaderBytes(s, previous, skip);
    assert y[o..o + n] == h[i - o := x];
    HeaderUnsealed(s, previous, skip, i - o, x);
    HeaderDecodes(s, previous, skip);
    assert d[o..o + 8] == d[o..o + n][..8] == h[..8];
    assert y[o..o + 8] == y[o..o + n][..8] == h[i - o := x][..8];
    if i < o + 8 {
      assert h[i - o := x][..8] == h[..8][i - o := x];
      MagicsApart(s.kind, i - o, x);
    } else {
      assert h[i - o := x][..8] == h[..8];
      MagicsDistinct();
      UnsealedNone(y, o, end, s.kind);
    }
  }

  lemma {:induction false} MagicsDistinct()
    ensures SPAN_MAGIC != UNORDERED_MAGIC && SPAN_MAGIC != PLAIN_MAGIC && UNORDERED_MAGIC != PLAIN_MAGIC
  {
    assert SPAN_MAGIC[2] != UNORDERED_MAGIC[2] && SPAN_MAGIC[6] != PLAIN_MAGIC[6];
    assert UNORDERED_MAGIC[6] != PLAIN_MAGIC[6];
  }

  lemma {:induction false} UnsealedNone(d: bytes, o: nat, end: nat, kind: Kind)
    requires var n := if kind == Plain then 32 else 64;
             o + n <= |d| && d[o..o + 8] == MagicOf(kind) && !Sealed(d[o..o + n])
    ensures ReadSegment(d, o, end) == None
  {
    hide Sealed, SegmentInRange, LongInfo, ShortInfo;
    MagicsDistinct();
  }

  lemma {:induction false} HeaderUnsealed(s: Segment, previous: nat, skip: nat, j: nat, x: byte)
    requires ValidSegment(s) && j < HeaderSize(s) && x != HeaderBytes(s, previous, skip)[j]
    ensures !Sealed(HeaderBytes(s, previous, skip)[j := x])
  {
    hide Seal, Sealed, ShortFields, LongFields, ValidSegment, BodyLength, Lowest, Highest;
    NonEmptySegment(s);
    if s.kind == Plain {
      SealBroken(ShortFields(s.kind, s.first, LastOf(s), BodyLength(s.batches)), j, x);
    } else {
      SealBroken(LongFields(s.kind, s.first, LastOf(s), BodyLength(s.batches), Lowest(s), Highest(s), previous, skip),
                 j, x);
    }
  }

  /** Any byte of any installed segment's header: open refuses, whatever the WAL holds. */
  lemma {:induction false} DamagedHeaderRefused(disk: Disk, m: Manifest, st: Store, n: nat, i: nat, x: byte, w: bytes)
    requires Ready(disk, m, st) && ValidSegments(st.segs) && n < |st.segs| && i < |disk.db.stable|
    requires var o := OffsetOf(DATA_START, st.segs, n); o <= i < o + HeaderSize(st.segs[n])
    requires x != disk.db.stable[i]
    ensures Recover(disk.db.stable[i := x], w) == None
  {
    hide DbFits, WalExact, Holds, ValidSegments, ChainLength, Recover, Select, CheckChain, Pow2, HeaderSize, Located,
      DecideWal;
    var d, y, r := disk.db.stable, disk.db.stable[i := x], GoalFor(m, st).r;
    ReadyStanding(disk, m, st);
    DbHolds(d, m, st);
    DescribedBy(d, r);
    SelectsRoot(d, r);
    assert y[..160] == d[..160];
    Acceptance.SelectLocal(d, y);
    RecoverSplits(y, w);
    HeldLocated(d, m, st);
    RootOfReady(d, m, st);
    DamagedChain(d, ClaimOf(m), st.segs, n, i, x);
  }

  lemma {:induction false} RootOfReady(d: bytes, m: Manifest, st: Store)
    requires DbFits(d, m, st) && PhaseOf(m) == NORMAL
    ensures var c := ClaimOf(m);
            && c.root == DATA_START && c.generation == |st.segs| < Pow2(TABLE_SIZE) && Sequenced(st.segs, c.enabled)
            && c.end == DATA_START + ChainLength(st.segs) && U64(c.end) && c.end <= |d|
  {
    hide ChainLength, Located, ManifestBytes, Outranks, Pow2, Sequenced;
    RootBounds(GoalFor(m, st).r);
  }

  lemma {:induction false} DamagedChain(d: bytes, c: Claim, segs: seq<Segment>, n: nat, i: nat, x: byte)
    requires ValidSegments(segs) && Located(d, c.root, segs) && Sequenced(segs, c.enabled) && n < |segs|
    requires c.root >= DATA_START && c.generation == |segs| < Pow2(TABLE_SIZE) && c.end <= |d| && i < |d|
    requires c.end == c.root + ChainLength(segs) && U64(c.end)
    requires var o := OffsetOf(c.root, segs, n); o <= i < o + HeaderSize(segs[n])
    requires x != d[i]
    ensures CheckChain(d[i := x], c) == None
  {
    hide Pow2, BitOf, ReadSegment, ChainLength, Located, Sequenced, ValidSegment, Walk, WalkedTo, SegmentBytes,
      HeaderBytes, PreviousLink, SkipLink, Conclude;
    var y, o := d[i := x], OffsetOf(c.root, segs, n);
    WalkAccepts(d, c.root, segs, c.enabled, n);
    ArrivedAt(Walk(d, c.end, c.enabled, c.root, n).value, c.root, segs, n);
    assert y[..o] == d[..o];
    WalkLocal(d, y, c.end, c.enabled, c.root, n);
    SegmentHeader(d, c.root, segs, n);
    HeaderBroken(d, o, c.end, segs[n], PreviousLink(c.root, segs[..n]), SkipLink(c.root, segs[..n]), i, x);
    TableIndex(n + 1);
    StepRefused(y, c.end, c.enabled, c.root, n + 1);
    WalkFails(y, c.end, c.enabled, c.root, n + 1, c.generation);
  }

  lemma {:induction false} ArrivedAt(w: WalkState, root: nat, segs: seq<Segment>, n: nat)
    requires ValidSegments(segs) && n <= |segs| && WalkedTo(w, root, segs, n)
    ensures w.offset == OffsetOf(root, segs, n)
  {
  }

  lemma {:induction false} StepRefused(d: bytes, end: nat, enabled: bool, root: nat, n: nat)
    requires 0 < n < Pow2(TABLE_SIZE) && Walk(d, end, enabled, root, n - 1).Some?
    requires ReadSegment(d, Walk(d, end, enabled, root, n - 1).value.offset, end) == None
    ensures Walk(d, end, enabled, root, n) == None
  {
    hide Pow2, BitOf, ReadSegment;
  }

  lemma {:induction false} SegmentHeader(d: bytes, root: nat, segs: seq<Segment>, n: nat)
    requires ValidSegments(segs) && Located(d, root, segs) && n < |segs| && U64(root + ChainLength(segs))
    requires root >= DATA_START
    ensures var o, s := OffsetOf(root, segs, n), segs[n];
            && ValidSegment(s) && o + HeaderSize(s) <= |d|
            && U64(PreviousLink(root, segs[..n])) && U64(SkipLink(root, segs[..n]))
            && d[o..o + HeaderSize(s)] == HeaderBytes(s, PreviousLink(root, segs[..n]), SkipLink(root, segs[..n]))
  {
    hide ChainLength, Located, BodyLength, FramesAt, HeaderBytes, PreviousLink, SkipLink, BodyBytes, Lowest, Highest,
      Times, Sorted, ValidBatches;
    var o, s := OffsetOf(root, segs, n), segs[n];
    assert ValidSegment(s);
    LocatedSegment(d, root, segs, n);
    LinksInRange(root, segs, n);
    assert d[o..o + HeaderSize(s)] == d[o..o + SegmentSize(s)][..HeaderSize(s)];
  }
}
