/** The file operations of each call, in order, and their combined effect. */
module Scripts {
  import opened Bytes
  import opened Frames
  import opened Segments
  import opened Manifests
  import opened Storage
  import opened Recovery
  import opened Stores
  import opened Authority

  // --- copying -------------------------------------------------------------

  function FrameOps(base: nat, first: nat, batches: seq<Batch>): seq<Io>
    requires ValidBatches(batches)
  {
    if batches == [] then []
    else
      var front := batches[..|batches| - 1];
      FrameOps(base, first, front)
      + [Db(Write(base + BodyLength(front), Frame(first + |front|, batches[|front|])))]
  }

  /** A segment: its header, then its frames one by one. */
  function SegmentOps(offset: nat, s: Segment, previous: nat, skip: nat): seq<Io>
    requires ValidSegment(s)
  {
    [Db(Write(offset, HeaderBytes(s, previous, skip)))] + FrameOps(offset + HeaderSize(s), s.first, s.batches)
  }

  /** The segments of a chain rebuilt at `destination`. */
  function CopyOps(destination: nat, segs: seq<Segment>): seq<Io>
    requires ValidSegments(segs)
  {
    if segs == [] then []
    else
      var front, s := segs[..|segs| - 1], segs[|segs| - 1];
      CopyOps(destination, front)
      + SegmentOps(OffsetOf(destination, segs, |front|), s, PreviousLink(destination, front),
                   SkipLink(destination, front))
  }

  ghost predicate WritesWithin(ops: seq<Io>, lo: nat, hi: nat)
  {
    forall i :: 0 <= i < |ops| ==> WriteWithin(ops[i], lo, hi)
  }

  ghost predicate WriteWithin(io: Io, lo: nat, hi: nat)
  {
    io.Db? && io.op.Write? && lo <= io.op.offset && io.op.offset + |io.op.data| <= hi
  }

  /** What a run of database writes amounts to: one write of `data` at `offset`. */
  ghost predicate Amounts(disk: Disk, ops: seq<Io>, offset: nat, data: bytes)
  {
    var after := Execute(disk, ops);
    && after.wal == disk.wal
    && after.db.stable == disk.db.stable
    && Volatile(after.db) == Splice(Volatile(disk.db), offset, data)
    && WritesWithin(ops, offset, offset + |data|)
  }

  lemma {:induction false} AmountsNothing(disk: Disk, offset: nat)
    ensures Amounts(disk, [], offset, [])
  {
  }

  lemma {:induction false} AmountsMore(disk: Disk, a: seq<Io>, b: seq<Io>, offset: nat, x: bytes, y: bytes)
    requires Amounts(disk, a, offset, x) && Amounts(Execute(disk, a), b, offset + |x|, y)
    ensures Amounts(disk, a + b, offset, x + y)
  {
    ExecuteConcat(disk, a, b);
    SpliceJoin(Volatile(disk.db), offset, x, y);
  }

  lemma {:induction false} AmountsWrite(disk: Disk, offset: nat, data: bytes)
    ensures Amounts(disk, [Db(Write(offset, data))], offset, data)
  {
    var ops := [Db(Write(offset, data))];
    assert ops[..0] == [];
    assert Execute(disk, ops[..0]) == disk;
    IssueVolatile(disk.db, Write(offset, data));
  }

  lemma {:induction false} FrameOpsAmount(disk: Disk, base: nat, first: nat, batches: seq<Batch>)
    requires ValidBatches(batches)
    ensures Amounts(disk, FrameOps(base, first, batches), base, BodyBytes(first, batches))
  {
    hide Amounts, Frame, BodyLength, BodyBytes;
    if batches == [] {
      AmountsNothing(disk, base);
      NoBodyBytes(first);
    } else {
      var front, b := batches[..|batches| - 1], batches[|batches| - 1];
      FrameOpsAmount(disk, base, first, front);
      BodyTotal(first, front);
      assert ValidBatch(b);
      var before := Execute(disk, FrameOps(base, first, front));
      AmountsWrite(before, base + BodyLength(front), Frame(first + |front|, b));
      AmountsMore(disk, FrameOps(base, first, front), [Db(Write(base + BodyLength(front), Frame(first + |front|, b)))],
                  base, BodyBytes(first, front), Frame(first + |front|, b));
      assert batches == front + [b];
      BodySnoc(first, front, b);
    }
  }

  lemma {:induction false} NoBodyBytes(first: nat)
    ensures BodyBytes(first, []) == []
  {
  }

  lemma {:induction false} SegmentOpsAmount(disk: Disk, offset: nat, s: Segment, previous: nat, skip: nat)
    requires ValidSegment(s)
    ensures Amounts(disk, SegmentOps(offset, s, previous, skip), offset, SegmentBytes(s, previous, skip))
  {
    hide Amounts, HeaderBytes, BodyBytes, FrameOps, BodyLength, Times, Sorted;
    var h := HeaderBytes(s, previous, skip);
    AmountsWrite(disk, offset, h);
    var first := [Db(Write(offset, h))];
    FrameOpsAmount(Execute(disk, first), offset + HeaderSize(s), s.first, s.batches);
    AmountsMore(disk, first, FrameOps(offset + HeaderSize(s), s.first, s.batches), offset, h,
                BodyBytes(s.first, s.batches));
  }

  /** Copying a chain writes exactly the bytes of that chain at its new place,
      links included, and nothing outside it. */
  lemma {:induction false} CopyOpsAmount(disk: Disk, destination: nat, segs: seq<Segment>)
    requires ValidSegments(segs)
    ensures Amounts(disk, CopyOps(destination, segs), destination, ChainBytes(destination, segs))
  {
    hide Amounts, SegmentBytes, SegmentOps, ChainBytes, ChainLength, ValidSegment, PreviousLink, SkipLink;
    if segs == [] {
      AmountsNothing(disk, destination);
      NoChainBytes(destination);
    } else {
      var front, s := segs[..|segs| - 1], segs[|segs| - 1];
      var p, k := PreviousLink(destination, front), SkipLink(destination, front);
      assert ValidSegment(s);
      CopyOpsAmount(disk, destination, front);
      ChainTotal(destination, front);
      var before := Execute(disk, CopyOps(destination, front));
      var offset := OffsetOf(destination, segs, |front|);
      SegmentOpsAmount(before, offset, s, p, k);
      AmountsMore(disk, CopyOps(destination, front), SegmentOps(offset, s, p, k), destination,
                  ChainBytes(destination, front), SegmentBytes(s, p, k));
      assert segs == front + [s];
      ChainSnoc(destination, front, s);
    }
  }

  lemma {:induction false} NoChainBytes(root: nat)
    ensures ChainBytes(root, []) == []
  {
  }

  // --- publishing ----------------------------------------------------------

  function PublishOps(m: Manifest): seq<Io>
    requires m.time >= 0
  {
    [Db(SlotWrite(m)), SyncDb]
  }

  /** The retention manifest that follows m. */
  function NextRetain(m: Manifest, segs: seq<Segment>, root: nat, phase: nat): Manifest
  {
    Retain(RevisionOf(m) + 1, |segs|, root + ChainLength(segs), m.last, m.time, LinkTo(root, segs, |segs|), root, phase)
  }

  /** Truncate behind the front copy, then publish NORMAL. */
  function CleanOps(m: Manifest, segs: seq<Segment>): seq<Io>
    requires m.time >= 0
  {
    [Db(Truncate(if m.end == DATA_START then MARKER_SIZE else m.end)), SyncDb]
    + PublishOps(NextRetain(m, segs, DATA_START, NORMAL))
  }

  /** `finish_retention`, from whichever phase m is in. */
  function FinishOps(m: Manifest, segs: seq<Segment>): seq<Io>
    requires m.time >= 0 && ValidSegments(segs)
  {
    if PhaseOf(m) == TAIL then
      var c := NextRetain(m, segs, DATA_START, CLEANUP);
      CopyOps(DATA_START, segs) + [SyncDb] + PublishOps(c) + CleanOps(c, segs)
    else CleanOps(m, segs)
  }

  /** The NORMAL manifest a retention in progress ends in. */
  function FinalManifest(m: Manifest, segs: seq<Segment>): (n: Manifest)
    ensures PhaseOf(n) == NORMAL
    ensures PhaseOf(m) <= CLEANUP ==> RevisionOf(n) == DestinationOf(m)
  {
    if PhaseOf(m) == NORMAL then m
    else if PhaseOf(m) == TAIL then NextRetain(NextRetain(m, segs, DATA_START, CLEANUP), segs, DATA_START, NORMAL)
    else NextRetain(m, segs, DATA_START, NORMAL)
  }

  /** Resumed before or after CLEANUP was published, a retention ends in the same
      manifest. */
  lemma {:induction false} PhasesConverge(m: Manifest, segs: seq<Segment>)
    requires PhaseOf(m) == TAIL
    ensures FinalManifest(NextRetain(m, segs, DATA_START, CLEANUP), segs) == FinalManifest(m, segs)
    ensures PhaseOf(FinalManifest(m, segs)) == NORMAL && RevisionOf(FinalManifest(m, segs)) == RevisionOf(m) + 2
    ensures RootOf(FinalManifest(m, segs)) == DATA_START && CountOf(FinalManifest(m, segs)) == |segs|
  {
    hide ChainLength, LinkTo;
  }

  // --- one script per call -------------------------------------------------

  function AppendOps(st: Store, b: Batch): seq<Io>
    requires ValidBatch(b)
  {
    var end, sequence := 32 + BodyLength(st.wal), st.installed + |st.wal| + 1;
    [Wal(Write(end, Body(sequence, b))), SyncWal, Wal(Write(end + 32 + 20 * |b|, Commit(sequence, b))), SyncWal]
  }

  function InstallManifest(st: Store): Manifest
    requires st.wal != []
  {
    var after := Checkpointed(st);
    var n, end := |after.segs|, DATA_START + ChainLength(after.segs);
    if st.retained then
      Retain(after.revision, n, end, after.installed, after.floor, LinkTo(DATA_START, after.segs, n), DATA_START,
             NORMAL)
    else
      Install(n, end, after.installed, after.floor, LinkTo(DATA_START, after.segs, n), true)
  }

  /** Segment, sync; manifest, sync; truncate the WAL, sync. */
  function CheckpointOps(st: Store): seq<Io>
    requires st.wal != [] && ValidSegment(NewSegment(st)) && LastTime(st.floor, st.wal) >= 0
  {
    SegmentOps(DATA_START + ChainLength(st.segs), NewSegment(st),
               PreviousLink(DATA_START, st.segs), SkipLink(DATA_START, st.segs))
    + [SyncDb] + PublishOps(InstallManifest(st)) + [Wal(Truncate(32)), SyncWal]
  }

  function PrepareManifest(st: Store): Manifest
  {
    Retain(st.revision + 1, |st.segs|, DATA_START + ChainLength(st.segs), st.installed, st.floor,
           LinkTo(DATA_START, st.segs, |st.segs|), DATA_START, PREPARE)
  }

  function TailManifest(st: Store, cutoff: int): Manifest
    requires ValidSegments(st.segs)
  {
    NextRetain(PrepareManifest(st), Kept(st.segs, cutoff), DATA_START + ChainLength(st.segs), TAIL)
  }

  function ExpireOps(st: Store, cutoff: int): seq<Io>
    requires ValidSegments(st.segs) && st.floor >= 0
  {
    PublishOps(PrepareManifest(st))
    + CopyOps(DATA_START + ChainLength(st.segs), Kept(st.segs, cutoff)) + [SyncDb]
    + PublishOps(TailManifest(st, cutoff))
    + FinishOps(TailManifest(st, cutoff), Kept(st.segs, cutoff))
  }

  /** Recovery: provision both files, finish a retention, cut the WAL. */
  function OpenOps(m: Manifest, segs: seq<Segment>, w: bytes, walEnd: nat): seq<Io>
    requires m.time >= 0 && ValidSegments(segs)
  {
    [SyncDb, SyncWal]
    + (if PhaseOf(m) == NORMAL then [] else FinishOps(m, segs))
    + (if walEnd < |w| then [Wal(Truncate(walEnd)), SyncWal] else [])
  }

  // --- torn slots ----------------------------------------------------------

  /** The named assumption, for every slot a script rewrites. */
  ghost predicate TearsDetected(disk: Disk, script: seq<Io>)
  {
    forall n :: 0 <= n < |script| ==> TearsDetectedAt(disk, script, n)
  }

  ghost predicate TearsDetectedAt(disk: Disk, script: seq<Io>, n: nat)
    requires n < |script|
  {
    var v := Volatile(Execute(disk, script[..n]).db);
    var io := script[n];
    io.Db? && io.op.Write? && |io.op.data| == 64 && |v| >= DATA_START ==>
      forall i :: i in {0, 1} && io.op.offset == SlotStart(i) ==> TearDetected(SlotBytes(v, i), io.op.data)
  }

  lemma {:induction false} TearsSplit(disk: Disk, a: seq<Io>, b: seq<Io>)
    requires TearsDetected(disk, a + b)
    ensures TearsDetected(disk, a) && TearsDetected(Execute(disk, a), b)
  {
    hide TearDetected;
    forall n | 0 <= n < |a|
      ensures TearsDetectedAt(disk, a, n)
    {
      assert TearsDetectedAt(disk, a + b, n);
      assert (a + b)[..n] == a[..n];
    }
    forall n | 0 <= n < |b|
      ensures TearsDetectedAt(Execute(disk, a), b, n)
    {
      assert TearsDetectedAt(disk, a + b, |a| + n);
      assert (a + b)[..|a| + n] == a + b[..n];
      ExecuteConcat(disk, a, b[..n]);
    }
  }

  lemma {:induction false} TearAtPublish(disk: Disk, m: Manifest)
    requires m.time >= 0 && TearsDetected(disk, PublishOps(m)) && |Volatile(disk.db)| >= DATA_START
    ensures TearDetected(SlotBytes(Volatile(disk.db), RevisionOf(m) % 2), ManifestBytes(m))
  {
    hide TearDetected, ManifestBytes;
    assert TearsDetectedAt(disk, PublishOps(m), 0);
    assert PublishOps(m)[..0] == [];
  }
}
