/** Crash safety of each call: append, checkpoint, expire and open. */
module Calls {
  import opened Bytes
  import opened Frames
  import opened Segments
  import opened ChainCheck
  import opened Manifests
  import opened Storage
  import opened Recovery
  import opened Stores
  import opened Authority
  import opened Scripts
  import opened CrashSafety

  /** The WAL holds exactly st's pending batches. */
  ghost predicate WalExact(w: bytes, st: Store)
  {
    WalFrames(w, st.installed + 1, st.wal) && |w| == 32 + BodyLength(st.wal)
  }

  /** A usable handle's disk: everything visible is durable in both files. */
  ghost predicate Ready(disk: Disk, m: Manifest, st: Store)
  {
    && PhaseOf(m) == NORMAL
    && DbFits(disk.db.stable, m, st) && disk.db.pending == []
    && WalExact(disk.wal.stable, st) && disk.wal.pending == []
  }

  lemma {:induction false} ReadyStanding(disk: Disk, m: Manifest, st: Store)
    requires Ready(disk, m, st)
    ensures Standing(disk, m, st)
    ensures Volatile(disk.db) == disk.db.stable && Volatile(disk.wal) == disk.wal.stable
    ensures ValidStore(st) && ValidSegments(st.segs) && m.time >= 0
    ensures m.end == DATA_START + ChainLength(st.segs) <= |disk.db.stable|
  {
    CleanSafe(disk.db.stable, GoalFor(m, st));
    DescribedBy(disk.db.stable, GoalFor(m, st).r);
    ExactFits(disk.wal.stable, st);
  }

  lemma {:induction false} ExactFits(w: bytes, st: Store)
    requires WalExact(w, st)
    ensures WalContinues(w, st.installed, st.wal) && WalFits(w, st)
  {
    hide BodyLength, FramesAt, ValidBatches, TailOf, WalRepeats;
  }

  /** While only the WAL is being written. */
  lemma {:induction false} WalPhase(disk: Disk, m: Manifest, st: Store, S: set<Store>)
    requires DbSafe(disk.db, GoalFor(m, st), GoalFor(m, st)) && ValidStore(st) && Fits(m, st) && st in S
    requires forall w :: CrashImage(disk.wal, w) ==> WalFits(w, st)
    ensures SafeDisk(disk, S)
  {
    hide Satisfies, WalFits, ValidStore, Fits;
    forall d, w | Crash(disk, d, w)
      ensures Good(d, w, S)
    {
      assert DbFits(d, m, st);
      assert Coherent(d, w, st);
    }
  }

  // --- append --------------------------------------------------------------

  lemma {:induction false} SpliceAtEnd(w: bytes, data: bytes)
    ensures Splice(w, |w|, data) == w + data
  {
  }

  lemma {:induction false} GrowFrames(w: bytes, more: bytes, st: Store)
    requires WalExact(w, st) && |w| + |more| <= WAL_CAPACITY
    ensures WalFrames(w + more, st.installed + 1, st.wal)
  {
    hide BodyLength, BodyBytes, ValidBatches;
    assert (w + more)[32..|w|] == w[32..|w|];
  }

  /** Any number of bytes of the new frame: the old batches, and with all of
      them the new one too; a short header is the refused exception. */
  lemma {:induction false} AppendImage(d: bytes, m: Manifest, st: Store, b: Batch, w: bytes, k: nat)
    requires DbFits(d, m, st) && WalExact(w, st) && AppendAllowed(st, b) && k <= FrameLength(b)
    ensures U64(st.installed + |st.wal| + 1)
    ensures Good(d, w + Frame(st.installed + |st.wal| + 1, b)[..k], {st, Appended(st, b)})
    ensures k == FrameLength(b) ==> DbFits(d, m, Appended(st, b))
    ensures k == FrameLength(b) ==> WalExact(w + Frame(st.installed + |st.wal| + 1, b), Appended(st, b))
  {
    hide Frame, Satisfies, BodyLength, FramesAt, Sorted, BatchTimes, LastTime, ValidBatches;
    var sequence := st.installed + |st.wal| + 1;
    var f := Frame(sequence, b);
    var x := w + f[..k];
    GrowFrames(w, f[..k], st);
    if k == 0 {
      assert x == w;
      ExactFits(w, st);
      assert Coherent(d, x, st);
    } else if k < FrameLength(b) {
      assert x[|w|..] == f[..k];
      assert TailOf(x, |w|, sequence, b, k);
      if k < 32 {
        assert ShortHeader(x, |w|, sequence);
        assert Refused(d, x, st);
      } else {
        assert CutTail(x, |w|, sequence);
        assert Coherent(d, x, st);
      }
    } else {
      assert f[..k] == f;
      AppendedExact(w, st, b);
      AppendedFits(d, m, st, b);
      ExactFits(x, Appended(st, b));
      assert Coherent(d, x, Appended(st, b));
    }
  }

  lemma {:induction false} AppendedExact(w: bytes, st: Store, b: Batch)
    requires ValidStore(st) && WalExact(w, st) && AppendAllowed(st, b)
    ensures WalExact(w + Frame(st.installed + |st.wal| + 1, b), Appended(st, b))
  {
    hide Frame, BodyLength, Sorted, BatchTimes, LastTime, BodyBytes, ValidData;
    var f := Frame(st.installed + |st.wal| + 1, b);
    var x := w + f;
    BodySnoc(st.installed + 1, st.wal, b);
    assert x[32..|x|] == w[32..|w|] + f;
  }

  lemma {:induction false} AppendedFits(d: bytes, m: Manifest, st: Store, b: Batch)
    requires DbFits(d, m, st) && AppendAllowed(st, b)
    ensures DbFits(d, m, Appended(st, b))
  {
    hide Holds, Sorted, BatchTimes, LastTime, BodyLength, ValidData;
    AppendedValid(st, b);
    BodySnoc(1, st.wal, b);
  }

  /** x is w followed by a prefix of frame. */
  ghost predicate Extending(x: bytes, w: bytes, frame: bytes)
  {
    w <= x <= w + frame
  }

  lemma {:induction false} ExtendingBy(x: bytes, w: bytes, frame: bytes)
    requires Extending(x, w, frame)
    ensures 0 <= |x| - |w| <= |frame| && x == w + frame[..|x| - |w|]
  {
    assert x == (w + frame)[..|x|];
  }

  /** Every crash image of a WAL that is being extended. */
  lemma {:induction false} AppendPhase(disk: Disk, m: Manifest, st: Store, b: Batch, w: bytes)
    requires disk.db.pending == [] && DbFits(disk.db.stable, m, st) && WalExact(w, st) && AppendAllowed(st, b)
    requires forall x :: CrashImage(disk.wal, x) ==> Extending(x, w, Frame(st.installed + |st.wal| + 1, b))
    ensures SafeDisk(disk, {st, Appended(st, b)})
  {
    hide Frame, DbFits, WalExact, AppendAllowed, Good, FrameLength, CrashImage, Extending, Appended;
    forall d, x | Crash(disk, d, x)
      ensures Good(d, x, {st, Appended(st, b)})
    {
      SyncedImage(disk.db, d);
      FrameOfAllowed(st, b);
      ExtendingBy(x, w, Frame(st.installed + |st.wal| + 1, b));
      AppendImage(d, m, st, b, w, |x| - |w|);
    }
  }

  lemma {:induction false} FrameOfAllowed(st: Store, b: Batch)
    requires AppendAllowed(st, b)
    ensures ValidBatch(b) && |Frame(st.installed + |st.wal| + 1, b)| == FrameLength(b)
    ensures |Body(st.installed + |st.wal| + 1, b)| + 32 == FrameLength(b)
    ensures Frame(st.installed + |st.wal| + 1, b) == Body(st.installed + |st.wal| + 1, b)
              + Commit(st.installed + |st.wal| + 1, b)
  {
  }

  /** The four states of the WAL during an append. */
  lemma {:induction false} ExtendingImages(f: File, w: bytes, frame: bytes, n: nat, data: bytes)
    requires n + |data| <= |frame| && frame[n..n + |data|] == data && f == File(w + frame[..n], [])
    ensures forall x :: CrashImage(Issue(f, Write(|w| + n, data)), x) ==> Extending(x, w, frame)
    ensures Volatile(Issue(f, Write(|w| + n, data))) == w + frame[..n + |data|]
  {
    hide Splice, Volatile;
    var op := Write(|w| + n, data);
    CleanVolatile(w + frame[..n]);
    forall x | CrashImage(Issue(f, op), x)
      ensures Extending(x, w, frame)
    {
      IssueImage(f, op, x);
      if CrashImage(f, x) {
        SyncedImage(f, x);
      } else {
        var part :| Part(op, part) && x == Apply(Volatile(f), part);
        SpliceAtEnd(w + frame[..n], part.data);
        assert part.data == data[..|part.data|];
        assert x == w + frame[..n + |part.data|];
      }
    }
    IssueVolatile(f, op);
    SpliceAtEnd(w + frame[..n], data);
    assert w + frame[..n] + data == w + frame[..n + |data|];
  }

  /** One write and sync of the two an append makes. */
  lemma {:induction false} ExtendPiece(disk: Disk, m: Manifest, st: Store, b: Batch, w: bytes, n: nat, data: bytes)
    requires disk.db.pending == [] && DbFits(disk.db.stable, m, st) && WalExact(w, st) && AppendAllowed(st, b)
    requires var f := Frame(st.installed + |st.wal| + 1, b);
             n + |data| <= |f| && f[n..n + |data|] == data && disk.wal == File(w + f[..n], [])
    ensures var f := Frame(st.installed + |st.wal| + 1, b);
            var script := [Wal(Write(|w| + n, data)), SyncWal];
            && SafeDuring(disk, script, {st, Appended(st, b)})
            && Execute(disk, script) == Disk(disk.db, File(w + f[..n + |data|], []))
  {
    hide Frame, DbFits, WalExact, AppendAllowed, SafeDisk, SafeDuring, CrashImage, Execute, Extending, Appended,
      Volatile, FrameLength, ValidBatch, Body, Commit;
    FrameOfAllowed(st, b);
    var f := Frame(st.installed + |st.wal| + 1, b);
    var script := [Wal(Write(|w| + n, data)), SyncWal];
    CleanImages(w, f, n);
    AppendPhase(disk, m, st, b, w);
    ExtendingImages(disk.wal, w, f, n, data);
    AppendPhase(Perform(disk, script[0]), m, st, b, w);
    CleanImages(w, f, n + |data|);
    AppendPhase(Perform(Perform(disk, script[0]), script[1]), m, st, b, w);
    Prefixes(disk, script, {st, Appended(st, b)});
  }

  /** Append: at every crash point the old batches, possibly with the new one. */
  lemma {:induction false} AppendSafely(disk: Disk, m: Manifest, st: Store, b: Batch)
    requires Ready(disk, m, st) && AppendAllowed(st, b)
    ensures SafeDuring(disk, AppendOps(st, b), {st, Appended(st, b)})
    ensures Ready(Execute(disk, AppendOps(st, b)), m, Appended(st, b))
  {
    hide Frame, Body, Commit, DbFits, WalExact, AppendAllowed, FrameLength, SafeDuring, Execute, BodyLength, Appended,
      Good, ValidBatch;
    var w := disk.wal.stable;
    var sequence := st.installed + |st.wal| + 1;
    FrameOfAllowed(st, b);
    EndOf(w, st);
    var f, body, commit := Frame(sequence, b), Body(sequence, b), Commit(sequence, b);
    assert w + f[..0] == w;
    assert f[0..0 + |body|] == body && f[|body|..|body| + |commit|] == commit;
    ExtendPiece(disk, m, st, b, w, 0, body);
    var first := [Wal(Write(|w| + 0, body)), SyncWal];
    var second := [Wal(Write(|w| + |body|, commit)), SyncWal];
    ExtendPiece(Execute(disk, first), m, st, b, w, |body|, commit);
    SafeConcat(disk, first, second, {st, Appended(st, b)});
    ExecuteConcat(disk, first, second);
    assert AppendOps(st, b) == first + second;
    AppendImage(disk.db.stable, m, st, b, w, FrameLength(b));
    assert f[..|f|] == f;
  }

  lemma {:induction false} EndOf(w: bytes, st: Store)
    requires WalExact(w, st)
    ensures |w| == 32 + BodyLength(st.wal)
  {
  }

  lemma {:induction false} CleanImages(w: bytes, frame: bytes, n: nat)
    requires n <= |frame|
    ensures forall x :: CrashImage(File(w + frame[..n], []), x) ==> Extending(x, w, frame)
  {
    forall x | CrashImage(File(w + frame[..n], []), x)
      ensures x == w + frame[..n]
    {
      SyncedImage(File(w + frame[..n], []), x);
    }
  }

  // --- checkpoint ----------------------------------------------------------

  /** The WAL of a checkpointed store: still full, or already truncated. */
  lemma {:induction false} InstalledRepeats(w: bytes, st: Store)
    requires ValidStore(st) && CheckpointAllowed(st) && WalExact(w, st)
    ensures WalFits(w, Checkpointed(st))
    ensures WalFits(Resize(w, 32), Checkpointed(st)) && WalExact(Resize(w, 32), Checkpointed(st))
  {
    hide BodyLength, ValidData, LastTime, NewSegment;
    var after := Checkpointed(st);
    NoBody();
    NoBodyBytes(after.installed + 1);
    assert WalRepeats(w, after.installed, st.installed + 1, st.wal);
    assert |w| >= 32;
    ExactFits(Resize(w, 32), after);
  }

  /** The file after the segment was written past the data. */
  lemma {:induction false} ExtendedChain(v: bytes, segs: seq<Segment>, s: Segment)
    requires ValidSegments(segs) && ValidSegment(s) && Located(v, DATA_START, segs)
    ensures var end := DATA_START + ChainLength(segs);
            Located(Splice(v, end, SegmentBytes(s, PreviousLink(DATA_START, segs), SkipLink(DATA_START, segs))),
                    DATA_START, segs + [s])
  {
    hide SegmentBytes, ChainBytes, PreviousLink, SkipLink, SegmentSize, ChainLength, ValidSegment;
    var end := DATA_START + ChainLength(segs);
    var data := SegmentBytes(s, PreviousLink(DATA_START, segs), SkipLink(DATA_START, segs));
    var x := Splice(v, end, data);
    SegmentNotEmpty(s);
    ChainSnoc(DATA_START, segs, s);
    ChainTotal(DATA_START, segs);
    SpliceKeeps(v, end, data, DATA_START, end);
    SpliceHits(v, end, data);
    assert x[DATA_START..end + |data|] == x[DATA_START..end] + x[end..end + |data|];
  }

  lemma {:induction false} NewSegmentSize(st: Store)
    requires st.wal != []
    ensures SegmentSize(NewSegment(st)) == 64 + BodyLength(st.wal)
  {
  }

  lemma {:induction false} InstallRoot(st: Store)
    requires ValidStore(st) && CheckpointAllowed(st)
    ensures ValidStore(Checkpointed(st))
    ensures ValidRoot(GoalFor(InstallManifest(st), Checkpointed(st)).r)
    ensures Fits(InstallManifest(st), Checkpointed(st))
  {
    hide BodyLength, Times, Sorted, Sequenced, ChainLength, NewSegment;
    var after, m := Checkpointed(st), InstallManifest(st);
    CheckpointedValid(st);
    if st.retained {
      RetainRoot(after.segs, after.installed, after.floor, m);
    } else {
      ChainLengthBound(after.segs);
      CountBound(after.segs, false, |after.segs|);
      TailInChain(after.segs);
    }
  }

  lemma {:induction false} TailInChain(segs: seq<Segment>)
    requires segs != []
    ensures LinkTo(DATA_START, segs, |segs|) <= DATA_START + ChainLength(segs)
  {
    ChainLengthPrefix(segs, |segs| - 1);
  }

  lemma {:induction false} InstallSuccessor(v: bytes, m: Manifest, st: Store)
    requires DbFits(v, m, st) && PhaseOf(m) == NORMAL && CheckpointAllowed(st)
    requires ValidSegments(Checkpointed(st).segs) && Located(v, DATA_START, Checkpointed(st).segs)
    requires |v| == DATA_START + ChainLength(Checkpointed(st).segs)
    requires InstallManifest(st).time >= 0
    requires TearDetected(SlotBytes(v, RevisionOf(InstallManifest(st)) % 2), ManifestBytes(InstallManifest(st)))
    ensures Successor(v, GoalFor(m, st), GoalFor(InstallManifest(st), Checkpointed(st)))
  {
    hide ManifestBytes, TearDetected, Outranks, SlotBytes, ValidBatches, ChainLength, ChainBytes, BodyLength,
      ValidData, Located, NewSegment;
    InstallRoot(st);
  }

  /** The segment is written and synced; the file now ends exactly behind it. */
  lemma {:induction false} SegmentPiece(disk: Disk, m: Manifest, st: Store, S: set<Store>)
    requires Ready(disk, m, st) && CheckpointAllowed(st) && st in S
    ensures ValidSegment(NewSegment(st))
    ensures var ops := SegmentOps(DATA_START + ChainLength(st.segs), NewSegment(st),
                                  PreviousLink(DATA_START, st.segs), SkipLink(DATA_START, st.segs)) + [SyncDb];
            var after := Execute(disk, ops);
            && SafeDuring(disk, ops, S) && Standing(after, m, st) && after.wal == disk.wal
            && ValidSegments(Checkpointed(st).segs)
            && Located(Volatile(after.db), DATA_START, Checkpointed(st).segs)
            && |Volatile(after.db)| == DATA_START + ChainLength(Checkpointed(st).segs)
  {
    hide Standing, SafeDuring, Execute, SegmentOps, Amounts, SegmentBytes, BodyLength, PreviousLink, SkipLink,
      ChainLength, ValidStore, NewSegment, Located, WalExact, Splice, FreeRegion, DbFits, ValidSegment, ValidSegments,
      Volatile, SegmentSize;
    ReadyStanding(disk, m, st);
    NewSegmentValid(st);
    NewSegmentSize(st);
    var s, end := NewSegment(st), DATA_START + ChainLength(st.segs);
    var p, k := PreviousLink(DATA_START, st.segs), SkipLink(DATA_START, st.segs);
    var v := disk.db.stable;
    SegmentRegion(v, m, st);
    SegmentOpsAmount(disk, end, s, p, k);
    WritePiece(disk, m, st, SegmentOps(end, s, p, k), end, SegmentBytes(s, p, k), S);
    HeldLocated(v, m, st);
    ExtendedChain(v, st.segs, s);
    ChainSnoc(DATA_START, st.segs, s);
    CleanVolatile(Splice(v, end, SegmentBytes(s, p, k)));
  }

  lemma {:induction false} HeldLocated(v: bytes, m: Manifest, st: Store)
    requires DbFits(v, m, st) && PhaseOf(m) == NORMAL
    ensures ValidSegments(st.segs) && Located(v, DATA_START, st.segs)
  {
    hide ChainBytes, ChainLength, ManifestBytes;
  }

  lemma {:induction false} SegmentRegion(v: bytes, m: Manifest, st: Store)
    requires DbFits(v, m, st) && PhaseOf(m) == NORMAL && st.wal != []
    ensures var end := DATA_START + ChainLength(st.segs);
            && FreeRegion(GoalFor(m, st), end, end + (64 + BodyLength(st.wal)))
            && end <= |v| <= end + (64 + BodyLength(st.wal))
  {
    hide ChainBytes, ChainLength, ManifestBytes, Located;
    SomeBody(st.wal);
  }

  lemma {:induction false} SomeBody(batches: seq<Batch>)
    requires batches != []
    ensures BodyLength(batches) >= 64
  {
  }

  lemma {:induction false} InstallPiece(disk: Disk, m: Manifest, st: Store, S: set<Store>)
    requires Standing(disk, m, st) && PhaseOf(m) == NORMAL && CheckpointAllowed(st)
    requires st in S && Checkpointed(st) in S && WalExact(disk.wal.stable, st)
    requires ValidSegments(Checkpointed(st).segs) && Located(Volatile(disk.db), DATA_START, Checkpointed(st).segs)
    requires |Volatile(disk.db)| == DATA_START + ChainLength(Checkpointed(st).segs)
    requires InstallManifest(st).time >= 0 && TearsDetected(disk, PublishOps(InstallManifest(st)))
    ensures var m' := InstallManifest(st);
            var after := Execute(disk, PublishOps(m'));
            && SafeDuring(disk, PublishOps(m'), S) && Standing(after, m', Checkpointed(st))
            && after.wal == disk.wal && after.db == Sync(Issue(disk.db, SlotWrite(m')))
  {
    hide DbSafe, SafeDuring, Execute, TearsDetected, TearDetected, ManifestBytes, Located, BodyLength, ChainLength,
      WalExact, WalFits, Checkpointed, InstallManifest, ValidData;
    var m' := InstallManifest(st);
    StandingVolatile(disk, m, st);
    TearAtPublish(disk, m');
    InstallSuccessor(Volatile(disk.db), m, st);
    InstallRoot(st);
    InstalledRepeats(disk.wal.stable, st);
    PublishPiece(disk, m, st, m', Checkpointed(st), S);
  }

  lemma {:induction false} CutImages(f: File, size: nat)
    requires f.pending == []
    ensures var g := Issue(f, Truncate(size));
            && Sync(g) == File(Resize(f.stable, size), [])
            && (forall y :: CrashImage(g, y) ==> y == f.stable || y == Resize(f.stable, size))
            && (forall y :: CrashImage(Sync(g), y) ==> y == Resize(f.stable, size))
  {
    var g := Issue(f, Truncate(size));
    assert Volatile(f) == f.stable;
    IssueVolatile(f, Truncate(size));
    forall y | CrashImage(g, y)
      ensures y == f.stable || y == Resize(f.stable, size)
    {
      IssueImage(f, Truncate(size), y);
      if CrashImage(f, y) {
        SyncedImage(f, y);
      }
    }
    forall y | CrashImage(Sync(g), y)
      ensures y == Resize(f.stable, size)
    {
      SyncedImage(Sync(g), y);
    }
  }

  /** Cutting the WAL when nothing of value lies past `size`. */
  lemma {:induction false} CutPiece(disk: Disk, m: Manifest, st: Store, size: nat, S: set<Store>)
    requires Standing(disk, m, st) && st in S && disk.db.pending == [] && PhaseOf(m) == NORMAL
    requires WalExact(Resize(disk.wal.stable, size), st)
    ensures SafeDuring(disk, [Wal(Truncate(size)), SyncWal], S)
    ensures Ready(Execute(disk, [Wal(Truncate(size)), SyncWal]), m, st)
  {
    hide DbSafe, SafeDuring, SafeDisk, Execute, WalExact, WalFits, ValidStore, Fits, CrashImage, Resize, Satisfies;
    var f, w, x := disk.wal, disk.wal.stable, Resize(disk.wal.stable, size);
    ExactFits(x, st);
    StandingSafe(disk, m, st, S);
    StandingVolatile(disk, m, st);
    var cut := Perform(disk, Wal(Truncate(size)));
    CutImages(f, size);
    assert forall y :: CrashImage(cut.wal, y) ==> WalFits(y, st);
    WalPhase(cut, m, st, S);
    var done := Perform(cut, SyncWal);
    assert forall y :: CrashImage(done.wal, y) ==> WalFits(y, st);
    WalPhase(done, m, st, S);
    Prefixes(disk, [Wal(Truncate(size)), SyncWal], S);
  }

  /** Checkpoint: at every crash point the same batches, pending or installed;
      the WAL is cut only after the manifest that covers it is durable. */
  lemma {:induction false} CheckpointSafely(disk: Disk, m: Manifest, st: Store)
    requires Ready(disk, m, st) && CheckpointAllowed(st)
    requires ValidSegment(NewSegment(st)) && LastTime(st.floor, st.wal) >= 0
    requires TearsDetected(disk, CheckpointOps(st))
    ensures SafeDuring(disk, CheckpointOps(st), {st, Checkpointed(st)})
    ensures Ready(Execute(disk, CheckpointOps(st)), InstallManifest(st), Checkpointed(st))
  {
    hide Standing, SafeDuring, Execute, TearsDetected, SegmentOps, PublishOps, Checkpointed, WalExact, Located,
      ChainLength, BodyLength, PreviousLink, SkipLink, NewSegment, DbFits;
    InstalledPhase(st);
    var S := {st, Checkpointed(st)};
    var m' := InstallManifest(st);
    var a := SegmentOps(DATA_START + ChainLength(st.segs), NewSegment(st), PreviousLink(DATA_START, st.segs),
                        SkipLink(DATA_START, st.segs)) + [SyncDb];
    var b, c := PublishOps(m'), [Wal(Truncate(32)), SyncWal];
    assert CheckpointOps(st) == a + (b + c);
    TearsSplit(disk, a, b + c);
    SegmentPiece(disk, m, st, S);
    var d1 := Execute(disk, a);
    TearsSplit(d1, b, c);
    InstallPiece(d1, m, st, S);
    var d2 := Execute(d1, b);
    ReadyStanding(disk, m, st);
    InstalledRepeats(disk.wal.stable, st);
    CutPiece(d2, m', Checkpointed(st), 32, S);
    SafeConcat(d1, b, c, S);
    ExecuteConcat(d1, b, c);
    SafeConcat(disk, a, b + c, S);
    ExecuteConcat(disk, a, b + c);
  }

  lemma {:induction false} InstalledPhase(st: Store)
    requires st.wal != []
    ensures PhaseOf(InstallManifest(st)) == NORMAL && InstallManifest(st).time == LastTime(st.floor, st.wal)
  {
  }

  // --- expire --------------------------------------------------------------

  lemma {:induction false} PrepareSuccessor(v: bytes, m: Manifest, st: Store)
    requires DbFits(v, m, st) && PhaseOf(m) == NORMAL && st.revision <= TWO64 - 1 - 5
    requires PrepareManifest(st).time >= 0 && |v| >= DATA_START
    requires TearDetected(SlotBytes(v, RevisionOf(PrepareManifest(st)) % 2), ManifestBytes(PrepareManifest(st)))
    ensures ValidStore(Prepared(st)) && Fits(PrepareManifest(st), Prepared(st))
    ensures Successor(v, GoalFor(m, st), GoalFor(PrepareManifest(st), Prepared(st)))
  {
    hide ManifestBytes, TearDetected, Outranks, SlotBytes, ValidBatches, ChainLength, Located, Sequenced;
    PreparedValid(st);
    RetainRoot(st.segs, st.installed, st.floor, PrepareManifest(st));
  }

  lemma {:induction false} TailSuccessor(v: bytes, st: Store, cutoff: int)
    requires ValidStore(st) && ExpireAllowed(st, cutoff)
    requires DbFits(v, PrepareManifest(st), Prepared(st))
    requires Located(v, DATA_START + ChainLength(st.segs), Kept(st.segs, cutoff))
    requires TailManifest(st, cutoff).time >= 0 && |v| >= DATA_START
    requires TearDetected(SlotBytes(v, RevisionOf(TailManifest(st, cutoff)) % 2),
                          ManifestBytes(TailManifest(st, cutoff)))
    ensures ValidStore(Expired(st, cutoff)) && Fits(TailManifest(st, cutoff), Expired(st, cutoff))
    ensures Successor(v, GoalFor(PrepareManifest(st), Prepared(st)),
                      GoalFor(TailManifest(st, cutoff), Expired(st, cutoff)))
  {
    hide ManifestBytes, TearDetected, Outranks, SlotBytes, ValidBatches, ChainLength, Sequenced, Kept, ChainBytes;
    ExpiredValid(st, cutoff);
    KeptSubset(st.segs, cutoff);
    RetainRoot(Kept(st.segs, cutoff), st.installed, st.floor, TailManifest(st, cutoff));
  }

  /** WAL and high-water marks are untouched by retention. */
  lemma {:induction false} SameWal(w: bytes, st: Store, st': Store)
    requires st'.installed == st.installed && st'.wal == st.wal
    ensures WalFits(w, st) ==> WalFits(w, st')
    ensures WalExact(w, st) ==> WalExact(w, st')
  {
    hide WalContinues, WalRepeats, WalFrames;
  }

  lemma {:induction false} ValidSegmentsOf(st: Store)
    requires ValidStore(st)
    ensures ValidSegments(st.segs)
  {
  }

  lemma {:induction false} PreparePiece(disk: Disk, m: Manifest, st: Store, S: set<Store>)
    requires Ready(disk, m, st) && st.revision <= TWO64 - 1 - 5 && st in S && Prepared(st) in S
    requires st.floor >= 0 && TearsDetected(disk, PublishOps(PrepareManifest(st)))
    ensures var p := PrepareManifest(st);
            var after := Execute(disk, PublishOps(p));
            && SafeDuring(disk, PublishOps(p), S) && Standing(after, p, Prepared(st)) && after.wal == disk.wal
  {
    hide DbSafe, SafeDuring, Execute, TearsDetected, TearDetected, ManifestBytes, ChainLength, WalExact, WalFits,
      ValidData, DbFits;
    var p := PrepareManifest(st);
    ReadyStanding(disk, m, st);
    StandingVolatile(disk, m, st);
    TearAtPublish(disk, p);
    PrepareSuccessor(disk.db.stable, m, st);
    SameWal(disk.wal.stable, st, Prepared(st));
    PublishPiece(disk, m, st, p, Prepared(st), S);
  }

  /** The tail is copied past everything the PREPARE manifest names. */
  lemma {:induction false} PrepareRegion(st: Store, n: nat)
    ensures var end := DATA_START + ChainLength(st.segs);
              FreeRegion(GoalFor(PrepareManifest(st), Prepared(st)), end, end + n)
  {
  }

  lemma {:induction false} PrepareEnd(st: Store)
    ensures PrepareManifest(st).end == DATA_START + ChainLength(st.segs)
  {
  }

  lemma {:induction false} TailPiece(disk: Disk, st: Store, cutoff: int, S: set<Store>)
    requires ValidStore(st) && ExpireAllowed(st, cutoff) && Standing(disk, PrepareManifest(st), Prepared(st))
    requires Prepared(st) in S
    ensures var end := DATA_START + ChainLength(st.segs);
            var ops := CopyOps(end, Kept(st.segs, cutoff)) + [SyncDb];
            var after := Execute(disk, ops);
            && SafeDuring(disk, ops, S) && Standing(after, PrepareManifest(st), Prepared(st)) && after.wal == disk.wal
            && Located(Volatile(after.db), end, Kept(st.segs, cutoff))
  {
    hide Standing, SafeDuring, Located, Execute, CopyOps, Kept, ExpireAllowed, FreeRegion, ValidStore, ChainLength,
      GoalFor, PrepareManifest, Prepared, ValidSegment, Volatile, DbFits;
    ValidSegmentsOf(st);
    PrepareEnd(st);
    StandingVolatile(disk, PrepareManifest(st), Prepared(st));
    PrepareRegion(st, ChainLength(Kept(st.segs, cutoff)));
    CopyPiece(disk, PrepareManifest(st), Prepared(st), DATA_START + ChainLength(st.segs), Kept(st.segs, cutoff), S);
  }

  lemma {:induction false} SwitchPiece(disk: Disk, st: Store, cutoff: int, S: set<Store>)
    requires ValidStore(st) && ExpireAllowed(st, cutoff) && Standing(disk, PrepareManifest(st), Prepared(st))
    requires Prepared(st) in S && Expired(st, cutoff) in S
    requires Located(Volatile(disk.db), DATA_START + ChainLength(st.segs), Kept(st.segs, cutoff))
    requires st.floor >= 0 && TearsDetected(disk, PublishOps(TailManifest(st, cutoff)))
    ensures var t := TailManifest(st, cutoff);
            var after := Execute(disk, PublishOps(t));
            && SafeDuring(disk, PublishOps(t), S) && Standing(after, t, Expired(st, cutoff)) && after.wal == disk.wal
  {
    hide DbSafe, SafeDuring, Execute, TearsDetected, TearDetected, ManifestBytes, ChainLength, WalFits, ValidData,
      DbFits, Located, Kept;
    ValidSegmentsOf(st);
    var p, t := PrepareManifest(st), TailManifest(st, cutoff);
    StandingVolatile(disk, p, Prepared(st));
    TearAtPublish(disk, t);
    TailSuccessor(Volatile(disk.db), st, cutoff);
    SameWal(disk.wal.stable, Prepared(st), Expired(st, cutoff));
    PublishPiece(disk, p, Prepared(st), t, Expired(st, cutoff), S);
  }

  /** Retention: at every crash point the old batches or exactly the retained
      ones. The switch is the TAIL manifest. */
  lemma {:induction false} ExpireSafely(disk: Disk, m: Manifest, st: Store, cutoff: int)
    requires Ready(disk, m, st) && ValidSegments(st.segs) && ExpireAllowed(st, cutoff) && st.floor >= 0
    requires TearsDetected(disk, ExpireOps(st, cutoff))
    ensures SafeDuring(disk, ExpireOps(st, cutoff), {st, Prepared(st), Expired(st, cutoff)})
    ensures Ready(Execute(disk, ExpireOps(st, cutoff)),
                  FinalManifest(TailManifest(st, cutoff), Kept(st.segs, cutoff)), Expired(st, cutoff))
  {
    hide Standing, SafeDuring, Execute, TearsDetected, CopyOps, PublishOps, FinishOps, WalExact, Located, ChainLength,
      Kept, DbFits;
    var S := {st, Prepared(st), Expired(st, cutoff)};
    var p, t, kept := PrepareManifest(st), TailManifest(st, cutoff), Kept(st.segs, cutoff);
    var o1 := PublishOps(p);
    var o2 := CopyOps(DATA_START + ChainLength(st.segs), kept) + [SyncDb];
    var o3 := PublishOps(t);
    var o4 := FinishOps(t, kept);
    assert ExpireOps(st, cutoff) == o1 + (o2 + (o3 + o4));
    ReadyStanding(disk, m, st);
    TearsSplit(disk, o1, o2 + (o3 + o4));
    PreparePiece(disk, m, st, S);
    var d1 := Execute(disk, o1);
    TearsSplit(d1, o2, o3 + o4);
    TailPiece(d1, st, cutoff, S);
    var d2 := Execute(d1, o2);
    TearsSplit(d2, o3, o4);
    SwitchPiece(d2, st, cutoff, S);
    var d3 := Execute(d2, o3);
    FinishSafely(d3, t, Expired(st, cutoff), S);
    SafeConcat(d2, o3, o4, S);
    SafeConcat(d1, o2, o3 + o4, S);
    SafeConcat(disk, o1, o2 + (o3 + o4), S);
    ExecuteConcat(d2, o3, o4);
    ExecuteConcat(d1, o2, o3 + o4);
    ExecuteConcat(disk, o1, o2 + (o3 + o4));
    var after := Execute(disk, ExpireOps(st, cutoff));
    SameWal(disk.wal.stable, st, Expired(st, cutoff));
    StandingReady(after, FinalManifest(t, kept), Expired(st, cutoff));
  }

  lemma {:induction false} StandingReady(disk: Disk, m: Manifest, st: Store)
    requires Standing(disk, m, st) && PhaseOf(m) == NORMAL && disk.db.pending == [] && WalExact(disk.wal.stable, st)
    ensures Ready(disk, m, st)
  {
    StandingVolatile(disk, m, st);
  }

  // --- open ----------------------------------------------------------------

  /** A pair that can be opened: the data one manifest stands for, with the WAL
      ending where open will cut it. */
  ghost predicate Openable(d: bytes, w: bytes, m: Manifest, st: Store)
  {
    DbFits(d, m, st) && WalFits(w, st)
  }

  /** Cutting the WAL where open does leaves exactly the pending batches. */
  lemma {:induction false} CutExact(w: bytes, st: Store)
    requires ValidStore(st) && WalFits(w, st)
    ensures 32 + BodyLength(st.wal) <= |w|
    ensures WalExact(Resize(w, 32 + BodyLength(st.wal)), st)
  {
    hide ValidData, CutTail, WalRepeats, BodyBytes, ValidBatches;
    var size := 32 + BodyLength(st.wal);
    if WalContinues(w, st.installed, st.wal) {
      assert Resize(w, size)[32..size] == w[32..size];
    } else {
      RepeatsSize(w, st);
      NoBodyBytes(st.installed + 1);
    }
  }

  lemma {:induction false} RepeatsSize(w: bytes, st: Store)
    requires st.wal == [] && exists first, batches :: WalRepeats(w, st.installed, first, batches)
    ensures |w| >= 32 && ValidBatches(st.wal) && BodyLength(st.wal) == 0
  {
  }

  lemma {:induction false} ProvisionSafely(disk: Disk, m: Manifest, st: Store, S: set<Store>)
    requires SafeDisk(disk, S) && Openable(Volatile(disk.db), Volatile(disk.wal), m, st) && st in S
    ensures SafeDuring(disk, [SyncDb, SyncWal], S)
    ensures var after := Execute(disk, [SyncDb, SyncWal]);
            && after == Disk(Sync(disk.db), Sync(disk.wal)) && Standing(after, m, st)
  {
    hide WalFits, Good, Satisfies, ValidStore, Fits;
    var one := Perform(disk, SyncDb);
    VolatileIsImage(disk.db);
    forall d, w | Crash(one, d, w)
      ensures Good(d, w, S)
    {
      SyncedImage(one.db, d);
      assert Crash(disk, d, w);
    }
    var two := Perform(one, SyncWal);
    CleanSafe(Volatile(disk.db), GoalFor(m, st));
    StandingSafe(two, m, st, S);
    Prefixes(disk, [SyncDb, SyncWal], S);
  }

  /** Open: from any disk whose crash images are safe, interrupting recovery
      anywhere leaves it safe, and completing it leaves one coherent store,
      durable in both files. */
  lemma {:induction false} OpenSafely(disk: Disk, m: Manifest, st: Store, S: set<Store>)
    requires SafeDisk(disk, S) && Openable(Volatile(disk.db), Volatile(disk.wal), m, st) && st in S
    requires m.time >= 0 && ValidSegments(st.segs)
    requires TearsDetected(disk, OpenOps(m, st.segs, Volatile(disk.wal), 32 + BodyLength(st.wal)))
    ensures var script := OpenOps(m, st.segs, Volatile(disk.wal), 32 + BodyLength(st.wal));
            && SafeDuring(disk, script, S)
            && Ready(Execute(disk, script), FinalManifest(m, st.segs), st)
  {
    hide Standing, SafeDuring, SafeDisk, Execute, TearsDetected, RepairOps, Satisfies, WalFits, BodyLength, Fits;
    var w, size := Volatile(disk.wal), 32 + BodyLength(st.wal);
    var a, rest := [SyncDb, SyncWal], RepairOps(m, st.segs, w, size);
    OpenParts(m, st.segs, w, size);
    TearsSplit(disk, a, rest);
    ProvisionSafely(disk, m, st, S);
    var d1 := Execute(disk, a);
    RepairSafely(d1, m, st, S);
    SafeConcat(disk, a, rest, S);
    ExecuteConcat(disk, a, rest);
  }

  /** What open does after provisioning both files. */
  function RepairOps(m: Manifest, segs: seq<Segment>, w: bytes, walEnd: nat): seq<Io>
    requires m.time >= 0 && ValidSegments(segs)
  {
    (if PhaseOf(m) == NORMAL then [] else FinishOps(m, segs))
    + (if walEnd < |w| then [Wal(Truncate(walEnd)), SyncWal] else [])
  }

  lemma {:induction false} OpenParts(m: Manifest, segs: seq<Segment>, w: bytes, walEnd: nat)
    requires m.time >= 0 && ValidSegments(segs)
    ensures OpenOps(m, segs, w, walEnd) == [SyncDb, SyncWal] + RepairOps(m, segs, w, walEnd)
  {
    hide FinishOps, ValidSegment;
  }

  /** Once both files are durable, repairing them keeps the store. */
  lemma {:induction false} RepairSafely(disk: Disk, m: Manifest, st: Store, S: set<Store>)
    requires Standing(disk, m, st) && disk.db.pending == [] && st in S && m.time >= 0 && ValidSegments(st.segs)
    requires TearsDetected(disk, RepairOps(m, st.segs, disk.wal.stable, 32 + BodyLength(st.wal)))
    ensures var rest := RepairOps(m, st.segs, disk.wal.stable, 32 + BodyLength(st.wal));
            && SafeDuring(disk, rest, S) && Ready(Execute(disk, rest), FinalManifest(m, st.segs), st)
  {
    hide Standing, SafeDuring, SafeDisk, Execute, TearsDetected, FinishOps, WalExact, Satisfies, WalFits, BodyLength,
      Fits;
    StandingWal(disk, m, st);
    var w, size := disk.wal.stable, 32 + BodyLength(st.wal);
    var b := if PhaseOf(m) == NORMAL then [] else FinishOps(m, st.segs);
    var c := if size < |w| then [Wal(Truncate(size)), SyncWal] else [];
    assert RepairOps(m, st.segs, w, size) == b + c;
    TearsSplit(disk, b, c);
    FinishPiece(disk, m, st, S);
    var d2 := Execute(disk, b);
    var n := FinalManifest(m, st.segs);
    CutExact(w, st);
    if size < |w| {
      CutPiece(d2, n, st, size, S);
    } else {
      assert Resize(w, size) == w;
      StandingReady(d2, n, st);
      NothingMore(d2, n, st, S);
    }
    SafeConcat(disk, b, c, S);
    ExecuteConcat(disk, b, c);
  }

  lemma {:induction false} NothingMore(disk: Disk, m: Manifest, st: Store, S: set<Store>)
    requires Standing(disk, m, st) && st in S
    ensures SafeDuring(disk, [], S) && Execute(disk, []) == disk
  {
    StandingSafe(disk, m, st, S);
  }

  lemma {:induction false} FinishPiece(disk: Disk, m: Manifest, st: Store, S: set<Store>)
    requires Standing(disk, m, st) && st in S && m.time >= 0 && ValidSegments(st.segs) && disk.db.pending == []
    requires TearsDetected(disk, if PhaseOf(m) == NORMAL then [] else FinishOps(m, st.segs))
    ensures var ops := if PhaseOf(m) == NORMAL then [] else FinishOps(m, st.segs);
            && SafeDuring(disk, ops, S)
            && Execute(disk, ops).wal == disk.wal && Execute(disk, ops).db.pending == []
            && Standing(Execute(disk, ops), FinalManifest(m, st.segs), st)
  {
    hide Standing, SafeDuring, TearsDetected, FinishOps;
    if PhaseOf(m) == NORMAL {
      NothingMore(disk, m, st, S);
    } else {
      FinishSafely(disk, m, st, S);
    }
  }
}
