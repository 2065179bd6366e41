/** Every crash image of every prefix of every script recovers. */
module CrashSafety {
  import opened Bytes
  import opened Segments
  import opened ChainCheck
  import opened Manifests
  import opened Storage
  import opened Recovery
  import opened Stores
  import opened Authority
  import opened Scripts

  // --- coherent pairs ------------------------------------------------------

  function GoalFor(m: Manifest, st: Store): Goal
  {
    Goal(Root(m, st.segs, st.installed, st.floor), BodyLength(st.wal))
  }

  ghost predicate Fits(m: Manifest, st: Store)
  {
    m.Retain? == st.retained && DestinationOf(m) == st.revision
  }

  ghost predicate WalFits(w: bytes, st: Store)
  {
    || WalContinues(w, st.installed, st.wal)
    || (st.wal == [] && exists first, batches :: WalRepeats(w, st.installed, first, batches))
  }

  ghost predicate DbFits(d: bytes, m: Manifest, st: Store)
  {
    ValidStore(st) && Fits(m, st) && Satisfies(d, GoalFor(m, st))
  }

  /** The pair (d, w) stands for the store st. */
  ghost predicate Coherent(d: bytes, w: bytes, st: Store)
  {
    WalFits(w, st) && exists m :: DbFits(d, m, st)
  }

  /** The refused exception: st's data with 1..31 bytes of the next frame header. */
  ghost predicate Refused(d: bytes, w: bytes, st: Store)
  {
    WalShort(w, st.installed, st.wal) && exists m :: DbFits(d, m, st)
  }

  ghost predicate Good(d: bytes, w: bytes, S: set<Store>)
  {
    exists st :: st in S && (Coherent(d, w, st) || Refused(d, w, st))
  }

  ghost predicate SafeDisk(disk: Disk, S: set<Store>)
  {
    forall d, w :: Crash(disk, d, w) ==> Good(d, w, S)
  }

  /** The disk is safe after every prefix of the script. */
  ghost predicate SafeDuring(disk: Disk, script: seq<Io>, S: set<Store>)
  {
    forall n :: 0 <= n <= |script| ==> SafeDisk(Execute(disk, script[..n]), S)
  }

  lemma {:induction false} SafeConcat(disk: Disk, a: seq<Io>, b: seq<Io>, S: set<Store>)
    requires SafeDuring(disk, a, S) && SafeDuring(Execute(disk, a), b, S)
    ensures SafeDuring(disk, a + b, S)
  {
    hide SafeDisk;
    forall n | 0 <= n <= |a + b|
      ensures SafeDisk(Execute(disk, (a + b)[..n]), S)
    {
      if n <= |a| {
        assert (a + b)[..n] == a[..n];
      } else {
        assert (a + b)[..n] == a + b[..n - |a|];
        ExecuteConcat(disk, a, b[..n - |a|]);
      }
    }
  }

  /** A call that stops anywhere in its script, even inside one operation, leaves
      only images the script was proved safe for. */
  lemma {:induction false} StoppedSafe(disk: Disk, script: seq<Io>, after: Disk, S: set<Store>)
    requires SafeDuring(disk, script, S) && StoppedIn(disk, script, after)
    ensures SafeDisk(after, S)
  {
    hide Good;
    var n: nat :| n <= |script| && StoppedAt(disk, script, n, after);
    var done := Execute(disk, script[..n]);
    assert SafeDisk(done, S);
    if after != done {
      var whole := Perform(done, script[n]);
      assert script[..n + 1][..n] == script[..n];
      assert whole == Execute(disk, script[..n + 1]);
      assert SafeDisk(whole, S);
      forall d, w | Crash(after, d, w)
        ensures Good(d, w, S)
      {
        match script[n]
        case Db(op) =>
          var part :| Part(op, part) && after == Perform(done, Db(part));
          PartImage(done.db, op, part, d);
          assert Crash(whole, d, w);
        case Wal(op) =>
          var part :| Part(op, part) && after == Perform(done, Wal(part));
          PartImage(done.wal, op, part, w);
          assert Crash(whole, d, w);
        case _ =>
      }
    }
  }

  /** While only the database is being written. */
  lemma {:induction false} DbPhase(disk: Disk, m: Manifest, st: Store, m': Manifest, st': Store, S: set<Store>)
    requires DbSafe(disk.db, GoalFor(m, st), GoalFor(m', st'))
    requires disk.wal.pending == [] && WalFits(disk.wal.stable, st) && WalFits(disk.wal.stable, st')
    requires ValidStore(st) && ValidStore(st') && Fits(m, st) && Fits(m', st') && st in S && st' in S
    ensures SafeDisk(disk, S)
  {
    hide Satisfies, WalFits, ValidStore, Fits;
    forall d, w | Crash(disk, d, w)
      ensures Good(d, w, S)
    {
      SyncedImage(disk.wal, w);
      if Satisfies(d, GoalFor(m, st)) {
        assert DbFits(d, m, st);
        assert Coherent(d, w, st);
      } else {
        assert DbFits(d, m', st');
        assert Coherent(d, w, st');
      }
    }
  }

  // --- pieces of a script --------------------------------------------------

  /** Common ground of the database pieces: a manifest and its store on a disk
      whose WAL is at rest. */
  ghost predicate Standing(disk: Disk, m: Manifest, st: Store)
  {
    && ValidStore(st) && Fits(m, st)
    && DbSafe(disk.db, GoalFor(m, st), GoalFor(m, st))
    && disk.wal.pending == [] && WalFits(disk.wal.stable, st)
  }

  lemma {:induction false} StandingSafe(disk: Disk, m: Manifest, st: Store, S: set<Store>)
    requires Standing(disk, m, st) && st in S
    ensures SafeDisk(disk, S)
  {
    DbPhase(disk, m, st, m, st, S);
  }

  lemma {:induction false} StandingVolatile(disk: Disk, m: Manifest, st: Store)
    requires Standing(disk, m, st)
    ensures DbFits(Volatile(disk.db), m, st)
    ensures |Volatile(disk.db)| >= DATA_START && |Volatile(disk.db)| >= m.end
  {
    VolatileIsImage(disk.db);
    HeldSize(Volatile(disk.db), GoalFor(m, st));
  }

  lemma {:induction false} StandingWal(disk: Disk, m: Manifest, st: Store)
    requires Standing(disk, m, st)
    ensures ValidStore(st) && WalFits(disk.wal.stable, st) && disk.wal.pending == []
    ensures ValidSegments(st.segs)
  {
  }

  lemma {:induction false} Prefixes(disk: Disk, script: seq<Io>, S: set<Store>)
    requires |script| == 2
    requires SafeDisk(disk, S) && SafeDisk(Perform(disk, script[0]), S)
    requires SafeDisk(Perform(Perform(disk, script[0]), script[1]), S)
    ensures SafeDuring(disk, script, S)
    ensures Execute(disk, script) == Perform(Perform(disk, script[0]), script[1])
  {
    hide SafeDisk;
    assert script[..0] == [];
    assert script[..1] == [script[0]] && script[..1][..0] == [];
    assert script[..2] == script;
    assert Execute(disk, []) == disk;
    assert Execute(disk, script[..1]) == Perform(disk, script[0]);
    forall n | 0 <= n <= |script|
      ensures SafeDisk(Execute(disk, script[..n]), S)
    {
      assert n == 0 || n == 1 || n == 2;
    }
  }

  /** Publishing m' over m: either store survives each step; after the sync m' stands. */
  lemma {:induction false} PublishPiece(disk: Disk, m: Manifest, st: Store, m': Manifest, st': Store, S: set<Store>)
    requires Standing(disk, m, st) && st in S && st' in S
    requires ValidStore(st') && Fits(m', st') && WalFits(disk.wal.stable, st')
    requires Successor(Volatile(disk.db), GoalFor(m, st), GoalFor(m', st'))
    ensures m'.time >= 0
    ensures SafeDuring(disk, PublishOps(m'), S)
    ensures Standing(Execute(disk, PublishOps(m')), m', st')
    ensures Execute(disk, PublishOps(m')).wal == disk.wal
    ensures Execute(disk, PublishOps(m')).db == Sync(Issue(disk.db, SlotWrite(m')))
  {
    hide Satisfies, Successor, DbSafe, WalFits, ValidStore, SafeDisk, SafeDuring, Fits;
    var g, h := GoalFor(m, st), GoalFor(m', st');
    SuccessorTime(Volatile(disk.db), g, h);
    StandingSafe(disk, m, st, S);
    PublishStep(disk.db, g, h);
    var written := Perform(disk, Db(SlotWrite(m')));
    DbPhase(written, m, st, m', st', S);
    SyncStep(written.db, g, h);
    var synced := Perform(written, SyncDb);
    assert Standing(synced, m', st');
    StandingSafe(synced, m', st', S);
    Prefixes(disk, PublishOps(m'), S);
  }

  /** Database writes into a region free of m's extent. */
  lemma {:induction false} RegionPiece(disk: Disk, m: Manifest, st: Store, ops: seq<Io>, lo: nat, hi: nat, n: nat)
    requires Standing(disk, m, st) && FreeRegion(GoalFor(m, st), lo, hi)
    requires WritesWithin(ops, lo, hi) && n <= |ops|
    ensures Standing(Execute(disk, ops[..n]), m, st)
    ensures Execute(disk, ops[..n]).wal == disk.wal
  {
    hide DbSafe, WalFits, ValidStore, FreeRegion, Fits;
    if n == 0 {
      assert ops[..0] == [];
    } else {
      RegionPiece(disk, m, st, ops, lo, hi, n - 1);
      assert ops[..n][..n - 1] == ops[..n - 1];
      assert ops[..n][n - 1] == ops[n - 1];
      assert WriteWithin(ops[n - 1], lo, hi);
      var before := Execute(disk, ops[..n - 1]);
      var op := ops[n - 1].op;
      FreePart(GoalFor(m, st), lo, hi, op.offset, op.offset + |op.data|);
      FreeWriteStep(before.db, GoalFor(m, st), op.offset, op.data);
    }
  }

  lemma {:induction false} FreePart(g: Goal, lo: nat, hi: nat, a: nat, b: nat)
    requires FreeRegion(g, lo, hi) && lo <= a <= b <= hi
    ensures FreeRegion(g, a, b)
  {
  }

  /** A run of writes amounting to `data`, then a sync. */
  lemma {:induction false} WritePiece(disk: Disk, m: Manifest, st: Store, ops: seq<Io>, offset: nat, data: bytes,
                                      S: set<Store>)
    requires Standing(disk, m, st) && st in S && FreeRegion(GoalFor(m, st), offset, offset + |data|)
    requires Amounts(disk, ops, offset, data)
    ensures SafeDuring(disk, ops + [SyncDb], S)
    ensures Standing(Execute(disk, ops + [SyncDb]), m, st)
    ensures Execute(disk, ops + [SyncDb]) == Disk(File(Splice(Volatile(disk.db), offset, data), []), disk.wal)
  {
    hide DbSafe, WalFits, ValidStore, FreeRegion, SafeDisk, Fits;
    forall n | 0 <= n <= |ops|
      ensures SafeDisk(Execute(disk, ops[..n]), S)
    {
      RegionPiece(disk, m, st, ops, offset, offset + |data|, n);
      StandingSafe(Execute(disk, ops[..n]), m, st, S);
    }
    var written := Execute(disk, ops);
    assert ops[..|ops|] == ops;
    RegionPiece(disk, m, st, ops, offset, offset + |data|, |ops|);
    SyncPiece(written, m, st, S);
    SafeConcat(disk, ops, [SyncDb], S);
    ExecuteConcat(disk, ops, [SyncDb]);
  }

  lemma {:induction false} SyncPiece(disk: Disk, m: Manifest, st: Store, S: set<Store>)
    requires Standing(disk, m, st) && st in S
    ensures SafeDuring(disk, [SyncDb], S)
    ensures Execute(disk, [SyncDb]) == Perform(disk, SyncDb)
    ensures Standing(Perform(disk, SyncDb), m, st)
  {
    hide DbSafe, WalFits, ValidStore, SafeDisk, Fits;
    StandingSafe(disk, m, st, S);
    SyncStep(disk.db, GoalFor(m, st), GoalFor(m, st));
    StandingSafe(Perform(disk, SyncDb), m, st, S);
    var script := [SyncDb];
    assert script[..0] == [] && script[..1] == script;
    assert Execute(disk, script[..0]) == disk;
    forall n | 0 <= n <= |script|
      ensures SafeDisk(Execute(disk, script[..n]), S)
    {
      assert n == 0 || n == 1;
    }
  }

  lemma {:induction false} SplicedLocated(v: bytes, root: nat, segs: seq<Segment>)
    requires ValidSegments(segs) && (segs == [] ==> root <= |v|)
    ensures Located(Splice(v, root, ChainBytes(root, segs)), root, segs)
  {
    ChainTotal(root, segs);
    if segs == [] {
      assert ChainBytes(root, segs) == [];
    } else {
      ChainLengthBound(segs);
      SpliceHits(v, root, ChainBytes(root, segs));
    }
  }

  /** A chain rebuilt in a free region, then a sync. */
  lemma {:induction false} CopyPiece(disk: Disk, m: Manifest, st: Store, destination: nat, segs: seq<Segment>,
                                     S: set<Store>)
    requires Standing(disk, m, st) && st in S && ValidSegments(segs) && destination <= |Volatile(disk.db)|
    requires FreeRegion(GoalFor(m, st), destination, destination + ChainLength(segs))
    ensures var ops := CopyOps(destination, segs) + [SyncDb];
            && SafeDuring(disk, ops, S) && Standing(Execute(disk, ops), m, st)
            && Execute(disk, ops).wal == disk.wal
            && Located(Volatile(Execute(disk, ops).db), destination, segs)
  {
    hide Standing, SafeDuring, Located, Execute, CopyOps, Amounts, ChainBytes, ChainLength, FreeRegion, ValidSegment,
      Splice, Volatile, GoalFor;
    var data := ChainBytes(destination, segs);
    ChainSize(destination, segs);
    assert |data| == ChainLength(segs);
    CopyOpsAmount(disk, destination, segs);
    WritePiece(disk, m, st, CopyOps(destination, segs), destination, data, S);
    SplicedLocated(Volatile(disk.db), destination, segs);
    CleanVolatile(Splice(Volatile(disk.db), destination, data));
  }

  lemma {:induction false} CleanVolatile(x: bytes)
    ensures Volatile(File(x, [])) == x
  {
  }

  /** Truncation behind the extent of a retention phase, then a sync. */
  lemma {:induction false} TruncatePiece(disk: Disk, m: Manifest, st: Store, size: nat, S: set<Store>)
    requires Standing(disk, m, st) && st in S && PhaseOf(m) != NORMAL && size >= DATA_START && size >= m.end
    ensures SafeDuring(disk, [Db(Truncate(size)), SyncDb], S)
    ensures Standing(Execute(disk, [Db(Truncate(size)), SyncDb]), m, st)
    ensures Execute(disk, [Db(Truncate(size)), SyncDb]) == Disk(File(Resize(Volatile(disk.db), size), []), disk.wal)
  {
    hide DbSafe, WalFits, ValidStore, SafeDisk, SafeDuring, Fits;
    var g := GoalFor(m, st);
    StandingSafe(disk, m, st, S);
    TruncateStep(disk.db, g, size);
    IssueVolatile(disk.db, Truncate(size));
    var cut := Perform(disk, Db(Truncate(size)));
    StandingSafe(cut, m, st, S);
    SyncStep(cut.db, g, g);
    StandingSafe(Perform(cut, SyncDb), m, st, S);
    Prefixes(disk, [Db(Truncate(size)), SyncDb], S);
  }

  // --- retention manifests -------------------------------------------------

  lemma {:induction false} RetainRoot(segs: seq<Segment>, installed: nat, floor: int, m: Manifest)
    requires ValidData(segs, installed, floor, true)
    requires m.Retain? && Describes(m, segs, installed, floor)
    requires 1 <= m.revision < TWO64 && m.phase <= 3 && WithinBudget(m)
    requires m.root >= DATA_START && m.end <= DATABASE_CAPACITY
    requires if m.phase == TAIL then ChainLength(segs) <= m.root - DATA_START else m.root == DATA_START
    ensures ValidRoot(Root(m, segs, installed, floor))
  {
    hide Sequenced, ValidSegment;
    ChainLengthBound(segs);
    CountBound(segs, true, |segs|);
    if segs != [] {
      OffsetIncreases(m.root, segs, |segs| - 1, |segs|);
      assert segs[..|segs|] == segs;
    }
  }

  /** The last two steps, from PREPARE or CLEANUP: truncate, publish NORMAL. */
  lemma {:induction false} CleanSafely(disk: Disk, m: Manifest, st: Store, S: set<Store>)
    requires Standing(disk, m, st) && st in S
    requires m.Retain? && (m.phase == PREPARE || m.phase == CLEANUP) && m.time >= 0
    requires TearsDetected(disk, CleanOps(m, st.segs))
    ensures SafeDuring(disk, CleanOps(m, st.segs), S)
    ensures Standing(Execute(disk, CleanOps(m, st.segs)), NextRetain(m, st.segs, DATA_START, NORMAL), st)
    ensures var after := Execute(disk, CleanOps(m, st.segs)); after.db.pending == [] && after.wal == disk.wal
  {
    hide Standing, SafeDisk, SafeDuring, TearsDetected, Execute, PublishOps;
    StandingVolatile(disk, m, st);
    var size := if m.end == DATA_START then MARKER_SIZE else m.end;
    var cut := [Db(Truncate(size)), SyncDb];
    var n := NextRetain(m, st.segs, DATA_START, NORMAL);
    TearsSplit(disk, cut, PublishOps(n));
    TruncatePiece(disk, m, st, size, S);
    PublishNormal(Execute(disk, cut), m, st, S);
    SafeConcat(disk, cut, PublishOps(n), S);
    ExecuteConcat(disk, cut, PublishOps(n));
  }

  lemma {:induction false} PublishNormal(disk: Disk, m: Manifest, st: Store, S: set<Store>)
    requires Standing(disk, m, st) && st in S
    requires m.Retain? && (m.phase == PREPARE || m.phase == CLEANUP) && m.time >= 0
    requires |Volatile(disk.db)| == if m.end == DATA_START then MARKER_SIZE else m.end
    requires TearsDetected(disk, PublishOps(NextRetain(m, st.segs, DATA_START, NORMAL)))
    ensures var n := NextRetain(m, st.segs, DATA_START, NORMAL);
            && SafeDuring(disk, PublishOps(n), S) && Standing(Execute(disk, PublishOps(n)), n, st)
            && Execute(disk, PublishOps(n)).wal == disk.wal && Execute(disk, PublishOps(n)).db.pending == []
  {
    hide DbSafe, WalFits, SafeDisk, SafeDuring, Execute, TearsDetected, TearDetected, ManifestBytes, Located;
    var n := NextRetain(m, st.segs, DATA_START, NORMAL);
    StandingVolatile(disk, m, st);
    TearAtPublish(disk, n);
    CleanSuccessor(Volatile(disk.db), m, st);
    PublishPiece(disk, m, st, n, st, S);
  }

  lemma {:induction false} CleanSuccessor(v: bytes, m: Manifest, st: Store)
    requires DbFits(v, m, st) && m.Retain? && (m.phase == PREPARE || m.phase == CLEANUP)
    requires |v| == if m.end == DATA_START then MARKER_SIZE else m.end
    requires var n := NextRetain(m, st.segs, DATA_START, NORMAL);
             |v| >= DATA_START && m.time >= 0 && TearDetected(SlotBytes(v, RevisionOf(n) % 2), ManifestBytes(n))
    ensures var n := NextRetain(m, st.segs, DATA_START, NORMAL);
            && Fits(n, st) && Successor(v, GoalFor(m, st), GoalFor(n, st))
  {
    hide Located, ManifestBytes, TearDetected, Outranks, SlotBytes, ValidBatches, ChainLength;
    var n := NextRetain(m, st.segs, DATA_START, NORMAL);
    RetainRoot(st.segs, st.installed, st.floor, n);
    if st.segs != [] {
      ChainLengthBound(st.segs);
    } else {
      EmptyChain();
    }
  }

  lemma {:induction false} EmptyChain()
    ensures ChainLength([]) == 0
  {
  }

  /** Finishing a retention from any phase, every crash included: the segments
      the newest manifest names stay durable, and the destination revision is
      the same from wherever it is resumed. */
  lemma {:induction false} FinishSafely(disk: Disk, m: Manifest, st: Store, S: set<Store>)
    requires Standing(disk, m, st) && st in S && m.Retain? && PhaseOf(m) != NORMAL && m.time >= 0
    requires TearsDetected(disk, FinishOps(m, st.segs))
    ensures SafeDuring(disk, FinishOps(m, st.segs), S)
    ensures var after := Execute(disk, FinishOps(m, st.segs));
            && after.db.pending == [] && after.wal == disk.wal
            && Standing(after, FinalManifest(m, st.segs), st)
  {
    hide Standing, SafeDisk, SafeDuring, TearsDetected, Located, Execute, TearDetected, CleanOps, CopyOps, PublishOps;
    StandingPhase(disk, m, st);
    if m.phase == TAIL {
      var c := NextRetain(m, st.segs, DATA_START, CLEANUP);
      var copy := CopyOps(DATA_START, st.segs) + [SyncDb];
      assert FinishOps(m, st.segs) == copy + (PublishOps(c) + CleanOps(c, st.segs));
      TearsSplit(disk, copy, PublishOps(c) + CleanOps(c, st.segs));
      FrontCopy(disk, m, st, S);
      var mid := Execute(disk, copy);
      TearsSplit(mid, PublishOps(c), CleanOps(c, st.segs));
      PublishCleanup(mid, m, st, S);
      var late := Execute(mid, PublishOps(c));
      CleanSafely(late, c, st, S);
      SafeConcat(mid, PublishOps(c), CleanOps(c, st.segs), S);
      ExecuteConcat(mid, PublishOps(c), CleanOps(c, st.segs));
      SafeConcat(disk, copy, PublishOps(c) + CleanOps(c, st.segs), S);
      ExecuteConcat(disk, copy, PublishOps(c) + CleanOps(c, st.segs));
    } else {
      CleanSafely(disk, m, st, S);
    }
  }

  lemma {:induction false} StandingPhase(disk: Disk, m: Manifest, st: Store)
    requires Standing(disk, m, st) && m.Retain? && PhaseOf(m) != NORMAL
    ensures m.phase == PREPARE || m.phase == TAIL || m.phase == CLEANUP
    ensures ValidSegments(st.segs)
  {
    StandingVolatile(disk, m, st);
  }

  lemma {:induction false} FrontCopy(disk: Disk, m: Manifest, st: Store, S: set<Store>)
    requires Standing(disk, m, st) && st in S && m.Retain? && m.phase == TAIL
    ensures var ops := CopyOps(DATA_START, st.segs) + [SyncDb];
            && SafeDuring(disk, ops, S) && Standing(Execute(disk, ops), m, st)
            && Execute(disk, ops).wal == disk.wal
            && Located(Volatile(Execute(disk, ops).db), DATA_START, st.segs)
  {
    hide Standing, SafeDuring, Located, Execute, CopyOps, FreeRegion, DbFits, Volatile, GoalFor, ChainLength;
    StandingVolatile(disk, m, st);
    TailRegion(Volatile(disk.db), m, st);
    CopyPiece(disk, m, st, DATA_START, st.segs, S);
  }

  /** The front copy fits below the tail: source and destination never overlap. */
  lemma {:induction false} TailRegion(v: bytes, m: Manifest, st: Store)
    requires DbFits(v, m, st) && m.Retain? && m.phase == TAIL
    ensures ValidSegments(st.segs)
    ensures FreeRegion(GoalFor(m, st), DATA_START, DATA_START + ChainLength(st.segs))
  {
  }

  lemma {:induction false} PublishCleanup(disk: Disk, m: Manifest, st: Store, S: set<Store>)
    requires Standing(disk, m, st) && st in S && m.Retain? && m.phase == TAIL
    requires ValidSegments(st.segs) && Located(Volatile(disk.db), DATA_START, st.segs)
    requires var c := NextRetain(m, st.segs, DATA_START, CLEANUP); m.time >= 0 && TearsDetected(disk, PublishOps(c))
    ensures var c := NextRetain(m, st.segs, DATA_START, CLEANUP);
            && SafeDuring(disk, PublishOps(c), S) && Standing(Execute(disk, PublishOps(c)), c, st)
            && Execute(disk, PublishOps(c)).wal == disk.wal
  {
    hide DbSafe, WalFits, SafeDisk, SafeDuring, Execute, TearsDetected, TearDetected, ManifestBytes, Located;
    var c := NextRetain(m, st.segs, DATA_START, CLEANUP);
    StandingVolatile(disk, m, st);
    TearAtPublish(disk, c);
    CleanupSuccessor(Volatile(disk.db), m, st);
    PublishPiece(disk, m, st, c, st, S);
  }

  lemma {:induction false} CleanupSuccessor(v: bytes, m: Manifest, st: Store)
    requires DbFits(v, m, st) && m.Retain? && m.phase == TAIL && Located(v, DATA_START, st.segs)
    requires var c := NextRetain(m, st.segs, DATA_START, CLEANUP);
             |v| >= DATA_START && m.time >= 0 && TearDetected(SlotBytes(v, RevisionOf(c) % 2), ManifestBytes(c))
    ensures var c := NextRetain(m, st.segs, DATA_START, CLEANUP);
            && Fits(c, st) && Successor(v, GoalFor(m, st), GoalFor(c, st))
  {
    hide ManifestBytes, TearDetected, Outranks, SlotBytes, ValidBatches, ChainLength, ChainBytes;
    RetainRoot(st.segs, st.installed, st.floor, NextRetain(m, st.segs, DATA_START, CLEANUP));
  }
}
