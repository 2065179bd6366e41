/** What each acknowledged call leaves in the files, byte by byte. */
module Effects {
  import opened Bytes
  import opened Checksum
  import opened Frames
  import opened Segments
  import opened ChainCheck
  import opened Manifests
  import opened Storage
  import opened Recovery
  import opened Stores
  import opened Authority
  import opened Scripts
  import opened CrashSafety
  import opened Calls
  import opened Runs
  import Layout
  import Pairs

  // --- append --------------------------------------------------------------

  /** An acknowledged append adds exactly its frame, with the next sequence number, to
      the WAL, durably; the database is not touched. */
  lemma {:induction false} AppendBytes(s: System, s': System, S: set<Store>, b: Batch)
    requires Invariant(s, S) && Step(s, Done(Append(b)), s')
    ensures s.mode.Usable? && ValidBatch(b)
    ensures var sequence := s.mode.st.installed + |s.mode.st.wal| + 1;
            && s'.disk.db == s.disk.db
            && s'.disk.wal == File(s.disk.wal.stable + Frame(sequence, b), [])
  {
    hide Frame, Body, Commit, DbFits, WalExact, AppendAllowed, FrameLength, SafeDuring, Execute, BodyLength, Appended,
      ValidBatch, ValidStore, ValidSegments, TearsDetected;
    var disk, m, st := s.disk, s.mode.m, s.mode.st;
    var w, sequence := disk.wal.stable, st.installed + |st.wal| + 1;
    FrameOfAllowed(st, b);
    EndOf(w, st);
    var f, body, commit := Frame(sequence, b), Body(sequence, b), Commit(sequence, b);
    assert w + f[..0] == w;
    assert f[0..0 + |body|] == body && f[|body|..|body| + |commit|] == commit;
    ExtendPiece(disk, m, st, b, w, 0, body);
    var first := [Wal(Write(|w| + 0, body)), SyncWal];
    var second := [Wal(Write(|w| + |body|, commit)), SyncWal];
    ExtendPiece(Execute(disk, first), m, st, b, w, |body|, commit);
    ExecuteConcat(disk, first, second);
    assert AppendOps(st, b) == first + second;
    assert f[..|f|] == f;
  }

  // --- checkpoint ----------------------------------------------------------

  /** What a checkpoint leaves in the database: the old manifest in the one slot, the
      new one in the other, and a file that ends behind the new segment. */
  lemma {:induction false} CheckpointFile(disk: Disk, m: Manifest, st: Store)
    requires Ready(disk, m, st) && CheckpointAllowed(st)
    requires ValidSegment(NewSegment(st)) && LastTime(st.floor, st.wal) >= 0
    requires TearsDetected(disk, CheckpointOps(st))
    ensures m.time >= 0 && InstallManifest(st).time >= 0 && ValidSegments(Checkpointed(st).segs)
    ensures var d := Execute(disk, CheckpointOps(st)).db.stable;
            var i := RevisionOf(InstallManifest(st)) % 2;
            && |d| == DATA_START + ChainLength(Checkpointed(st).segs) >= DATA_START
            && SlotBytes(d, i) == ManifestBytes(InstallManifest(st))
            && SlotBytes(d, 1 - i) == ManifestBytes(m) && RevisionOf(m) % 2 == 1 - i
            && GoodManifest(m, m.end) && m.end <= |d|
  {
    hide Standing, SafeDuring, Execute, TearsDetected, SegmentOps, PublishOps, WalExact, Located, SlotBytes, Splice,
      ChainLength, BodyLength, PreviousLink, SkipLink, NewSegment, DbFits, ManifestBytes, Volatile, Checkpointed,
      InstallManifest;
    var S := {st, Checkpointed(st)};
    var m' := InstallManifest(st);
    var a := SegmentOps(DATA_START + ChainLength(st.segs), NewSegment(st), PreviousLink(DATA_START, st.segs),
                        SkipLink(DATA_START, st.segs)) + [SyncDb];
    InstalledPhase(st);
    var b, c := PublishOps(m'), [Wal(Truncate(32)), SyncWal];
    assert CheckpointOps(st) == a + (b + c);
    TearsSplit(disk, a, b + c);
    SegmentPiece(disk, m, st, S);
    var d1 := Execute(disk, a);
    TearsSplit(d1, b, c);
    InstallPiece(d1, m, st, S);
    ExecuteConcat(d1, b, c);
    ExecuteConcat(disk, a, b + c);
    CutKeepsDb(Execute(d1, b), 32);
    StandingVolatile(d1, m, st);
    IssueVolatile(d1.db, SlotWrite(m'));
    SlotWritten(Volatile(d1.db), m');
    Revisions(Volatile(d1.db), m, st);
  }

  lemma {:induction false} CutKeepsDb(disk: Disk, size: nat)
    ensures Execute(disk, [Wal(Truncate(size)), SyncWal]).db == disk.db
  {
    TwoSteps(disk, [Wal(Truncate(size)), SyncWal]);
  }

  lemma {:induction false} SlotWritten(v: bytes, m: Manifest)
    requires |v| >= DATA_START && m.time >= 0
    ensures var x := Apply(v, SlotWrite(m));
            && |x| == |v| && SlotBytes(x, RevisionOf(m) % 2) == ManifestBytes(m)
            && SlotBytes(x, 1 - RevisionOf(m) % 2) == SlotBytes(v, 1 - RevisionOf(m) % 2)
  {
    hide ManifestBytes, Splice, SlotBytes, Torn;
    PartialSlot(v, m, 64);
    assert ManifestBytes(m)[..64] == ManifestBytes(m);
    WholeSlot(SlotBytes(v, RevisionOf(m) % 2), ManifestBytes(m));
  }

  lemma {:induction false} Revisions(v: bytes, m: Manifest, st: Store)
    requires DbFits(v, m, st) && PhaseOf(m) == NORMAL && CheckpointAllowed(st)
    ensures m.time >= 0 && GoodManifest(m, m.end) && m.end <= |v| && |v| >= DATA_START
    ensures RevisionOf(m) % 2 == 1 - RevisionOf(InstallManifest(st)) % 2
    ensures SlotBytes(v, RevisionOf(m) % 2) == ManifestBytes(m)
  {
    hide ManifestBytes, Located, SlotBytes, ChainLength, BodyLength, ValidData, NewSegment, Outranks;
    assert RevisionOf(InstallManifest(st)) == RevisionOf(m) + 1;
  }

  /** The new segment lies behind the old data, its frames being those of the WAL. */
  lemma {:induction false} SegmentLeft(d: bytes, x: bytes, w: bytes, st: Store)
    requires ValidStore(st) && CheckpointAllowed(st) && ValidSegments(st.segs) && ValidSegment(NewSegment(st))
    requires Located(d, DATA_START, st.segs) && WalExact(w, st)
    requires ValidSegments(st.segs + [NewSegment(st)]) && Located(x, DATA_START, st.segs + [NewSegment(st)])
    requires |x| == DATA_START + ChainLength(st.segs + [NewSegment(st)])
    ensures var end := DATA_START + ChainLength(st.segs);
            && |x| == end + 64 + (|w| - 32) && end <= |d|
            && x[DATA_START..end] == d[DATA_START..end]
            && x[end..end + 64]
               == HeaderBytes(NewSegment(st), PreviousLink(DATA_START, st.segs), SkipLink(DATA_START, st.segs))
            && x[end + 64..] == w[32..]
  {
    hide ChainBytes, ChainLength, HeaderBytes, PreviousLink, SkipLink, BodyBytes, BodyLength, ValidStore, NewSegment,
      ValidSegment;
    var s, p, k := NewSegment(st), PreviousLink(DATA_START, st.segs), SkipLink(DATA_START, st.segs);
    var end := DATA_START + ChainLength(st.segs);
    ChainSnoc(DATA_START, st.segs, s);
    ChainSize(DATA_START, st.segs);
    NewSegmentSize(st);
    SegmentParts(st, p, k);
    var chain := ChainBytes(DATA_START, st.segs);
    var h, body := HeaderBytes(s, p, k), BodyBytes(s.first, s.batches);
    assert x[DATA_START..|x|] == chain + (h + body);
    SubSlice(x, DATA_START, |x|, 0, |chain|);
    SubSlice(x, DATA_START, |x|, |chain|, |chain| + 64);
    SubSlice(x, DATA_START, |x|, |chain| + 64, |x| - DATA_START);
    assert (chain + (h + body))[0..|chain|] == chain;
    assert (chain + (h + body))[|chain|..|chain| + 64] == h;
    assert (chain + (h + body))[|chain| + 64..|x| - DATA_START] == body;
    assert x[end + 64..] == x[end + 64..|x|];
    assert w[32..] == w[32..|w|];
  }

  lemma {:induction false} SegmentParts(st: Store, p: nat, k: nat)
    requires st.wal != [] && ValidSegment(NewSegment(st))
    ensures var s := NewSegment(st);
            && SegmentBytes(s, p, k) == HeaderBytes(s, p, k) + BodyBytes(s.first, s.batches) && HeaderSize(s) == 64
            && s.first == st.installed + 1 && s.batches == st.wal
            && |BodyBytes(s.first, s.batches)| == BodyLength(st.wal)
  {
    hide HeaderBytes, BodyBytes, BodyLength, Times, Sorted;
    BodyTotal(st.installed + 1, st.wal);
  }

  /** An acknowledged checkpoint moves the frames of the WAL, unchanged, behind the
      installed data and leaves of the WAL its 32-byte header. */
  lemma {:induction false} CheckpointBytes(s: System, s': System, S: set<Store>)
    requires Invariant(s, S) && Step(s, Done(Checkpoint), s')
    ensures s.mode.Usable? && s.mode.st.wal != [] && ValidSegment(NewSegment(s.mode.st))
    ensures var st, end := s.mode.st, s.mode.m.end;
            var d, w, x := s.disk.db.stable, s.disk.wal.stable, s'.disk.db.stable;
            && s'.disk == Disk(File(x, []), File(w[..32], []))
            && DATA_START <= end <= |d| && |w| >= 32 && |x| == end + 64 + (|w| - 32)
            && x[DATA_START..end] == d[DATA_START..end]
            && x[end..end + 64]
               == HeaderBytes(NewSegment(st), PreviousLink(DATA_START, st.segs), SkipLink(DATA_START, st.segs))
            && x[end + 64..] == w[32..]
  {
    hide Ready, TearsDetected, Execute, CheckpointOps, ValidStore, ValidSegments, InstallManifest, ManifestBytes,
      GoodManifest, CheckpointAllowed, ChainLength, HeaderBytes, PreviousLink, SkipLink, NewSegment, Located,
      WalExact;
    var disk, m, st := s.disk, s.mode.m, s.mode.st;
    WritableStore(st);
    EffectiveWal(st);
    CheckpointFile(disk, m, st);
    CheckpointSafely(disk, m, st);
    ReadyParts(disk, m, st);
    ReadyParts(s'.disk, s'.mode.m, Checkpointed(st));
    ReadyStanding(disk, m, st);
    SegmentLeft(disk.db.stable, s'.disk.db.stable, disk.wal.stable, st);
    WalLeft(disk, m, st);
  }

  lemma {:induction false} EffectiveWal(st: Store)
    requires CheckpointAllowed(st)
    ensures st.wal != []
  {
  }

  lemma {:induction false} ReadyParts(disk: Disk, m: Manifest, st: Store)
    requires Ready(disk, m, st)
    ensures ValidSegments(st.segs) && Located(disk.db.stable, DATA_START, st.segs) && WalExact(disk.wal.stable, st)
    ensures disk.db.pending == [] && disk.wal.pending == []
  {
    hide DbFits, Located, WalExact;
    HeldLocated(disk.db.stable, m, st);
  }

  /** The WAL is cut to its header. */
  lemma {:induction false} WalLeft(disk: Disk, m: Manifest, st: Store)
    requires Ready(disk, m, st) && CheckpointAllowed(st)
    requires ValidSegment(NewSegment(st)) && LastTime(st.floor, st.wal) >= 0
    ensures |disk.wal.stable| >= 32
    ensures Execute(disk, CheckpointOps(st)).wal == File(disk.wal.stable[..32], [])
  {
    hide SegmentOps, PublishOps, ChainLength, PreviousLink, SkipLink, NewSegment, SegmentBytes, Execute, DbFits,
      LastTime, InstallManifest, WalFrames, BodyLength;
    InstalledPhase(st);
    var end, s := DATA_START + ChainLength(st.segs), NewSegment(st);
    var p, k := PreviousLink(DATA_START, st.segs), SkipLink(DATA_START, st.segs);
    var a, b, c := SegmentOps(end, s, p, k), [SyncDb] + PublishOps(InstallManifest(st)), [Wal(Truncate(32)), SyncWal];
    assert CheckpointOps(st) == a + (b + c);
    SegmentOpsAmount(disk, end, s, p, k);
    ExecuteConcat(disk, a, b + c);
    ExecuteConcat(Execute(disk, a), b, c);
    PublishKeepsWal(Execute(disk, a), InstallManifest(st));
    CutWal(Execute(Execute(disk, a), b), 32);
  }

  lemma {:induction false} PublishKeepsWal(disk: Disk, m: Manifest)
    requires m.time >= 0
    ensures Execute(disk, [SyncDb] + PublishOps(m)).wal == disk.wal
  {
    hide ManifestBytes;
    var ops := [SyncDb] + PublishOps(m);
    assert ops[..2] == [ops[0], ops[1]] && ops[..2][..1] == [ops[0]] && [ops[0]][..0] == [];
    assert Execute(disk, []) == disk;
    assert Execute(disk, [ops[0]]) == Perform(disk, ops[0]);
    assert Execute(disk, ops[..2]) == Perform(Perform(disk, ops[0]), ops[1]);
  }

  lemma {:induction false} CutWal(disk: Disk, size: nat)
    requires disk.wal.pending == [] && size <= |disk.wal.stable|
    ensures Execute(disk, [Wal(Truncate(size)), SyncWal]).wal == File(disk.wal.stable[..size], [])
  {
    TwoSteps(disk, [Wal(Truncate(size)), SyncWal]);
    CutImages(disk.wal, size);
  }

  /** The header of a new segment by positions: "TLSPAN07" when no time decreases and
      "TLUNOR07" otherwise; first and last sequence, length of the frames, least and
      greatest time, links to the last segment and to ordinal n - lowbit(n). */
  ghost predicate HeaderLeft(h: bytes, st: Store, length: int)
    requires |h| == 64 && Times(st.wal) != []
  {
    var t, n := Times(st.wal), |st.segs| + 1;
    && h[..8] == (if forall i, j :: 0 <= i < j < |t| ==> t[i] <= t[j] then [84, 76, 83, 80, 65, 78, 48, 55]
                  else [84, 76, 85, 78, 79, 82, 48, 55])
    && Un(h[8..16]) == st.installed + 1 && Un(h[16..24]) == st.installed + |st.wal| && Un(h[24..28]) == length
    && Un(h[28..36]) == LowestOf(t) && Un(h[36..44]) == HighestOf(t)
    && Un(h[44..52]) == LinkTo(DATA_START, st.segs, n - 1)
    && Un(h[52..60]) == LinkTo(DATA_START, st.segs, n - LowBit(n))
    && Un(h[60..64]) == Crc(h[..60])
  }

  lemma {:induction false} HeaderFields(st: Store)
    requires st.wal != [] && ValidSegment(NewSegment(st)) && Times(st.wal) != []
    requires U64(PreviousLink(DATA_START, st.segs)) && U64(SkipLink(DATA_START, st.segs))
    ensures var h := HeaderBytes(NewSegment(st), PreviousLink(DATA_START, st.segs), SkipLink(DATA_START, st.segs));
            |h| == 64 && HeaderLeft(h, st, BodyLength(st.wal))
  {
    hide Un, Crc, ValidSegment, HeaderBytes, LowBit, LowestOf, HighestOf, Times, BodyLength, LinkTo, Lowest, Highest,
      LastOf;
    NewHeaderFields(st);
    Layout.HeaderAt(NewSegment(st), PreviousLink(DATA_START, st.segs), SkipLink(DATA_START, st.segs));
  }

  /** That is the header a checkpoint puts in front of the frames. */
  lemma {:induction false} CheckpointHeader(s: System, s': System, S: set<Store>)
    requires Invariant(s, S) && Step(s, Done(Checkpoint), s')
    ensures s.mode.Usable? && |s'.disk.db.stable| >= s.mode.m.end + 64 && Times(s.mode.st.wal) != []
    ensures HeaderLeft(s'.disk.db.stable[s.mode.m.end..s.mode.m.end + 64], s.mode.st, |s.disk.wal.stable| - 32)
  {
    hide Ready, Step, HeaderBytes, ValidSegment, NewSegment, PreviousLink, SkipLink, HeaderLeft, WalExact, BodyLength,
      Located, Times;
    CheckpointBytes(s, s', S);
    var st := s.mode.st;
    LinkBounds(s.disk, s.mode.m, st);
    NewHeaderFields(st);
    HeaderFields(st);
    ReadyParts(s.disk, s.mode.m, st);
    EndOf(s.disk.wal.stable, st);
  }

  lemma {:induction false} LinkBounds(disk: Disk, m: Manifest, st: Store)
    requires Ready(disk, m, st)
    ensures U64(PreviousLink(DATA_START, st.segs)) && U64(SkipLink(DATA_START, st.segs))
  {
    hide Ready, ValidStore, Standing, LowBit, ChainLength, LinkTo, Volatile, ValidSegments;
    RootBound(disk, m, st);
    LinkBound(st.segs, |st.segs|);
    LinkBound(st.segs, |st.segs| + 1 - LowBit(|st.segs| + 1));
  }

  lemma {:induction false} LinkBound(segs: seq<Segment>, n: nat)
    requires n <= |segs|
    ensures LinkTo(DATA_START, segs, n) <= DATA_START + ChainLength(segs)
  {
    hide ChainLength;
    if n > 0 {
      ChainLengthPrefix(segs, n - 1);
    }
  }

  lemma {:induction false} RootBound(disk: Disk, m: Manifest, st: Store)
    requires Ready(disk, m, st)
    ensures DATA_START + ChainLength(st.segs) <= DATABASE_CAPACITY
  {
    hide ChainLength, Located, ManifestBytes, Outranks, WalExact;
    RootBounds(GoalFor(m, st).r);
  }

  lemma {:induction false} NewHeaderFields(st: Store)
    requires st.wal != [] && ValidSegment(NewSegment(st))
    ensures var s := NewSegment(st);
            && s.kind != Plain && (s.kind == Span <==> Sorted(Times(st.wal)))
            && s.first == st.installed + 1 && LastOf(s) == st.installed + |st.wal|
            && Times(st.wal) != []
            && Lowest(s) == LowestOf(Times(st.wal)) && Highest(s) == HighestOf(Times(st.wal))
  {
    hide BodyLength, Times, Sorted;
    TimesOf(st.wal);
  }

  /** The manifest of a checkpoint by positions: revision, size of the file, last
      sequence, time of the last record, the new segment as the tail. */
  ghost predicate SlotLeft(f: bytes, st: Store, end: nat, size: nat)
    requires |f| == 64 && st.wal != [] && st.wal[|st.wal| - 1] != []
  {
    && Un(f[8..16]) == st.revision + 1 && Un(f[16..24]) == size
    && Un(f[24..32]) == st.installed + |st.wal|
    && Un(f[32..40]) == LastTimeOf(st.wal[|st.wal| - 1]) && Un(f[60..64]) == Crc(f[..60])
    && if st.retained then
         && f[..8] == [84, 76, 82, 69, 84, 65, 73, 78]
         && Un(f[40..44]) == end && Un(f[44..48]) == 160 && Un(f[48..52]) == 10
         && Un(f[52..56]) == |st.segs| + 1 && Un(f[56..60]) == 0
       else
         && f[..8] == [84, 76, 73, 78, 83, 84, 65, 76] && st.revision == |st.segs|
         && Un(f[40..48]) == end && Un(f[48..52]) == 7
  }

  lemma {:induction false} FieldsLeft(disk: Disk, m: Manifest, st: Store, size: nat)
    requires Ready(disk, m, st) && CheckpointAllowed(st) && GoodManifest(InstallManifest(st), size)
    requires size == DATA_START + ChainLength(Checkpointed(st).segs) && InstallManifest(st).time >= 0
    ensures st.wal != [] && st.wal[|st.wal| - 1] != []
    ensures SlotLeft(ManifestBytes(InstallManifest(st)), st, m.end, size)
  {
    hide Ready, Un, Crc, ManifestBytes, GoodManifest, CheckpointAllowed, ChainLength, InstallManifest, Checkpointed,
      Layout.SlotSound;
    InstalledFields(disk, m, st);
    Layout.GoodIsSound(InstallManifest(st), size);
    Layout.ManifestAt(InstallManifest(st), size);
  }

  /** It is published in the slot of the next revision; the other slot keeps the old one. */
  lemma {:induction false} CheckpointSlot(s: System, s': System, S: set<Store>)
    requires Invariant(s, S) && Step(s, Done(Checkpoint), s')
    ensures s.mode.Usable? && s.mode.st.wal != [] && s.mode.st.wal[|s.mode.st.wal| - 1] != []
    ensures var st, x := s.mode.st, s'.disk.db.stable;
            var start, other := 32 + 64 * ((st.revision + 1) % 2), 32 + 64 * (st.revision % 2);
            && |x| >= 160 && |s.disk.db.stable| >= 160
            && x[other..other + 64] == s.disk.db.stable[other..other + 64]
            && SlotLeft(x[start..start + 64], st, s.mode.m.end, |x|)
  {
    hide Ready, TearsDetected, Execute, CheckpointOps, ValidStore, ValidSegments, ValidSegment, ManifestBytes,
      GoodManifest, CheckpointAllowed, ChainLength, NewSegment, InstallManifest, SlotLeft, Checkpointed;
    var disk, m, st := s.disk, s.mode.m, s.mode.st;
    WritableStore(st);
    EffectiveWal(st);
    CheckpointFile(disk, m, st);
    CheckpointSafely(disk, m, st);
    ReadySlot(disk, m, st);
    ReadySlot(s'.disk, s'.mode.m, Checkpointed(st));
    InstalledFields(disk, m, st);
    FieldsLeft(disk, m, st, |s'.disk.db.stable|);
  }

  lemma {:induction false} ReadySlot(disk: Disk, m: Manifest, st: Store)
    requires Ready(disk, m, st)
    ensures m.time >= 0 && GoodManifest(m, m.end) && |disk.db.stable| >= DATA_START && m.end <= |disk.db.stable|
    ensures SlotBytes(disk.db.stable, RevisionOf(m) % 2) == ManifestBytes(m) && RevisionOf(m) == st.revision
  {
    hide ChainLength, Located, ManifestBytes, Outranks, WalExact, SlotBytes, ValidData;
  }

  lemma {:induction false} InstalledFields(disk: Disk, m: Manifest, st: Store)
    requires Ready(disk, m, st) && CheckpointAllowed(st)
    ensures st.wal != [] && st.wal[|st.wal| - 1] != [] && (!st.retained ==> st.revision == |st.segs|)
    ensures var m' := InstallManifest(st);
            && RevisionOf(m') == st.revision + 1 && m'.last == st.installed + |st.wal| && m'.tail == m.end
            && m'.end == DATA_START + ChainLength(Checkpointed(st).segs)
            && m'.time == LastTimeOf(st.wal[|st.wal| - 1]) && m'.Retain? == st.retained
            && (m'.Install? ==> m'.timed)
            && (m'.Retain? ==> m'.count == |st.segs| + 1 && m'.root == DATA_START && m'.phase == 0)
  {
    hide ChainLength, DbFits, WalFrames, NewSegment, ValidData;
    ReadyStanding(disk, m, st);
    BatchNotEmpty(st.wal, |st.wal| - 1);
    var segs := Checkpointed(st).segs;
    assert segs[..|segs| - 1] == st.segs;
  }

  // --- expire --------------------------------------------------------------

  /** The last steps of a retention fix the size of the file. */
  lemma {:induction false} CleanSize(disk: Disk, m: Manifest, segs: seq<Segment>)
    requires m.time >= 0 && m.end >= DATA_START
    ensures |Execute(disk, CleanOps(m, segs)).db.stable| == if m.end == DATA_START then MARKER_SIZE else m.end
  {
    hide ManifestBytes, ChainLength, LinkTo, Splice, Replay;
    var n, size := NextRetain(m, segs, DATA_START, NORMAL), if m.end == DATA_START then MARKER_SIZE else m.end;
    var a, b := [Db(Truncate(size)), SyncDb], PublishOps(n);
    assert CleanOps(m, segs) == a + b;
    ExecuteConcat(disk, a, b);
    TwoSteps(disk, a);
    TwoSteps(Execute(disk, a), b);
    IssueVolatile(disk.db, Truncate(size));
    var cut := Execute(disk, a);
    assert |cut.db.stable| == size && cut.db.pending == [];
    CleanVolatile(cut.db.stable);
    IssueVolatile(cut.db, SlotWrite(n));
    SlotWritten(cut.db.stable, n);
  }

  lemma {:induction false} TwoSteps(disk: Disk, ops: seq<Io>)
    requires |ops| == 2
    ensures Execute(disk, ops) == Perform(Perform(disk, ops[0]), ops[1])
  {
    assert ops[..1] == [ops[0]] && ops[..1][..0] == [];
    assert Execute(disk, []) == disk;
    assert Execute(disk, ops[..1]) == Perform(disk, ops[0]);
  }

  lemma {:induction false} ExpireSize(disk: Disk, st: Store, cutoff: int)
    requires ValidSegments(st.segs) && st.floor >= 0
    ensures var length := ChainLength(Kept(st.segs, cutoff));
            |Execute(disk, ExpireOps(st, cutoff)).db.stable| == DATA_START + if length == 0 then 1 else length
  {
    hide CopyOps, PublishOps, CleanOps, ChainLength, LinkTo, Kept, Execute;
    var p, t, kept := PrepareManifest(st), TailManifest(st, cutoff), Kept(st.segs, cutoff);
    var c := NextRetain(t, kept, DATA_START, CLEANUP);
    var a := PublishOps(p) + CopyOps(DATA_START + ChainLength(st.segs), kept) + [SyncDb] + PublishOps(t);
    var b := CopyOps(DATA_START, kept) + [SyncDb] + PublishOps(c);
    assert FinishOps(t, kept) == b + CleanOps(c, kept);
    assert ExpireOps(st, cutoff) == a + (b + CleanOps(c, kept));
    assert a + (b + CleanOps(c, kept)) == (a + b) + CleanOps(c, kept);
    ExecuteConcat(disk, a + b, CleanOps(c, kept));
    CleanSize(Execute(disk, a + b), c, kept);
  }

  /** An acknowledged expiration leaves the segments that are still needed, at the front
      and relinked, and nothing behind them; the WAL is as it was. */
  lemma {:induction false} ExpireBytes(s: System, s': System, S: set<Store>, cutoff: int)
    requires Invariant(s, S) && Step(s, Done(Expire(cutoff)), s')
    ensures s.mode.Usable? && ValidSegments(s.mode.st.segs)
    ensures var kept, x := Kept(s.mode.st.segs, cutoff), s'.disk.db.stable;
            var end := DATA_START + ChainLength(kept);
            && s'.disk.db.pending == [] && s'.disk.wal == s.disk.wal
            && |x| == (if end == DATA_START then 161 else end)
            && x[DATA_START..end] == ChainBytes(DATA_START, kept)
  {
    hide Ready, TearsDetected, Execute, ExpireOps, ValidStore, ValidSegments, ChainLength, Kept, WalExact,
      ExpireAllowed, FinalManifest, TailManifest, ChainBytes;
    var disk, m, st := s.disk, s.mode.m, s.mode.st;
    WritableStore(st);
    ExpireSafely(disk, m, st, cutoff);
    ExpireSize(disk, st, cutoff);
    ReadyParts(disk, m, st);
    ReadyParts(s'.disk, s'.mode.m, s'.mode.st);
    SameFrames(disk.wal.stable, s'.disk.wal.stable, st, s'.mode.st);
    var h, g := disk.db.stable[..32], disk.wal.stable[..32];
    ReadyFronted(disk, m, st);
    Pairs.StepFronted(s, Done(Expire(cutoff)), s', h, g);
    FrontIs(s'.disk, h, g);
    var w, y := disk.wal.stable, s'.disk.wal.stable;
    assert w == w[..32] + w[32..] && y == y[..32] + y[32..];
  }

  lemma {:induction false} ReadyFronted(disk: Disk, m: Manifest, st: Store)
    requires Ready(disk, m, st)
    ensures |disk.db.stable| >= 32 && |disk.wal.stable| >= 32
    ensures Pairs.PairFronted(disk, disk.db.stable[..32], disk.wal.stable[..32])
  {
    hide DbFits, WalFrames, BodyLength, ChainLength;
    ReadyStanding(disk, m, st);
  }

  lemma {:induction false} FrontIs(disk: Disk, h: bytes, g: bytes)
    requires Pairs.PairFronted(disk, h, g)
    ensures |disk.wal.stable| >= 32 && disk.wal.stable[..32] == g
  {
  }

  lemma {:induction false} SameFrames(w: bytes, y: bytes, st: Store, after: Store)
    requires WalExact(w, st) && WalExact(y, after) && after.wal == st.wal && after.installed == st.installed
    ensures |y| == |w| >= 32 && y[32..] == w[32..]
  {
    hide BodyBytes, BodyLength, ValidBatches;
    assert y[32..] == y[32..|y|] && w[32..] == w[32..|w|];
  }
}
