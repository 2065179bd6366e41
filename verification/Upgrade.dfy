/** Databases of the first layout: 32 bytes, nothing installed, no manifest slots.
    The first checkpoint adds the slots. When that addition is itself cut off, the
    next checkpoint does not repeat it, and whether an interruption of that later
    checkpoint can be recovered from depends on how much of the slots was written. */
module Upgrade {
  import opened Bytes
  import opened Checksum
  import opened Frames
  import opened Segments
  import opened SkipLinks
  import opened ChainCheck
  import opened Manifests
  import opened Storage
  import opened Recovery
  import opened Stores
  import opened Authority
  import opened Scripts
  import opened CrashSafety
  import opened Calls
  import opened Cursors
  import opened Identity
  import opened Device
  import opened Relocation

  function FirstManifest(): Manifest { Install(0, DATA_START, 0, 0, 0, false) }

  /** The two slots a checkpoint adds to a 32-byte database. */
  function SlotArea(): (s: bytes)
    ensures |s| == 128
  {
    ManifestBytes(FirstManifest()) + Zeros(64)
  }

  /** A database whose slots were written up to byte k. */
  function Partial(header: bytes, k: nat): (d: bytes)
    requires |header| == 32 && k <= 128
    ensures |d| == 32 + k
  {
    header + SlotArea()[..k]
  }

  /** Its first slot as a longer file will show it: the gap reads as zeros. */
  function FirstSlot(k: nat): (s: bytes)
    requires k <= 128
    ensures |s| == 64
  {
    Torn(Zeros(64), ManifestBytes(FirstManifest()), Min(k, 64))
  }

  function Pending(wal: seq<Batch>): Store { Store([], 0, 0, false, wal, 0) }

  ghost predicate Checkpointable(st: Store)
  {
    && ValidStore(st) && CheckpointAllowed(st)
    && ValidSegment(NewSegment(st)) && LastTime(st.floor, st.wal) >= 0
  }

  /** The checkpoint of a database that has no valid slot: the slots are added
      only when open found exactly 32 bytes. */
  function LegacyOps(size: nat, st: Store): seq<Io>
    requires st.wal != [] && ValidSegment(NewSegment(st)) && LastTime(st.floor, st.wal) >= 0
  {
    (if size == 32 then [Db(Write(32, SlotArea())), SyncDb] else []) + CheckpointOps(st)
  }

  /** Open accepts the pair, and reading the recovered handle from the start
      returns exactly these batches. */
  ghost predicate Reopens(d: bytes, w: bytes, entries: seq<Entry>)
  {
    match Recover(d, w)
    case None => false
    case Some(o) =>
      && o.phase == NORMAL
      && Drains(d, Resize(w, o.walEnd), OpenedHandle(o, o.revision, o.end, o.tail), ResetCursor(), entries)
  }

  /** From every image a crash during the script can leave, open recovers the batches. */
  ghost predicate Recoverable(disk: Disk, script: seq<Io>, entries: seq<Entry>)
  {
    forall n, d, w :: 0 <= n <= |script| && Crash(Execute(disk, script[..n]), d, w) ==> Reopens(d, w, entries)
  }

  lemma {:induction false} CoherentReopens(d: bytes, w: bytes, m: Manifest, st: Store)
    requires Openable(d, w, m, st) && PhaseOf(m) == NORMAL
    ensures Reopens(d, w, Visible(st))
  {
    hide Recover, Drains, WalFits, Visible, Resize, Located, ChainLength, LinkTo, Reflects, ValidStore, WalExact,
      BodyLength;
    OpeningReflects(d, w, m, st);
    HeldLocated(d, m, st);
    CutExact(w, st);
    FitsFacts(d, m, st);
    var o := Recover(d, w).value;
    RewoundReadsAll(d, Resize(w, o.walEnd), OpenedHandle(o, o.revision, o.end, o.tail), st);
  }

  // --- a complete slot area ------------------------------------------------

  lemma {:induction false} CompleteSlots(header: bytes, x: bytes)
    requires |header| == 32 && |x| >= DATA_START && x[..DATA_START] == Partial(header, 128)
    ensures SlotBytes(x, 0) == ManifestBytes(FirstManifest()) && SlotBytes(x, 1) == Zeros(64)
  {
    hide ManifestBytes;
    var p := Partial(header, 128);
    assert SlotArea()[..128] == SlotArea();
    SubSlice(x, 0, DATA_START, 32, 96);
    SubSlice(x, 0, DATA_START, 96, 160);
    assert p[32..96] == ManifestBytes(FirstManifest());
    assert p[96..160] == Zeros(64);
  }

  lemma {:induction false} UpgradedReady(header: bytes, w: bytes, st: Store)
    requires |header| == 32 && st == Pending(st.wal) && ValidStore(st) && WalExact(w, st)
    ensures Ready(Disk(File(Partial(header, 128), []), File(w, [])), FirstManifest(), st)
  {
    hide ManifestBytes, WalExact, BodyLength, ValidBatches;
    var d := Partial(header, 128);
    assert d[..DATA_START] == d;
    CompleteSlots(header, d);
    assert SlotBytes(d, 1)[8..16] == Zeros(8);
    ZeroFields();
    EmptyChain();
    NoChainBytes(DATA_START);
  }

  // --- refused images do not occur in a checkpoint -------------------------

  ghost predicate CutOnly(io: Io)
  {
    !io.Wal? || io.op == Truncate(32)
  }

  /** The WAL is whole or cut to its header. */
  ghost predicate WholeOrCut(f: File, w: bytes)
  {
    forall y :: CrashImage(f, y) ==> y == w || y == Resize(w, 32)
  }

  lemma {:induction false} WalStaysWhole(disk: Disk, script: seq<Io>, w: bytes, n: nat)
    requires disk.wal == File(w, []) && |w| >= 32 && n <= |script| && forall i :: 0 <= i < |script| ==>
              CutOnly(script[i])
    ensures WholeOrCut(Execute(disk, script[..n]).wal, w)
  {
    if n == 0 {
      assert script[..0] == [];
      forall y | CrashImage(disk.wal, y)
        ensures y == w
      {
        SyncedImage(disk.wal, y);
      }
    } else {
      WalStaysWhole(disk, script, w, n - 1);
      assert script[..n][..n - 1] == script[..n - 1] && script[..n][n - 1] == script[n - 1];
      var before := Execute(disk, script[..n - 1]);
      assert CutOnly(script[n - 1]);
      CutStep(before, script[n - 1], w);
    }
  }

  lemma {:induction false} CutStep(disk: Disk, io: Io, w: bytes)
    requires WholeOrCut(disk.wal, w) && CutOnly(io) && |w| >= 32
    ensures WholeOrCut(Perform(disk, io).wal, w)
  {
    VolatileIsImage(disk.wal);
    var after := Perform(disk, io).wal;
    forall y | CrashImage(after, y)
      ensures y == w || y == Resize(w, 32)
    {
      if io.Wal? {
        IssueImage(disk.wal, io.op, y);
      } else if io.SyncWal? {
        SyncedImage(after, y);
      }
    }
  }

  lemma {:induction false} CheckpointCutsOnly(st: Store)
    requires st.wal != [] && ValidSegment(NewSegment(st)) && LastTime(st.floor, st.wal) >= 0
    ensures forall i :: 0 <= i < |CheckpointOps(st)| ==> CutOnly(CheckpointOps(st)[i])
  {
    hide FrameOps, HeaderBytes, ManifestBytes, NewSegment, ChainLength, PreviousLink, SkipLink, InstallManifest,
      ValidBatches, LastTime, Times, Sorted, BodyLength;
    var s := NewSegment(st);
    FramesCutOnly(DATA_START + ChainLength(st.segs) + HeaderSize(s), s.first, s.batches);
  }

  lemma {:induction false} FramesCutOnly(base: nat, first: nat, batches: seq<Batch>)
    requires ValidBatches(batches)
    ensures forall i :: 0 <= i < |FrameOps(base, first, batches)| ==> CutOnly(FrameOps(base, first, batches)[i])
  {
    hide Frame, BodyLength, ValidBatch;
    if batches != [] {
      FramesCutOnly(base, first, batches[..|batches| - 1]);
    }
  }

  /** With the WAL whole or cut, a safe image is a coherent one, and opens. */
  lemma {:induction false} WholeOpens(d: bytes, x: bytes, w: bytes, st: Store)
    requires Checkpointable(st) && !st.retained && WalExact(w, st) && (x == w || x == Resize(w, 32))
    requires Good(d, x, {st, Checkpointed(st)})
    ensures Reopens(d, x, Visible(st))
  {
    hide Reopens, DbFits, WalFits, ValidStore, ValidSegment, LastTime, NewSegment, Visible;
    var c :| c in {st, Checkpointed(st)} && (Coherent(d, x, c) || Refused(d, x, c));
    NotShort(x, w, st, c);
    CheckpointedValid(st);
    var m :| DbFits(d, m, c);
    InstallIsNormal(d, m, c);
    CoherentReopens(d, x, m, c);
  }

  lemma {:induction false} InstallIsNormal(d: bytes, m: Manifest, c: Store)
    requires DbFits(d, m, c) && !c.retained
    ensures PhaseOf(m) == NORMAL
  {
  }

  lemma {:induction false} NotShort(x: bytes, w: bytes, st: Store, c: Store)
    requires Checkpointable(st) && WalExact(w, st) && (x == w || x == Resize(w, 32)) && c in {st, Checkpointed(st)}
    ensures !WalShort(x, c.installed, c.wal)
  {
    hide ValidData, NewSegment, ValidBatches, FramesAt, BodyLength, ValidSegment;
    SomeBody(st.wal);
    NoBody();
  }

  lemma {:induction false} UpgradedRecovers(header: bytes, w: bytes, st: Store)
    requires |header| == 32 && st == Pending(st.wal) && Checkpointable(st) && WalExact(w, st)
    requires TearsDetected(Disk(File(Partial(header, 128), []), File(w, [])), CheckpointOps(st))
    ensures Recoverable(Disk(File(Partial(header, 128), []), File(w, [])), CheckpointOps(st), Visible(st))
  {
    hide Ready, TearsDetected, CheckpointOps, Execute, Good, Reopens, Visible, WalExact, Checkpointed, ValidStore,
      ValidSegment, LastTime, Partial;
    var disk, script := Disk(File(Partial(header, 128), []), File(w, [])), CheckpointOps(st);
    UpgradedReady(header, w, st);
    CheckpointSafely(disk, FirstManifest(), st);
    CheckpointCutsOnly(st);
    ExactSize(w, st);
    forall n, d, x | 0 <= n <= |script| && Crash(Execute(disk, script[..n]), d, x)
      ensures Reopens(d, x, Visible(st))
    {
      WalStaysWhole(disk, script, w, n);
      assert SafeDisk(Execute(disk, script[..n]), {st, Checkpointed(st)});
      WholeOpens(d, x, w, st);
    }
  }

  lemma {:induction false} ExactSize(w: bytes, st: Store)
    requires WalExact(w, st)
    ensures |w| >= 32
  {
  }

  // --- a partial slot area -------------------------------------------------

  /** Below 160 bytes no slot is valid: the database counts as empty. */
  lemma {:induction false} SmallSelects(d: bytes)
    requires 32 <= |d| < DATA_START
    ensures Select(d) == if |d| == 32 then Legacy else Empty
  {
    hide ParseSlot, Un;
  }

  /** What open derives from it is what it derives from a complete slot area, but
      for the flag that asks for the slots to be added. */
  lemma {:induction false} SmallOpening(header: bytes, d: bytes, w: bytes, st: Store)
    requires |header| == 32 && 32 <= |d| < DATA_START && st == Pending(st.wal) && ValidStore(st) && WalExact(w, st)
    requires Recover(Partial(header, 128), w).Some?
    ensures Recover(d, w).Some?
    ensures Recover(d, w).value.(legacy := false) == Recover(Partial(header, 128), w).value.(legacy := false)
  {
    hide Select, CheckChain, Pow2, DecideWal, Partial, WalExact, ValidStore, CheckChain;
    var whole := Partial(header, 128);
    UpgradedReady(header, w, st);
    UpgradedSelects(header, w, st);
    SmallSelects(d);
    EmptyAccepted(d);
    EmptyAccepted(whole);
    RecoverSplits(d, w);
    RecoverSplits(whole, w);
    WalSizes(w, st);
    DecideSmall(|d|, Select(d), ChainInfo(0, 0, 1, 0), w);
  }

  lemma {:induction false} UpgradedSelects(header: bytes, w: bytes, st: Store)
    requires |header| == 32 && Ready(Disk(File(Partial(header, 128), []), File(w, [])), FirstManifest(), st)
    ensures Select(Partial(header, 128)) == Chosen(FirstManifest())
  {
    hide Select, Holds, ValidStore, WalExact;
    SelectsRoot(Partial(header, 128), GoalFor(FirstManifest(), st).r);
  }

  lemma {:induction false} DecideSmall(size: nat, s: Selection, chain: ChainInfo, w: bytes)
    requires size < DATA_START && (s.Legacy? || s.Empty?) && |w| >= 32
    ensures var a, b := DecideWal(size, s, EmptyClaim(), chain, w), DecideWal(DATA_START, Chosen(FirstManifest()),
                                  EmptyClaim(), chain, w);
            a.Some? == b.Some? && (a.Some? ==> a.value.(legacy := false) == b.value.(legacy := false))
  {
    hide ScanFrames, Summary, CheckFrameHeader, Un;
  }

  lemma {:induction false} WalSizes(w: bytes, st: Store)
    requires WalExact(w, st)
    ensures 32 <= |w| <= WAL_CAPACITY
  {
  }

  lemma {:induction false} EmptyAccepted(d: bytes)
    ensures 0 < Pow2(TABLE_SIZE) && CheckChain(d, EmptyClaim()) == Some(ChainInfo(0, 0, 1, 0))
  {
    assert Pow2(TABLE_SIZE) > 0;
  }

  /** Reading the WAL alone does not look at the database. */
  lemma {:induction false} DrainsElsewhere(d: bytes, d': bytes, w: bytes, h: Handle, h': Handle, c: Cursor,
                                           entries: seq<Entry>)
    requires h.(legacy := false) == h'.(legacy := false) && (c.inWal || c.position == h.dataEnd)
    requires Drains(d, w, h, c, entries)
    ensures Drains(d', w, h', c, entries)
    decreases |entries|
  {
    hide ReadFrame, Records, ReadInstalled, ReadSegment;
    match ReadCursor(d, w, h, c)
    case Batch(e, after) => DrainsElsewhere(d, d', w, h, h', after, entries[1..]);
    case _ =>
  }

  /** A database of less than 160 bytes opens with the batches of the WAL. */
  lemma {:induction false} SmallOpens(d: bytes, w: bytes, st: Store)
    requires 32 <= |d| < DATA_START && st == Pending(st.wal) && ValidStore(st) && WalExact(w, st)
    ensures Reopens(d, w, Visible(st))
  {
    hide Recover, Drains, Visible, Partial, WalExact, ValidStore, Resize;
    var header := Zeros(32);
    var whole := Partial(header, 128);
    UpgradedReady(header, w, st);
    ReadyOpenable(header, w, st);
    CoherentReopens(whole, w, FirstManifest(), st);
    SmallOpening(header, d, w, st);
    var o, p := Recover(whole, w).value, Recover(d, w).value;
    UpgradedEnd(header, w, st);
    DrainsElsewhere(whole, d, Resize(w, o.walEnd), OpenedHandle(o, o.revision, o.end, o.tail),
                    OpenedHandle(p, p.revision, p.end, p.tail),
                    ResetCursor(), Visible(st));
  }

  lemma {:induction false} UpgradedEnd(header: bytes, w: bytes, st: Store)
    requires |header| == 32 && st == Pending(st.wal) && ValidStore(st) && WalExact(w, st)
    requires Recover(Partial(header, 128), w).Some?
    ensures Recover(Partial(header, 128), w).value.end == DATA_START
  {
    hide Recover, Reflects, ValidStore, WalExact, Partial;
    UpgradedReady(header, w, st);
    ReadyOpenable(header, w, st);
    OpeningReflects(Partial(header, 128), w, FirstManifest(), st);
  }

  lemma {:induction false} ReadyOpenable(header: bytes, w: bytes, st: Store)
    requires |header| == 32 && Ready(Disk(File(Partial(header, 128), []), File(w, [])), FirstManifest(), st)
    ensures Openable(Partial(header, 128), w, FirstManifest(), st)
  {
    hide Satisfies, WalExact, ValidStore;
    ExactFits(w, st);
  }

  /** How the slots of a file that grew past 160 bytes read. */
  lemma {:induction false} GrownSlots(header: bytes, k: nat, data: bytes)
    requires |header| == 32 && k <= 128 && data != []
    ensures var x := Splice(Partial(header, k), DATA_START, data);
            && |x| == DATA_START + |data|
            && SlotBytes(x, 0) == FirstSlot(k) && SlotBytes(x, 1) == Zeros(64)
  {
    hide ManifestBytes;
    var d := Partial(header, k);
    var x := Splice(d, DATA_START, data);
    var r := Resize(d, DATA_START);
    assert x == r + data;
    var area := SlotArea()[..k] + Zeros(128 - k);
    assert r == header + area;
    assert SlotBytes(x, 0) == area[..64];
    assert SlotBytes(x, 1) == area[64..];
  }

  /** Unless it is complete, the first slot is invalid: up to byte 16 its end field
      reads 0, and from byte 17 on only checksum bytes are missing. */
  lemma {:induction false} TornInvalid(k: nat, size: nat)
    requires k <= 128 && FirstSlot(k) != ManifestBytes(FirstManifest())
    ensures ParseSlot(FirstSlot(k), size) == None
  {
    hide Un, Sealed, Crc, Le, Seal;
    var t, fields := FirstSlot(k), CommonFields(INSTALL_MAGIC, 0, DATA_START, 0) + Zeros(28);
    FirstFields();
    if k <= 16 {
      assert t[16..24] == Zeros(8);
      ZeroFields();
    } else {
      assert t[..60] == fields;
      if Sealed(t) {
        OnlyItsOwnSeal(t, fields);
      }
    }
  }

  /** The fields of the first manifest: all zeros behind byte 16. */
  lemma {:induction false} FirstFields()
    ensures var fields := CommonFields(INSTALL_MAGIC, 0, DATA_START, 0) + Zeros(28);
            && |fields| == 60 && ManifestBytes(FirstManifest()) == Seal(fields) && Seal(fields)[..60] == fields
            && forall i :: 17 <= i < 60 ==> fields[i] == 0
  {
    hide Crc, Seal, Le;
    var fields := CommonFields(INSTALL_MAGIC, 0, DATA_START, 0) + Zeros(28);
    SmallBytes(DATA_START, 8);
    SmallBytes(0, 8);
    SliceOfSeal(fields, 0, 60);
    assert Seal(fields)[..60] == Seal(fields)[0..60] == fields[0..60] == fields;
  }

  lemma {:induction false} SmallBytes(v: nat, n: nat)
    requires v < 256 && n > 0
    ensures Le(v, n) == [v] + Zeros(n - 1)
  {
    if n > 1 {
      SmallBytes(0, n - 1);
      assert [0] + Zeros(n - 2) == Zeros(n - 1);
    } else {
      assert Le(v / 256, 0) == Zeros(0);
    }
  }

  lemma {:induction false} OnlyItsOwnSeal(t: bytes, fields: bytes)
    requires |t| == 64 && |fields| == 60 && t[..60] == fields && Sealed(t)
    ensures t == Seal(fields)
  {
    LeUn(t[60..]);
    assert t == t[..60] + t[60..];
  }

  /** The file in which the segment header was written but no slot is valid: open
      gives up on it. */
  lemma {:induction false} GrownUnusable(header: bytes, k: nat, data: bytes, w: bytes)
    requires |header| == 32 && k <= 128 && data != []
    requires forall size: nat :: ParseSlot(FirstSlot(k), size) == None
    ensures Recover(Splice(Partial(header, k), DATA_START, data), w) == None
  {
    hide ParseSlot, Splice, FirstSlot, Partial, CheckChain, ScanFrames, ReadFirst;
    GrownSlots(header, k, data);
    var x := Splice(Partial(header, k), DATA_START, data);
    ZerosInvalid(|x|);
    assert SlotAt(x, 0) == None && SlotAt(x, 1) == None;
  }

  /** The first operation of a checkpoint of pending batches alone. */
  lemma {:induction false} FirstWrite(st: Store)
    requires st == Pending(st.wal) && st.wal != [] && ValidSegment(NewSegment(st)) && LastTime(st.floor, st.wal) >= 0
    ensures CheckpointOps(st) != [] && CheckpointOps(st)[0] == Db(Write(DATA_START, HeaderBytes(NewSegment(st), 0, 0)))
  {
    hide HeaderBytes, FrameOps, ManifestBytes, NewSegment, LastTime, ValidSegment;
    EmptyChain();
  }

  /** After the first write of the segment header there is an image open refuses. */
  lemma {:induction false} Stuck(header: bytes, k: nat, w: bytes, st: Store)
    requires |header| == 32 && 0 < k <= 128 && st == Pending(st.wal) && Checkpointable(st)
    requires forall size: nat :: ParseSlot(FirstSlot(k), size) == None
    ensures !Recoverable(Disk(File(Partial(header, k), []), File(w, [])), LegacyOps(32 + k, st), Visible(st))
  {
    hide ParseSlot, Recover, CheckpointOps, Splice, Partial, HeaderBytes, ValidStore, NewSegment, ValidSegment,
      LastTime, FirstSlot, Volatile, CrashImage, Execute;
    var d, script := Partial(header, k), LegacyOps(32 + k, st);
    var disk := Disk(File(d, []), File(w, []));
    FirstWrite(st);
    assert [] + CheckpointOps(st) == CheckpointOps(st);
    var data := HeaderBytes(NewSegment(st), 0, 0);
    assert script[..1] == [script[0]];
    ExecuteOne(disk, script[0]);
    var after := Execute(disk, script[..1]);
    IssueVolatile(disk.db, Write(DATA_START, data));
    CleanVolatile(d);
    CleanVolatile(w);
    VolatileIsImage(after.db);
    VolatileIsImage(after.wal);
    GrownUnusable(header, k, data, w);
    assert Crash(after, Volatile(after.db), Volatile(after.wal));
    assert !Reopens(Volatile(after.db), Volatile(after.wal), Visible(st));
  }

  // --- a complete first slot in a short file -------------------------------

  /** Two databases that differ only in missing zeros below offset 160, until a
      write past them fills the gap. */
  ghost predicate Near(f: File, g: File, d: bytes)
  {
    || f == g
    || (&& f.stable == d && g.stable == Resize(d, DATA_START) && f.pending == g.pending
        && (f.pending != [] ==> f.pending[0].Write? && f.pending[0].offset == DATA_START && f.pending[0].data != []))
  }

  lemma {:induction false} SpliceFills(d: bytes, data: bytes)
    requires |d| <= DATA_START && data != []
    ensures Splice(d, DATA_START, data) == Splice(Resize(d, DATA_START), DATA_START, data)
  {
  }

  lemma {:induction false} ReplayFills(d: bytes, ops: seq<Op>)
    requires |d| <= DATA_START && ops != [] && ops[0].Write? && ops[0].offset == DATA_START && ops[0].data != []
    ensures Replay(d, ops) == Replay(Resize(d, DATA_START), ops)
  {
    var front := ops[..|ops| - 1];
    if front == [] {
      SpliceFills(d, ops[0].data);
    } else {
      ReplayFills(d, front);
    }
  }

  lemma {:induction false} NearImage(f: File, g: File, d: bytes, x: bytes)
    requires Near(f, g, d) && |d| <= DATA_START && CrashImage(f, x)
    ensures x == d || CrashImage(g, x)
  {
    hide Splice, Resize;
    if f != g {
      var n: nat :| n <= |f.pending| && CrashAt(f, n, x);
      var ops := f.pending[..n];
      if n == 0 {
        assert ops == [];
        if x != d {
          var part :| Part(f.pending[0], part) && x == Apply(d, part);
          NoWrite(d, part.offset);
          if part.data != [] {
            SpliceFills(d, part.data);
            assert CrashAt(g, 0, x);
          }
        }
      } else {
        ReplayFills(d, ops);
        assert CrashAt(g, n, x);
      }
    }
  }

  lemma {:induction false} NoWrite(d: bytes, offset: nat)
    ensures Splice(d, offset, []) == d
  {
  }

  lemma {:induction false} NearStep(a: Disk, b: Disk, d: bytes, io: Io)
    requires Near(a.db, b.db, d) && a.wal == b.wal && |d| <= DATA_START
    requires a.db != b.db && a.db.pending == [] ==>
               io.Db? && io.op.Write? && io.op.offset == DATA_START && io.op.data != []
    ensures Near(Perform(a, io).db, Perform(b, io).db, d) && Perform(a, io).wal == Perform(b, io).wal
    ensures Perform(a, io).db == Perform(b, io).db || Perform(a, io).db.pending != []
  {
    hide Splice, Resize;
    if io.SyncDb? && a.db != b.db {
      ReplayFills(d, a.db.pending);
    }
  }

  /** Nothing but database writes, the first of them at offset 160, and then a sync. */
  ghost predicate WritesThenSync(script: seq<Io>, s: nat)
  {
    && 0 < s < |script| && script[s] == SyncDb
    && (forall i :: 0 <= i < s ==> script[i].Db? && script[i].op.Write?)
    && script[0].op.offset == DATA_START && script[0].op.data != []
  }

  /** Up to the sync the databases stay near and the WAL is untouched; then the
      disks are the same. */
  lemma {:induction false} NearRun(a: Disk, b: Disk, d: bytes, script: seq<Io>, s: nat, n: nat)
    requires |d| <= DATA_START && a.db == File(d, []) && b.db == File(Resize(d, DATA_START), []) && a.wal == b.wal
    requires WritesThenSync(script, s) && n <= |script|
    ensures n > s ==> Execute(a, script[..n]) == Execute(b, script[..n])
    ensures n <= s ==>
              && Near(Execute(a, script[..n]).db, Execute(b, script[..n]).db, d)
              && Execute(a, script[..n]).wal == Execute(b, script[..n]).wal == a.wal
    ensures 0 < n <= s ==>
              || Execute(a, script[..n]).db == Execute(b, script[..n]).db
              || Execute(a, script[..n]).db.pending != []
  {
    hide Splice, Resize, Replay;
    if n == 0 {
      assert script[..0] == [];
    } else {
      NearRun(a, b, d, script, s, n - 1);
      assert script[..n][..n - 1] == script[..n - 1] && script[..n][n - 1] == script[n - 1];
      assert n == 1 ==> script[..0] == [];
      if n - 1 <= s {
        NearStep(Execute(a, script[..n - 1]), Execute(b, script[..n - 1]), d, script[n - 1]);
      }
    }
  }

  lemma {:induction false} SegmentThenSync(st: Store)
    requires st == Pending(st.wal) && st.wal != [] && ValidSegment(NewSegment(st)) && LastTime(st.floor, st.wal) >= 0
    ensures exists s :: WritesThenSync(CheckpointOps(st), s)
  {
    hide FrameOps, HeaderBytes, ManifestBytes, NewSegment, InstallManifest, ValidBatches, LastTime, Times, Sorted,
      BodyLength;
    EmptyChain();
    var s := NewSegment(st);
    var ops := SegmentOps(DATA_START + ChainLength(st.segs), s, PreviousLink(DATA_START, st.segs),
                          SkipLink(DATA_START, st.segs));
    FramesAreWrites(DATA_START + ChainLength(st.segs) + HeaderSize(s), s.first, s.batches);
    var script := CheckpointOps(st);
    assert script[|ops|] == SyncDb;
    assert forall i :: 0 <= i < |ops| ==> script[i] == ops[i];
    assert WritesThenSync(script, |ops|);
  }

  lemma {:induction false} FramesAreWrites(base: nat, first: nat, batches: seq<Batch>)
    requires ValidBatches(batches)
    ensures forall io :: io in FrameOps(base, first, batches) ==> io.Db? && io.op.Write?
  {
    hide Frame, BodyLength, ValidBatch;
    if batches != [] {
      FramesAreWrites(base, first, batches[..|batches| - 1]);
    }
  }

  /** With the first slot complete, zeros up to offset 160 are all that is missing. */
  lemma {:induction false} ZeroExtended(header: bytes, k: nat)
    requires |header| == 32 && k <= 128 && FirstSlot(k) == ManifestBytes(FirstManifest())
    ensures Resize(Partial(header, k), DATA_START) == Partial(header, 128)
  {
    hide ManifestBytes;
    var r, p := Resize(Partial(header, k), DATA_START), Partial(header, 128);
    var slot := ManifestBytes(FirstManifest());
    forall i | 0 <= i < DATA_START
      ensures r[i] == p[i]
    {
      if 32 + k <= i < 96 {
        assert r[i] == 0 && FirstSlot(k)[i - 32] == 0;
        assert p[i] == slot[i - 32];
      }
    }
  }

  lemma {:induction false} ShortRecovers(header: bytes, k: nat, w: bytes, st: Store)
    requires |header| == 32 && 0 < k <= 128 && st == Pending(st.wal) && Checkpointable(st) && WalExact(w, st)
    requires FirstSlot(k) == ManifestBytes(FirstManifest())
    requires TearsDetected(Disk(File(Partial(header, 128), []), File(w, [])), CheckpointOps(st))
    ensures Recoverable(Disk(File(Partial(header, k), []), File(w, [])), LegacyOps(32 + k, st), Visible(st))
  {
    hide TearsDetected, CheckpointOps, Execute, Reopens, Visible, WalExact, ValidStore, NewSegment, ValidSegment,
      LastTime, Partial, FirstSlot, ManifestBytes, Resize, Near, WritesThenSync;
    var d := Partial(header, k);
    var a, b := Disk(File(d, []), File(w, [])), Disk(File(Partial(header, 128), []), File(w, []));
    var script := LegacyOps(32 + k, st);
    assert [] + CheckpointOps(st) == CheckpointOps(st);
    UpgradedRecovers(header, w, st);
    if k == 128 {
      return;
    }
    ZeroExtended(header, k);
    SegmentThenSync(st);
    var s :| WritesThenSync(script, s);
    forall n, x, y | 0 <= n <= |script| && Crash(Execute(a, script[..n]), x, y)
      ensures Reopens(x, y, Visible(st))
    {
      NearRun(a, b, d, script, s, n);
      if n <= s {
        NearImage(Execute(a, script[..n]).db, Execute(b, script[..n]).db, d, x);
        SyncedImage(a.wal, y);
        SmallOpens(d, w, st);
      }
      if CrashImage(Execute(b, script[..n]).db, x) {
        assert Crash(Execute(b, script[..n]), x, y);
      }
    }
  }

  // --- the first upgrade ---------------------------------------------------

  /** While the slots are added every image is a shorter slot area. */
  lemma {:induction false} AddingImages(header: bytes, x: bytes)
    requires |header| == 32 && CrashImage(Issue(File(header, []), Write(32, SlotArea())), x)
    ensures exists j :: 0 <= j <= 128 && x == Partial(header, j)
  {
    hide SlotArea;
    var f, op := File(header, []), Write(32, SlotArea());
    IssueImage(f, op, x);
    if CrashImage(f, x) {
      SyncedImage(f, x);
      assert x == Partial(header, 0);
    } else {
      var part :| Part(op, part) && x == Apply(Volatile(f), part);
      var j := |part.data|;
      assert part.data == SlotArea()[..j];
      SpliceAtEnd(header, part.data);
      assert x == Partial(header, j);
    }
  }

  lemma {:induction false} PartialOpens(header: bytes, j: nat, w: bytes, st: Store)
    requires |header| == 32 && j <= 128 && st == Pending(st.wal) && ValidStore(st) && WalExact(w, st)
    ensures Reopens(Partial(header, j), w, Visible(st))
  {
    hide Reopens, WalExact, ValidStore, Partial, Openable, Visible;
    if j < 128 {
      SmallOpens(Partial(header, j), w, st);
    } else {
      UpgradedReady(header, w, st);
      ReadyOpenable(header, w, st);
      CoherentReopens(Partial(header, 128), w, FirstManifest(), st);
    }
  }

  lemma {:induction false} FreshRecovers(header: bytes, w: bytes, st: Store)
    requires |header| == 32 && st == Pending(st.wal) && Checkpointable(st) && WalExact(w, st)
    requires TearsDetected(Disk(File(Partial(header, 128), []), File(w, [])), CheckpointOps(st))
    ensures Recoverable(Disk(File(header, []), File(w, [])), LegacyOps(32, st), Visible(st))
  {
    hide TearsDetected, CheckpointOps, Reopens, Visible, WalExact, ValidStore, NewSegment, ValidSegment, LastTime,
      Partial, SlotArea, CrashImage, Execute;
    var disk := Disk(File(header, []), File(w, []));
    var add, rest := [Db(Write(32, SlotArea())), SyncDb], CheckpointOps(st);
    var script := LegacyOps(32, st);
    assert script == add + rest;
    UpgradedRecovers(header, w, st);
    SlotsAdded(disk, header);
    forall n, x, y | 0 <= n <= |script| && Crash(Execute(disk, script[..n]), x, y)
      ensures Reopens(x, y, Visible(st))
    {
      if n >= 2 {
        assert script[..n] == add + rest[..n - 2];
        ExecuteConcat(disk, add, rest[..n - 2]);
      } else {
        assert script[..n] == add[..n];
        AddedImage(disk, header, n, x, y);
        var j :| 0 <= j <= 128 && x == Partial(header, j);
        PartialOpens(header, j, w, st);
      }
    }
  }

  lemma {:induction false} SlotsAdded(disk: Disk, header: bytes)
    requires |header| == 32 && disk.db == File(header, [])
    ensures Execute(disk, [Db(Write(32, SlotArea())), SyncDb]) == Disk(File(Partial(header, 128), []), disk.wal)
    ensures Execute(disk, [Db(Write(32, SlotArea()))]) == Perform(disk, Db(Write(32, SlotArea())))
  {
    hide SlotArea;
    var io := Db(Write(32, SlotArea()));
    ExecuteOne(disk, io);
    assert [io] + [SyncDb] == [io, SyncDb];
    ExecuteSnoc(disk, [io], SyncDb);
    IssueVolatile(disk.db, io.op);
    SpliceAtEnd(header, SlotArea());
    assert SlotArea()[..128] == SlotArea();
  }

  lemma {:induction false} AddedImage(disk: Disk, header: bytes, n: nat, x: bytes, y: bytes)
    requires |header| == 32 && disk.db == File(header, []) && disk.wal.pending == [] && n < 2
    requires Crash(Execute(disk, [Db(Write(32, SlotArea())), SyncDb][..n]), x, y)
    ensures y == disk.wal.stable
    ensures exists j :: 0 <= j <= 128 && x == Partial(header, j)
  {
    hide SlotArea, CrashImage;
    var script := [Db(Write(32, SlotArea())), SyncDb];
    SlotsAdded(disk, header);
    assert script[..0] == [] && script[..1] == [Db(Write(32, SlotArea()))];
    SyncedImage(disk.wal, y);
    if n == 0 {
      SyncedImage(disk.db, x);
      assert x == Partial(header, 0);
    } else {
      AddingImages(header, x);
    }
  }

  /** "An interrupted checkpoint loses nothing" holds of a database without a valid
      slot exactly when it still has 32 bytes, so that the slots are added again, or
      its first slot is already complete. */
  lemma {:induction false} LegacyCheckpoint(header: bytes, k: nat, w: bytes, st: Store)
    requires |header| == 32 && k <= 128 && st == Pending(st.wal) && Checkpointable(st) && WalExact(w, st)
    requires TearsDetected(Disk(File(Partial(header, 128), []), File(w, [])), CheckpointOps(st))
    ensures Recoverable(Disk(File(Partial(header, k), []), File(w, [])), LegacyOps(32 + k, st), Visible(st))
            <==> k == 0 || FirstSlot(k) == ManifestBytes(FirstManifest())
  {
    hide TearsDetected, CheckpointOps, Recoverable, WalExact, ValidStore, NewSegment, ValidSegment, LastTime,
      ManifestBytes, FirstSlot, ParseSlot, Visible;
    if k == 0 {
      assert Partial(header, 0) == header;
      FreshRecovers(header, w, st);
    } else if FirstSlot(k) == ManifestBytes(FirstManifest()) {
      ShortRecovers(header, k, w, st);
    } else {
      forall size: nat
        ensures ParseSlot(FirstSlot(k), size) == None
      {
        TornInvalid(k, size);
      }
      Stuck(header, k, w, st);
    }
  }

  // --- one such database ---------------------------------------------------

  const OneBatch: Batch := [Record(0, 0, 0)]

  lemma {:induction false} OneBatchStore(walHeader: bytes)
    requires |walHeader| == 32
    ensures ValidBatch(OneBatch) && Checkpointable(Pending([OneBatch]))
    ensures WalExact(walHeader + Frame(1, OneBatch), Pending([OneBatch]))
  {
    hide Frame;
    var wal := [OneBatch];
    assert wal[..0] == [];
    assert ValidBatch(OneBatch);
    assert [] + [OneBatch] == wal;
    BodySnoc(1, [], OneBatch);
    NoBodyBytes(1);
    NoBody();
    EmptyChain();
    var w := walHeader + Frame(1, OneBatch);
    assert w[32..116] == Frame(1, OneBatch);
    assert Times(wal) == [0];
  }

  /** Any number of bytes of the slots may be what a crash leaves of their addition. */
  lemma {:induction false} PartialArises(header: bytes, k: nat)
    requires |header| == 32 && k <= 128
    ensures CrashImage(Issue(File(header, []), Write(32, SlotArea())), Partial(header, k))
  {
    hide SlotArea;
    var op, part := Write(32, SlotArea()), Write(32, SlotArea()[..k]);
    var f := Issue(File(header, []), op);
    assert Part(op, part);
    assert f.pending[..0] == [];
    SpliceAtEnd(header, SlotArea()[..k]);
    assert Replay(header, []) == header;
    assert Apply(header, part) == Partial(header, k);
    assert CrashAt(f, 0, Partial(header, k));
  }

  lemma {:induction false} EightIncomplete()
    ensures FirstSlot(8) != ManifestBytes(FirstManifest())
  {
    hide Crc, Le, Seal;
    FirstFields();
    SmallBytes(DATA_START, 8);
    SmallBytes(0, 8);
    var fields := CommonFields(INSTALL_MAGIC, 0, DATA_START, 0) + Zeros(28);
    assert fields[16] == 160;
    assert ManifestBytes(FirstManifest())[..60][16] == 160;
    assert FirstSlot(8)[16] == 0;
  }

  /** A crash leaves eight bytes of the slots, with one batch in the WAL: open
      accepts the pair with that batch, and then a checkpoint interrupted after its
      first write makes it unopenable. Whatever the pair headers hold. */
  lemma {:induction false} UpgradeStuck(header: bytes, walHeader: bytes)
    requires |header| == 32 && |walHeader| == 32
    ensures ValidBatch(OneBatch)
    ensures var w, st := walHeader + Frame(1, OneBatch), Pending([OneBatch]);
            && CrashImage(Issue(File(header, []), Write(32, SlotArea())), Partial(header, 8))
            && Checkpointable(st) && WalExact(w, st)
            && Reopens(Partial(header, 8), w, [Entry(1, OneBatch)])
            && !Recoverable(Disk(File(Partial(header, 8), []), File(w, [])), LegacyOps(40, st), [Entry(1, OneBatch)])
  {
    hide Frame, Reopens, Recoverable, Checkpointable, WalExact, ParseSlot, FirstSlot, LegacyOps, Partial, SlotArea,
      CrashImage, ManifestBytes;
    var w, st := walHeader + Frame(1, OneBatch), Pending([OneBatch]);
    OneBatchStore(walHeader);
    CheckpointableStore(st);
    PartialArises(header, 8);
    PartialOpens(header, 8, w, st);
    OneEntry(st);
    EightIncomplete();
    forall size: nat
      ensures ParseSlot(FirstSlot(8), size) == None
    {
      TornInvalid(8, size);
    }
    Stuck(header, 8, w, st);
  }

  lemma {:induction false} OneEntry(st: Store)
    requires st == Pending([OneBatch])
    ensures Visible(st) == [Entry(1, OneBatch)]
  {
    assert Entries(1, st.wal) == [Entry(1, OneBatch)];
  }

  lemma {:induction false} CheckpointableStore(st: Store)
    requires Checkpointable(st)
    ensures ValidStore(st) && st.wal != [] && ValidSegment(NewSegment(st)) && LastTime(st.floor, st.wal) >= 0
  {
  }
}
