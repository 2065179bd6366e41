/** The 32 bytes in front of each file: what makes two files a pair, and that no call
    ever touches them. */
module Pairs {
  import opened Bytes
  import opened Checksum
  import opened Frames
  import opened Segments
  import opened Manifests
  import opened Storage
  import opened Recovery
  import opened Stores
  import opened Authority
  import opened Scripts
  import opened CrashSafety
  import opened Calls
  import opened Runs
  import opened Device
  import Layout

  // --- the headers ---------------------------------------------------------

  /** The file starts with the header of this kind and identity: magic, version 2, 16
      bytes of identity and their checksum. */
  ghost predicate Headed(d: bytes, magic: bytes, identity: bytes)
  {
    |magic| == 8 && |identity| == 16 && |d| >= 32 && d[..32] == PairHeader(magic, identity)
  }

  ghost predicate Matched(d: bytes, w: bytes)
  {
    exists identity :: Headed(d, DATABASE_MAGIC, identity) && Headed(w, WAL_MAGIC, identity)
  }

  /** Two headers that do not belong together. */
  ghost predicate Mismatched(d: bytes, w: bytes)
  {
    exists a, b :: a != b && Headed(d, DATABASE_MAGIC, a) && Headed(w, WAL_MAGIC, b)
  }

  lemma {:induction false} HeaderValid(h: bytes, magic: bytes)
    requires |h| == 32 && |magic| == 8 && PairHeaderValid(h, magic)
    ensures h == PairHeader(magic, h[12..28])
  {
    hide Le, Un, Crc, Seal, Sealed;
    Layout.SealExact(h);
    LeUn(h[8..12]);
    assert h[..28] == h[..8] + h[8..12] + h[12..28];
  }

  lemma {:induction false} HeadedFields(d: bytes, magic: bytes, identity: bytes)
    requires Headed(d, magic, identity)
    ensures PairHeaderValid(d[..32], magic) && d[12..28] == identity
    ensures d[..8] == magic && Un(d[8..12]) == 2
  {
    hide Un, Sealed, PairHeader;
    PairHeaderAccepted(magic, identity);
    assert d[..32][12..28] == d[12..28] && d[..32][..8] == d[..8] && d[..32][8..12] == d[8..12];
  }

  /** `pair_header`. */
  method CheckHeader(d: bytes, magic: bytes) returns (status: Status)
    requires |magic| == 8
    ensures status == Success || status == UnsupportedVersion || status == InvalidDatabase
    ensures status == Success <==> |d| >= 28 && Headed(d, magic, d[12..28])
    ensures status == UnsupportedVersion <==>
              |d| >= 12 && d[..8] == magic && Un(d[8..12]) != 0 && Un(d[8..12]) != 2
  {
    hide Un, Sealed, PairHeader;
    if |d| >= 28 && Headed(d, magic, d[12..28]) {
      HeadedFields(d, magic, d[12..28]);
    }
    if |d| < 12 || d[..8] != magic || Un(d[8..12]) == 0 {
      return InvalidDatabase;
    }
    if Un(d[8..12]) != 2 {
      return UnsupportedVersion;
    }
    if |d| < 32 || !Sealed(d[..32]) {
      return InvalidDatabase;
    }
    assert d[..32][12..28] == d[12..28] && d[..32][..8] == d[..8] && d[..32][8..12] == d[8..12];
    HeaderValid(d[..32], magic);
    status := Success;
  }

  /** The comparison at the start of open: both headers, then the identities. */
  method CheckPair(d: bytes, w: bytes) returns (status: Status)
    ensures status == Success <==> Matched(d, w)
    ensures status == PairMismatch <==> Mismatched(d, w)
    ensures status == UnsupportedVersion ==>
              || (|d| >= 12 && d[..8] == DATABASE_MAGIC && Un(d[8..12]) !in {0, 2})
              || (|w| >= 12 && w[..8] == WAL_MAGIC && Un(w[8..12]) !in {0, 2})
    ensures status in {Success, PairMismatch, UnsupportedVersion, InvalidDatabase}
  {
    hide Un, Headed;
    forall magic, identity | Headed(d, magic, identity) || Headed(w, magic, identity)
      ensures Headed(d, magic, identity) ==> |d| >= 28 && d[12..28] == identity
      ensures Headed(w, magic, identity) ==> |w| >= 28 && w[12..28] == identity
    {
      Identities(d, magic, identity);
      Identities(w, magic, identity);
    }
    status := CheckHeader(d, DATABASE_MAGIC);
    if status != Success {
      return;
    }
    status := CheckHeader(w, WAL_MAGIC);
    if status == Success && d[12..28] != w[12..28] {
      status := PairMismatch;
    }
  }

  lemma {:induction false} Identities(d: bytes, magic: bytes, identity: bytes)
    ensures Headed(d, magic, identity) ==> |d| >= 28 && d[12..28] == identity
  {
    hide Un, PairHeaderValid, PairHeader;
    if Headed(d, magic, identity) {
      HeadedFields(d, magic, identity);
    }
  }

  lemma {:induction false} ValidBytes(d: bytes, magic: bytes)
    requires |d| >= 32 && |magic| == 8
    ensures PairHeaderValid(d[..32], magic) <==>
              d[..8] == magic && Un(d[8..12]) == 2 && Un(d[28..32]) == Crc(d[..28])
  {
    hide Un, Crc;
    var h := d[..32];
    assert h[..8] == d[..8] && h[8..12] == d[8..12] && h[..28] == d[..28] && h[28..] == d[28..32];
  }

  lemma {:induction false} NotBoth(d: bytes, w: bytes)
    ensures !(Matched(d, w) && Mismatched(d, w))
  {
    hide Headed;
    forall magic, identity | Headed(d, magic, identity) || Headed(w, magic, identity)
      ensures Headed(d, magic, identity) ==> |d| >= 28 && d[12..28] == identity
      ensures Headed(w, magic, identity) ==> |w| >= 28 && w[12..28] == identity
    {
      Identities(d, magic, identity);
      Identities(w, magic, identity);
    }
  }

  /** The pair by positions: "TIMELITE" or "TIMEWAL!", version 2, the same 16 bytes of
      identity, and a checksum over the first 28 bytes. */
  lemma {:induction false} MatchedBytes(d: bytes, w: bytes)
    ensures Matched(d, w) <==>
              && |d| >= 32 && |w| >= 32 && d[12..28] == w[12..28]
              && d[..8] == [84, 73, 77, 69, 76, 73, 84, 69] && w[..8] == [84, 73, 77, 69, 87, 65, 76, 33]
              && Un(d[8..12]) == 2 && Un(d[28..32]) == Crc(d[..28])
              && Un(w[8..12]) == 2 && Un(w[28..32]) == Crc(w[..28])
  {
    hide Un, Crc, PairHeader, PairHeaderValid;
    if Matched(d, w) {
      var identity :| Headed(d, DATABASE_MAGIC, identity) && Headed(w, WAL_MAGIC, identity);
      HeadedFields(d, DATABASE_MAGIC, identity);
      HeadedFields(w, WAL_MAGIC, identity);
    }
    if |d| >= 32 && |w| >= 32 {
      ValidBytes(d, DATABASE_MAGIC);
      ValidBytes(w, WAL_MAGIC);
      assert d[..32][12..28] == d[12..28] && w[..32][12..28] == w[12..28];
      if PairHeaderValid(d[..32], DATABASE_MAGIC) && PairHeaderValid(w[..32], WAL_MAGIC) && d[12..28] == w[12..28] {
        HeaderValid(d[..32], DATABASE_MAGIC);
        HeaderValid(w[..32], WAL_MAGIC);
        assert Headed(d, DATABASE_MAGIC, d[12..28]) && Headed(w, WAL_MAGIC, d[12..28]);
      }
    }
  }

  // --- they are never written again ----------------------------------------

  /** An operation that leaves the first 32 bytes alone. */
  ghost predicate Spares(op: Op)
  {
    match op
    case Write(offset, _) => offset >= 32
    case Truncate(size) => size >= 32
  }

  ghost predicate ScriptSpares(script: seq<Io>)
  {
    forall i :: 0 <= i < |script| ==> IoSpares(script[i])
  }

  ghost predicate IoSpares(io: Io)
  {
    match io
    case Db(op) => Spares(op)
    case Wal(op) => Spares(op)
    case _ => true
  }

  /** Whatever has not been synced, the file starts with h. */
  ghost predicate Fronted(f: File, h: bytes)
  {
    && |h| == 32 && Starts(f.stable, h)
    && forall i :: 0 <= i < |f.pending| ==> Spares(f.pending[i])
  }

  ghost predicate Starts(d: bytes, h: bytes)
  {
    |d| >= 32 && d[..32] == h
  }

  lemma {:induction false} ApplySpares(d: bytes, op: Op, h: bytes)
    requires |h| == 32 && Starts(d, h) && Spares(op)
    ensures Starts(Apply(d, op), h)
  {
    match op
    case Write(offset, data) =>
      SpliceKeeps(d, offset, data, 0, 32);
      assert Splice(d, offset, data)[0..32] == Splice(d, offset, data)[..32];
    case Truncate(size) =>
      assert Resize(d, size)[..32] == d[..32];
  }

  lemma {:induction false} ReplaySpares(d: bytes, ops: seq<Op>, h: bytes)
    requires |h| == 32 && Starts(d, h) && forall i :: 0 <= i < |ops| ==> Spares(ops[i])
    ensures Starts(Replay(d, ops), h)
  {
    hide Apply, Spares, Starts;
    if ops != [] {
      ReplaySpares(d, ops[..|ops| - 1], h);
      ApplySpares(Replay(d, ops[..|ops| - 1]), ops[|ops| - 1], h);
    }
  }

  /** Every crash image of such a file starts with h. */
  lemma {:induction false} FrontedImage(f: File, h: bytes, x: bytes)
    requires Fronted(f, h) && CrashImage(f, x)
    ensures Starts(x, h)
  {
    hide Apply, Starts, Replay;
    var n: nat :| n <= |f.pending| && CrashAt(f, n, x);
    ReplaySpares(f.stable, f.pending[..n], h);
    if x != Replay(f.stable, f.pending[..n]) {
      var part :| Part(f.pending[n], part) && x == Apply(Replay(f.stable, f.pending[..n]), part);
      PartSpares(f.pending[n], part);
      ApplySpares(Replay(f.stable, f.pending[..n]), part, h);
    }
  }

  lemma {:induction false} PartSpares(op: Op, part: Op)
    requires Part(op, part) && Spares(op)
    ensures Spares(part)
  {
  }

  ghost predicate PairFronted(disk: Disk, h: bytes, g: bytes)
  {
    Fronted(disk.db, h) && Fronted(disk.wal, g)
  }

  lemma {:induction false} PerformFronted(disk: Disk, io: Io, h: bytes, g: bytes)
    requires PairFronted(disk, h, g) && IoSpares(io)
    ensures PairFronted(Perform(disk, io), h, g)
  {
    hide Starts, Spares, Replay;
    match io
    case SyncDb => ReplaySpares(disk.db.stable, disk.db.pending, h);
    case SyncWal => ReplaySpares(disk.wal.stable, disk.wal.pending, g);
    case _ =>
  }

  lemma {:induction false} ExecuteFronted(disk: Disk, script: seq<Io>, h: bytes, g: bytes)
    requires PairFronted(disk, h, g) && ScriptSpares(script)
    ensures PairFronted(Execute(disk, script), h, g)
    decreases |script|
  {
    hide PairFronted, IoSpares;
    if script != [] {
      var n := |script| - 1;
      ExecuteFronted(disk, script[..n], h, g);
      PerformFronted(Execute(disk, script[..n]), script[n], h, g);
    }
  }

  lemma {:induction false} StoppedFronted(disk: Disk, script: seq<Io>, after: Disk, h: bytes, g: bytes)
    requires PairFronted(disk, h, g) && ScriptSpares(script) && StoppedIn(disk, script, after)
    ensures PairFronted(after, h, g)
  {
    hide PairFronted, Execute, Spares;
    var n: nat :| n <= |script| && StoppedAt(disk, script, n, after);
    var done := Execute(disk, script[..n]);
    ExecuteFronted(disk, script[..n], h, g);
    if after != done {
      match script[n]
      case Db(op) =>
        var part :| Part(op, part) && after == Perform(done, Db(part));
        PartSpares(op, part);
        PerformFronted(done, Db(part), h, g);
      case Wal(op) =>
        var part :| Part(op, part) && after == Perform(done, Wal(part));
        PartSpares(op, part);
        PerformFronted(done, Wal(part), h, g);
      case _ =>
    }
  }

  lemma {:induction false} SparesConcat(a: seq<Io>, b: seq<Io>)
    requires ScriptSpares(a) && ScriptSpares(b)
    ensures ScriptSpares(a + b)
  {
    hide IoSpares;
  }

  lemma {:induction false} WithinSpares(ops: seq<Io>, lo: nat, hi: nat)
    requires WritesWithin(ops, lo, hi) && lo >= 32
    ensures ScriptSpares(ops)
  {
    forall i | 0 <= i < |ops|
      ensures IoSpares(ops[i])
    {
      assert WriteWithin(ops[i], lo, hi);
    }
  }

  lemma {:induction false} PublishSpares(m: Manifest)
    requires m.time >= 0
    ensures ScriptSpares(PublishOps(m)) && ScriptSpares([SyncDb])
  {
    hide ManifestBytes;
  }

  lemma {:induction false} CleanSpares(m: Manifest, segs: seq<Segment>)
    requires m.time >= 0 && m.end >= DATA_START
    ensures ScriptSpares(CleanOps(m, segs))
  {
    hide PublishOps, ChainLength, LinkTo;
    PublishSpares(NextRetain(m, segs, DATA_START, NORMAL));
    SparesConcat([Db(Truncate(if m.end == DATA_START then MARKER_SIZE else m.end)), SyncDb],
                 PublishOps(NextRetain(m, segs, DATA_START, NORMAL)));
  }

  lemma {:induction false} CopySpares(disk: Disk, destination: nat, segs: seq<Segment>)
    requires ValidSegments(segs) && destination >= DATA_START
    ensures ScriptSpares(CopyOps(destination, segs))
  {
    hide CopyOps, ChainBytes, Execute, Volatile;
    CopyOpsAmount(disk, destination, segs);
    WithinSpares(CopyOps(destination, segs), destination, destination + |ChainBytes(destination, segs)|);
  }

  lemma {:induction false} FinishSpares(disk: Disk, m: Manifest, segs: seq<Segment>)
    requires m.time >= 0 && ValidSegments(segs) && m.end >= DATA_START
    ensures ScriptSpares(FinishOps(m, segs))
  {
    hide CopyOps, PublishOps, CleanOps, ChainLength, LinkTo, ScriptSpares;
    CleanSpares(m, segs);
    if PhaseOf(m) == TAIL {
      var c := NextRetain(m, segs, DATA_START, CLEANUP);
      CopySpares(disk, DATA_START, segs);
      PublishSpares(c);
      CleanSpares(c, segs);
      SparesConcat(CopyOps(DATA_START, segs), [SyncDb]);
      SparesConcat(CopyOps(DATA_START, segs) + [SyncDb], PublishOps(c));
      SparesConcat(CopyOps(DATA_START, segs) + [SyncDb] + PublishOps(c), CleanOps(c, segs));
    }
  }

  lemma {:induction false} CheckpointSpares(disk: Disk, st: Store)
    requires st.wal != [] && ValidSegment(NewSegment(st)) && LastTime(st.floor, st.wal) >= 0
    ensures ScriptSpares(CheckpointOps(st))
  {
    hide SegmentOps, PublishOps, ChainLength, PreviousLink, SkipLink, NewSegment, ScriptSpares, SegmentBytes, Execute,
      Volatile, LastTime, InstallManifest;
    InstalledPhase(st);
    var end, s := DATA_START + ChainLength(st.segs), NewSegment(st);
    var p, k := PreviousLink(DATA_START, st.segs), SkipLink(DATA_START, st.segs);
    var a, b := SegmentOps(end, s, p, k), PublishOps(InstallManifest(st));
    SegmentOpsAmount(disk, end, s, p, k);
    WithinSpares(a, end, end + |SegmentBytes(s, p, k)|);
    PublishSpares(InstallManifest(st));
    CutSpares(32);
    SparesConcat(a, [SyncDb]);
    SparesConcat(a + [SyncDb], b);
    SparesConcat(a + [SyncDb] + b, [Wal(Truncate(32)), SyncWal]);
  }

  lemma {:induction false} CutSpares(size: nat)
    requires size >= 32
    ensures ScriptSpares([Wal(Truncate(size)), SyncWal]) && ScriptSpares([SyncDb, SyncWal]) && ScriptSpares([])
  {
  }

  lemma {:induction false} ExpireSpares(disk: Disk, st: Store, cutoff: int)
    requires ValidSegments(st.segs) && st.floor >= 0
    ensures ScriptSpares(ExpireOps(st, cutoff))
  {
    hide CopyOps, PublishOps, FinishOps, ChainLength, LinkTo, ScriptSpares, Kept;
    var p, t, kept := PrepareManifest(st), TailManifest(st, cutoff), Kept(st.segs, cutoff);
    var a, b := PublishOps(p), CopyOps(DATA_START + ChainLength(st.segs), kept);
    var c, d := PublishOps(t), FinishOps(t, kept);
    PublishSpares(p);
    PublishSpares(t);
    CopySpares(disk, DATA_START + ChainLength(st.segs), kept);
    FinishSpares(disk, t, kept);
    SparesConcat(a, b);
    SparesConcat(a + b, [SyncDb]);
    SparesConcat(a + b + [SyncDb], c);
    SparesConcat(a + b + [SyncDb] + c, d);
  }

  lemma {:induction false} CallSpares(disk: Disk, call: Call, st: Store)
    requires ValidStore(st) && ValidSegments(st.segs) && Effective(call, st)
    ensures ScriptSpares(ScriptOf(call, st))
  {
    hide ValidStore, CheckpointOps, ExpireOps, BodyLength, ValidSegments;
    WritableStore(st);
    match call
    case Append(b) =>
    case Checkpoint => CheckpointSpares(disk, st);
    case Expire(cutoff) => ExpireSpares(disk, st, cutoff);
  }

  lemma {:induction false} OpenSpares(disk: Disk, m: Manifest, st: Store)
    requires OpensTo(disk, m, st)
    ensures ScriptSpares(RecoveryScript(disk, m, st))
  {
    hide FinishOps, BodyLength, Openable, TearsDetected, ScriptSpares, Volatile;
    FoundEnd(Volatile(disk.db), Volatile(disk.wal), m, st);
    FinishSpares(disk, m, st.segs);
    CutSpares(32 + BodyLength(st.wal));
    var finish := if PhaseOf(m) == NORMAL then [] else FinishOps(m, st.segs);
    var cut := if 32 + BodyLength(st.wal) < |Volatile(disk.wal)| then [Wal(Truncate(32 + BodyLength(st.wal))), SyncWal]
               else [];
    SparesConcat([SyncDb, SyncWal], finish);
    SparesConcat([SyncDb, SyncWal] + finish, cut);
  }

  lemma {:induction false} FoundEnd(d: bytes, w: bytes, m: Manifest, st: Store)
    requires Openable(d, w, m, st)
    ensures m.end >= DATA_START
  {
    hide WalFits, Holds;
    HeldSize(d, GoalFor(m, st));
  }

  /** Every step keeps the fronts of both files, whatever a crash makes of them. */
  lemma {:induction false} StepFronted(s: System, e: Event, s': System, h: bytes, g: bytes)
    requires Step(s, e, s') && PairFronted(s.disk, h, g)
    ensures PairFronted(s'.disk, h, g)
  {
    hide PairFronted, ScriptSpares, Execute, StoppedIn, TearsDetected, ScriptOf, RecoveryScript, OpensTo, ValidStore,
      ValidSegments, Effective, ManifestAfter, After, FinalManifest;
    match e
    case Done(call) =>
      CallSpares(s.disk, call, s.mode.st);
      ExecuteFronted(s.disk, ScriptOf(call, s.mode.st), h, g);
    case Failed(call) =>
      CallSpares(s.disk, call, s.mode.st);
      StoppedFronted(s.disk, ScriptOf(call, s.mode.st), s'.disk, h, g);
    case Crashed => CrashFronted(s.disk, s'.disk, h, g);
    case Opened => OpenedFronted(s, s', h, g);
    case OpenFailed =>
      if s'.disk != s.disk {
        FailedFronted(s, s', h, g);
      }
    case _ =>
  }

  lemma {:induction false} CrashFronted(disk: Disk, after: Disk, h: bytes, g: bytes)
    requires PairFronted(disk, h, g) && after.db.pending == [] && after.wal.pending == []
    requires Crash(disk, after.db.stable, after.wal.stable)
    ensures PairFronted(after, h, g)
  {
    hide Starts, CrashImage, Spares;
    FrontedImage(disk.db, h, after.db.stable);
    FrontedImage(disk.wal, g, after.wal.stable);
  }

  lemma {:induction false} OpenedFronted(s: System, s': System, h: bytes, g: bytes)
    requires Step(s, Opened, s') && PairFronted(s.disk, h, g)
    ensures PairFronted(s'.disk, h, g)
  {
    hide PairFronted, ScriptSpares, Execute, FinalManifest, Openable, TearsDetected, RecoveryScript, ValidSegments;
    var m :| OpensTo(s.disk, m, s'.mode.st)
          && s' == System(Execute(s.disk, RecoveryScript(s.disk, m, s'.mode.st)),
                          Usable(FinalManifest(m, s'.mode.st.segs), s'.mode.st));
    OpenSpares(s.disk, m, s'.mode.st);
    ExecuteFronted(s.disk, RecoveryScript(s.disk, m, s'.mode.st), h, g);
  }

  lemma {:induction false} FailedFronted(s: System, s': System, h: bytes, g: bytes)
    requires Step(s, OpenFailed, s') && s'.disk != s.disk && PairFronted(s.disk, h, g)
    ensures PairFronted(s'.disk, h, g)
  {
    hide PairFronted, ScriptSpares, StoppedIn, Openable, TearsDetected, RecoveryScript, ValidSegments;
    var m, st :| OpensTo(s.disk, m, st) && StoppedIn(s.disk, RecoveryScript(s.disk, m, st), s'.disk);
    OpenSpares(s.disk, m, st);
    StoppedFronted(s.disk, RecoveryScript(s.disk, m, st), s'.disk, h, g);
  }

  /** Over every run, in every crash image, the two files stay the pair they were: the
      comparison at the start of open never comes to fail. */
  lemma {:induction false} PairKept(states: seq<System>, events: seq<Event>, n: nat, h: bytes, g: bytes, d: bytes,
                                    w: bytes)
    requires Run(states, events) && n <= |events| && PairFronted(states[0].disk, h, g) && Matched(h, g)
    requires Crash(states[n].disk, d, w)
    ensures Starts(d, h) && Starts(w, g) && Matched(d, w)
  {
    hide PairFronted, PairHeader;
    RunFronted(states, events, n, h, g);
    FrontOf(states[n].disk, h, g, d, w);
    var identity :| Headed(h, DATABASE_MAGIC, identity) && Headed(g, WAL_MAGIC, identity);
    assert h[..32] == h && g[..32] == g;
    assert Headed(d, DATABASE_MAGIC, identity) && Headed(w, WAL_MAGIC, identity);
  }

  lemma {:induction false} FrontOf(disk: Disk, h: bytes, g: bytes, d: bytes, w: bytes)
    requires PairFronted(disk, h, g) && Crash(disk, d, w)
    ensures Starts(d, h) && Starts(w, g) && |h| == 32 && |g| == 32
  {
    hide Starts, CrashImage, Spares;
    FrontedImage(disk.db, h, d);
    FrontedImage(disk.wal, g, w);
  }

  lemma {:induction false} RunFronted(states: seq<System>, events: seq<Event>, n: nat, h: bytes, g: bytes)
    requires Run(states, events) && n <= |events| && PairFronted(states[0].disk, h, g)
    ensures PairFronted(states[n].disk, h, g)
  {
    hide PairFronted, Step;
    if n > 0 {
      RunFronted(states, events, n - 1, h, g);
      assert StepAt(states, events, n - 1);
      StepFronted(states[n - 1], events[n - 1], states[n], h, g);
    }
  }

  /** A created pair is one. */
  lemma {:induction false} CreatedMatched(identity: bytes)
    requires |identity| == 16
    ensures var disk := Disk(File(CreatedDatabase(identity), []), File(CreatedWal(identity), []));
            var h, g := PairHeader(DATABASE_MAGIC, identity), PairHeader(WAL_MAGIC, identity);
            PairFronted(disk, h, g) && Matched(h, g)
  {
    hide PairHeader, ManifestBytes;
    var h, g := PairHeader(DATABASE_MAGIC, identity), PairHeader(WAL_MAGIC, identity);
    assert h[..32] == h && g[..32] == g && CreatedDatabase(identity)[..32] == h;
    assert Headed(h, DATABASE_MAGIC, identity) && Headed(g, WAL_MAGIC, identity);
  }
}
