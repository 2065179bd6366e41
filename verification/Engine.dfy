/** The batch engine: an open handle over a pair of files that may fail at any
    operation. Every call is a step of the system whose runs are proved safe. */
module Engine {
  import opened Bytes
  import opened Checksum
  import opened Frames
  import opened Segments
  import opened SkipLinks
  import opened ChainCheck
  import opened Manifests
  import opened Storage
  import opened Recovery
  import opened Stores
  import opened Authority
  import opened Scripts
  import opened CrashSafety
  import opened Calls
  import opened Cursors
  import opened Queries
  import opened Ranges
  import opened Transparency
  import opened Identity
  import opened Runs
  import opened Device
  import opened Relocation
  import opened Retention
  import opened Acceptance
  import opened Pairs
  import opened Examination
  import opened Maintenance
  import opened Expiry

  // --- what a call answers -------------------------------------------------

  /** The torn-slot assumption for the call's own slot writes. */
  ghost predicate Trusted(s: System, call: Call)
  {
    s.mode.Usable? && ValidStore(s.mode.st) && ValidSegments(s.mode.st.segs) && Effective(call, s.mode.st) ==>
      TearsDetected(s.disk, ScriptOf(call, s.mode.st))
  }

  /** A call is one step of the system: done and acknowledged, rejected without
      effect, or failed somewhere in its script with the handle poisoned. */
  ghost predicate Answered(before: System, call: Call, status: Status, after: System)
  {
    match before.mode
    case Down => status == NotOpen && after == before
    case Poisoned => status == RecoveryRequired && after == before
    case Usable(_, st) =>
      && ValidStore(st) && ValidSegments(st.segs)
      && if !Effective(call, st) then Step(before, Rejected(call), after) && status == Verdict(call, st)
         else || (status == Success && Step(before, Done(call), after))
              || (status == IoError && Step(before, Failed(call), after))
  }

  /** What an argument check answers; Success also for a call with nothing to do. */
  ghost function Verdict(call: Call, st: Store): Status
    requires ValidSegments(st.segs)
  {
    match call
    case Append(b) =>
      if |b| == 0 || |b| > MAX_RECORDS then InvalidArgument
      else if !Sorted(BatchTimes(b)) || (st.installed + |st.wal| != 0 && b[0].time < LastTime(st.floor, st.wal))
        then OutOfOrder
      else if 32 + BodyLength(st.wal) + FrameLength(b) > WAL_CAPACITY then WalFull
      else if st.installed + |st.wal| == TWO64 - 1 then Overflow
      else Success
    case Checkpoint =>
      if st.wal == [] then Success
      else if st.revision == TWO64 - 1 then Overflow
      else if DATA_START + ChainLength(st.segs) + 64 + BodyLength(st.wal) > DATABASE_CAPACITY then DatabaseFull
      else Success
    case Expire(cutoff) =>
      if |Kept(st.segs, cutoff)| == |st.segs| then Success
      else if DATA_START + ChainLength(st.segs) + ChainLength(Kept(st.segs, cutoff)) > DATABASE_CAPACITY
        then DatabaseFull
      else if st.revision > TWO64 - 1 - 5 then Overflow
      else Success
  }

  /** An append has its effect exactly when no check objects. */
  lemma {:induction false} AppendVerdict(st: Store, b: Batch)
    requires ValidStore(st) && ValidSegments(st.segs) && forall i :: 0 <= i < |b| ==> ValidRecord(b[i])
    ensures Effective(Append(b), st) <==> Verdict(Append(b), st) == Success
    ensures Verdict(Append(b), st)
         == if |b| == 0 || |b| > MAX_RECORDS then InvalidArgument
            else if !(Sorted(BatchTimes(b))
                      && (st.installed + |st.wal| != 0 ==> LastTime(st.floor, st.wal) <= b[0].time)) then OutOfOrder
            else if FrameLength(b) > WAL_CAPACITY - (32 + BodyLength(st.wal)) then WalFull
            else if st.installed + |st.wal| == TWO64 - 1 then Overflow
            else Success
    ensures Effective(Append(b), st) ==>
              && AppendAllowed(st, b) && ValidBatch(b) && ScriptOf(Append(b), st) == AppendOps(st, b)
              && After(Append(b), st) == Appended(st, b)
  {
    hide Sorted, BatchTimes, ValidData, BodyLength, LastTime, AppendOps;
  }

  lemma {:induction false} CheckpointVerdict(st: Store)
    requires ValidStore(st) && ValidSegments(st.segs)
    ensures Effective(Checkpoint, st) <==> CheckpointAllowed(st)
    ensures Verdict(Checkpoint, st)
         == if BodyLength(st.wal) == 0 then Success
            else if st.revision == TWO64 - 1 then Overflow
            else if BodyLength(st.wal) + 64 > DATABASE_CAPACITY - (DATA_START + ChainLength(st.segs)) then DatabaseFull
            else Success
    ensures CheckpointAllowed(st) <==> BodyLength(st.wal) != 0 && st.revision != TWO64 - 1
                                       && BodyLength(st.wal) + 64
                                          <= DATABASE_CAPACITY - (DATA_START + ChainLength(st.segs))
    ensures CheckpointAllowed(st) ==> st.wal != [] && After(Checkpoint, st) == Checkpointed(st)
    ensures CheckpointAllowed(st) ==>
              && ValidSegment(NewSegment(st)) && LastTime(st.floor, st.wal) >= 0
              && ScriptOf(Checkpoint, st) == CheckpointOps(st)
  {
    hide ValidStore, BodyLength, ChainLength, ValidSegment, NewSegment, LastTime, CheckpointOps, Checkpointed;
    WritableStore(st);
    EmptyWal(st);
    RevisionBound(st);
  }

  lemma {:induction false} ExpireVerdict(st: Store, cutoff: int)
    requires ValidStore(st) && ValidSegments(st.segs)
    ensures Effective(Expire(cutoff), st) <==> ExpireAllowed(st, cutoff)
    ensures Verdict(Expire(cutoff), st)
         == if |Kept(st.segs, cutoff)| == |st.segs| then Success
            else if ChainLength(Kept(st.segs, cutoff)) > DATABASE_CAPACITY - (DATA_START + ChainLength(st.segs))
              then DatabaseFull
            else if st.revision > TWO64 - 1 - 5 then Overflow
            else Success
    ensures ExpireAllowed(st, cutoff) <==>
              && |Kept(st.segs, cutoff)| != |st.segs|
              && ChainLength(Kept(st.segs, cutoff)) <= DATABASE_CAPACITY - (DATA_START + ChainLength(st.segs))
              && st.revision <= TWO64 - 1 - 5
    ensures ExpireAllowed(st, cutoff) ==>
              && st.floor >= 0 && After(Expire(cutoff), st) == Expired(st, cutoff)
              && ScriptOf(Expire(cutoff), st) == ExpireOps(st, cutoff)
              && forall m ::
                   ManifestAfter(Expire(cutoff), m, st)
                   == FinalManifest(TailManifest(st, cutoff), Kept(st.segs, cutoff))
  {
    hide ValidStore, ChainLength, Kept, ExpireOps, FinalManifest, TailManifest, Expired;
    WritableStore(st);
  }

  /** What append refuses, and in which order: an empty batch or one of more than 64
      records; times that decrease within the batch or against what is committed; a
      frame that does not fit in 64 MiB; the last sequence number. */
  lemma {:induction false} AppendJudged(st: Store, b: Batch)
    requires ValidStore(st) && ValidSegments(st.segs) && forall i :: 0 <= i < |b| ==> ValidRecord(b[i])
    ensures var v := Verdict(Append(b), st);
            var early := (exists i, j :: 0 <= i < j < |b| && b[j].time < b[i].time)
                         || (b != [] && st.wal != [] && st.wal[|st.wal| - 1] != []
                             && b[0].time < NewestTime(st.wal[|st.wal| - 1]))
                         || (b != [] && st.wal == [] && st.installed > 0 && b[0].time < st.floor);
            && (v == InvalidArgument <==> |b| == 0 || |b| > 64)
            && (v == OutOfOrder <==> 1 <= |b| <= 64 && early)
            && (v == WalFull <==> 1 <= |b| <= 64 && !early && 96 + BodyLength(st.wal) + 20 * |b| > 67108864)
            && (v == Overflow <==> 1 <= |b| <= 64 && !early && 96 + BodyLength(st.wal) + 20 * |b| <= 67108864
                                   && st.installed + |st.wal| == 0xffff_ffff_ffff_ffff)
            && (v == Success || v == InvalidArgument || v == OutOfOrder || v == WalFull || v == Overflow)
            && (v == Success <==> Effective(Append(b), st))
  {
    hide BodyLength, ValidData, ValidSegments, LastTime, Sorted, Effective;
    AppendVerdict(st, b);
    assert TWO64 - 1 == 0xffff_ffff_ffff_ffff;
    if b != [] {
      OrderRead(st, b);
    }
  }

  lemma {:induction false} OrderRead(st: Store, b: Batch)
    requires ValidStore(st) && b != []
    ensures !Sorted(BatchTimes(b)) <==> exists i, j :: 0 <= i < j < |b| && b[j].time < b[i].time
    ensures st.wal == [] ==> LastTime(st.floor, st.wal) == st.floor
    ensures st.wal != [] ==>
              st.wal[|st.wal| - 1] != [] && LastTime(st.floor, st.wal) == NewestTime(st.wal[|st.wal| - 1])
  {
    hide BodyLength, ValidData;
    if st.wal != [] {
      BatchNotEmpty(st.wal, |st.wal| - 1);
    }
    if !Sorted(BatchTimes(b)) {
      var i, j :| 0 <= i < j < |b| && BatchTimes(b)[i] > BatchTimes(b)[j];
      assert b[j].time < b[i].time;
    } else {
      forall i, j | 0 <= i < j < |b|
        ensures b[i].time <= b[j].time
      {
        assert BatchTimes(b)[i] <= BatchTimes(b)[j];
      }
    }
  }

  /** What checkpoint and expire refuse: the last revisions, and files past 1 GiB. */
  lemma {:induction false} MaintenanceJudged(st: Store, cutoff: int)
    requires ValidStore(st) && ValidSegments(st.segs)
    ensures var v := Verdict(Checkpoint, st);
            var full := 224 + ChainLength(st.segs) + BodyLength(st.wal) > 1073741824;
            && (v == Overflow <==> st.wal != [] && st.revision == 0xffff_ffff_ffff_ffff)
            && (v == DatabaseFull <==> st.wal != [] && st.revision != 0xffff_ffff_ffff_ffff && full)
            && (v == Success || v == Overflow || v == DatabaseFull)
            && (Effective(Checkpoint, st) <==> v == Success && st.wal != [])
    ensures var v, kept := Verdict(Expire(cutoff), st), Kept(st.segs, cutoff);
            var some := exists i :: 0 <= i < |st.segs| && !StillNeeded(st.segs[i], cutoff);
            var full := 160 + ChainLength(st.segs) + ChainLength(kept) > 1073741824;
            && (v == DatabaseFull <==> some && full)
            && (v == Overflow <==> some && !full && st.revision > 0xffff_ffff_ffff_fffa)
            && (v == Success || v == Overflow || v == DatabaseFull)
            && (Effective(Expire(cutoff), st) <==> v == Success && some)
  {
    hide BodyLength, ChainLength, ValidStore, ValidSegments, Kept, Effective, StillNeeded;
    CheckpointVerdict(st);
    ExpireVerdict(st, cutoff);
    EmptyWal(st);
    SomeExpires(st.segs, cutoff);
    assert TWO64 - 1 == 0xffff_ffff_ffff_ffff;
  }

  lemma {:induction false} SomeExpires(segs: seq<Segment>, cutoff: int)
    requires ValidSegments(segs)
    ensures |Kept(segs, cutoff)| < |segs| <==> exists i :: 0 <= i < |segs| && !StillNeeded(segs[i], cutoff)
  {
    hide StillNeeded, Expires, ValidSegment;
    if segs != [] {
      var front, last := segs[..|segs| - 1], segs[|segs| - 1];
      SomeExpires(front, cutoff);
      assert ValidSegment(last);
      NeededKept(last, cutoff);
      assert forall i :: 0 <= i < |front| ==> front[i] == segs[i];
    }
  }

  /** An append rewrites no slot, so it needs no assumption about torn slots. */
  lemma {:induction false} AppendTrusted(disk: Disk, st: Store, b: Batch)
    requires ValidBatch(b)
    ensures TearsDetected(disk, AppendOps(st, b))
  {
    hide Execute, TearDetected, Body, Commit, Volatile;
    var script := AppendOps(st, b);
    forall n | 0 <= n < |script|
      ensures TearsDetectedAt(disk, script, n)
    {
      assert !script[n].Db?;
    }
  }

  lemma {:induction false} NotUsable(s: System, call: Call)
    ensures s.mode == Down ==> Answered(s, call, NotOpen, s)
    ensures s.mode == Poisoned ==> Answered(s, call, RecoveryRequired, s)
  {
  }

  lemma {:induction false} AnsweredRejected(s: System, call: Call)
    requires s.mode.Usable? && ValidStore(s.mode.st) && ValidSegments(s.mode.st.segs) && !Effective(call, s.mode.st)
    ensures Answered(s, call, Verdict(call, s.mode.st), s)
  {
    hide Verdict, Effective, ValidStore;
  }

  lemma {:induction false} AnsweredDone(s: System, call: Call, disk: Disk)
    requires s.mode.Usable? && ValidStore(s.mode.st) && ValidSegments(s.mode.st.segs) && Effective(call, s.mode.st)
    requires TearsDetected(s.disk, ScriptOf(call, s.mode.st)) && disk == Execute(s.disk, ScriptOf(call, s.mode.st))
    ensures Answered(s, call, Success,
                     System(disk, Usable(ManifestAfter(call, s.mode.m, s.mode.st), After(call, s.mode.st))))
  {
    hide Verdict, Effective, ValidStore, ScriptOf, TearsDetected, Execute, After, ManifestAfter;
  }

  lemma {:induction false} AnsweredFailed(s: System, call: Call, disk: Disk)
    requires s.mode.Usable? && ValidStore(s.mode.st) && ValidSegments(s.mode.st.segs) && Effective(call, s.mode.st)
    requires TearsDetected(s.disk, ScriptOf(call, s.mode.st)) && StoppedIn(s.disk, ScriptOf(call, s.mode.st), disk)
    ensures Answered(s, call, IoError, System(disk, Poisoned))
  {
    hide Verdict, Effective, ValidStore, ScriptOf, TearsDetected, StoppedIn;
  }

  /** The argument check of append: times in order, from the last one on. */
  method InOrder(b: Batch, check: bool, floor: int) returns (ok: bool)
    requires b != []
    ensures ok <==> Sorted(BatchTimes(b)) && (check ==> floor <= b[0].time)
  {
    var t := BatchTimes(b);
    for i := 0 to |b|
      invariant i > 0 && check ==> floor <= b[0].time
      invariant forall x, y :: 0 <= x < y < i ==> t[x] <= t[y]
    {
      assert t[i] == b[i].time && (i > 0 ==> t[i - 1] == b[i - 1].time);
      if (i == 0 && check && b[i].time < floor) || (i != 0 && b[i].time < b[i - 1].time) {
        return false;
      }
    }
    ok := true;
  }

  /** The checks of an append, in order. */
  method CheckAppend(h: Handle, b: Batch, ghost st: Store) returns (status: Status)
    requires ValidStore(st) && ValidSegments(st.segs) && forall i :: 0 <= i < |b| ==> ValidRecord(b[i])
    requires h.sequence == st.installed + |st.wal| && h.lastTime == LastTime(st.floor, st.wal)
    requires h.end == 32 + BodyLength(st.wal)
    ensures status == Verdict(Append(b), st)
  {
    hide ValidStore, Sorted, BatchTimes, LastTime, BodyLength, Verdict, ValidSegments, Effective;
    AppendVerdict(st, b);
    if |b| == 0 || |b| > MAX_RECORDS {
      return InvalidArgument;
    }
    var ordered := InOrder(b, h.sequence != 0, h.lastTime);
    if !ordered {
      return OutOfOrder;
    }
    if FrameLength(b) > WAL_CAPACITY - h.end {
      return WalFull;
    }
    if h.sequence == TWO64 - 1 {
      return Overflow;
    }
    status := Success;
  }

  /** The checks of a checkpoint; an empty WAL leaves nothing to do. */
  method CheckCheckpoint(h: Handle, ghost st: Store) returns (status: Status)
    requires ValidStore(st) && ValidSegments(st.segs)
    requires h.end == 32 + BodyLength(st.wal) && h.dataEnd == DATA_START + ChainLength(st.segs)
    requires h.revision == st.revision
    ensures status == Verdict(Checkpoint, st)
    ensures Effective(Checkpoint, st) <==> status == Success && h.end != 32
  {
    hide ValidStore, BodyLength, ChainLength, Verdict, ValidSegments, Effective, CheckpointAllowed;
    CheckpointVerdict(st);
    if h.end == 32 {
      return Success;
    }
    if h.revision == TWO64 - 1 {
      return Overflow;
    }
    if h.end - 32 + 64 > DATABASE_CAPACITY - h.dataEnd {
      return DatabaseFull;
    }
    status := Success;
  }

  /** The pre-scan and the checks of an expiration. */
  method CheckExpire(files: Files, h: Handle, cutoff: int, ghost st: Store)
    returns (status: Status, segments: nat, live: nat)
    requires Readable(Volatile(files.disk.db), Volatile(files.disk.wal), h, st) && ValidStore(st)
    requires ValidSegments(st.segs) && U64(cutoff)
    requires h.generation == |st.segs| && h.dataEnd == DATA_START + ChainLength(st.segs) && h.revision == st.revision
    ensures status == Verdict(Expire(cutoff), st)
    ensures segments == |Kept(st.segs, cutoff)| && live == LiveCount(Kept(st.segs, cutoff))
    ensures Effective(Expire(cutoff), st) <==> status == Success && segments != h.generation
  {
    hide ValidStore, Kept, ChainLength, Verdict, ValidSegments, Effective, ExpireAllowed, Readable, Volatile,
      LiveCount;
    ExpireVerdict(st, cutoff);
    var size;
    size, segments, live := Prescan(Volatile(files.disk.db), Volatile(files.disk.wal), h, cutoff, st);
    if segments == h.generation {
      status := Success;
    } else if size > DATABASE_CAPACITY - h.dataEnd {
      status := DatabaseFull;
    } else if h.revision > TWO64 - 1 - 5 {
      status := Overflow;
    } else {
      status := Success;
    }
  }

  /** The two writes of an append, each made durable before the next step. */
  method WriteFrame(files: Files, end: nat, sequence: nat, b: Batch, ghost st: Store) returns (status: Status)
    requires ValidBatch(b) && end == 32 + BodyLength(st.wal) && sequence == st.installed + |st.wal| + 1
    modifies files
    ensures status == Success || status == IoError
    ensures status == Success ==> files.disk == Execute(old(files.disk), AppendOps(st, b))
    ensures status == IoError ==> StoppedIn(old(files.disk), AppendOps(st, b), files.disk)
  {
    hide Execute, StoppedIn, Body, Commit, BodyLength, ValidBatch;
    ghost var before := files.disk;
    var body, commit := Wal(Write(end, Body(sequence, b))), Wal(Write(end + 32 + 20 * |b|, Commit(sequence, b)));
    assert AppendOps(st, b) == [body, SyncWal] + [commit, SyncWal];
    status := IssueAndSync(files, body, SyncWal);
    if status != Success {
      StoppedEarlier(before, [body, SyncWal], [commit, SyncWal], files.disk);
      return;
    }
    ExecuteConcat(before, [body, SyncWal], [commit, SyncWal]);
    status := IssueAndSync(files, commit, SyncWal);
    if status != Success {
      StoppedLater(before, [body, SyncWal], [commit, SyncWal], files.disk);
    }
  }

  class Batches {
    const files: Files
    var open: bool
    var failed: bool
    var handle: Handle
    var cursor: Cursor

    /** The manifest in force, the store, and how many visible batches were read. */
    ghost var m: Manifest
    ghost var st: Store
    ghost var k: nat

    /** A usable handle stands for a store that is durable in both files, and
        its cursor for a place among the visible batches. */
    ghost predicate Valid()
      reads this, files
    {
      open && !failed ==>
        Ready(files.disk, m, st) && ValidSegments(st.segs) && Reflects(handle, st) && Positioned(st, cursor, k)
    }

    ghost function Sys(): System
      reads this, files
    {
      System(files.disk, if !open then Down else if failed then Poisoned else Usable(m, st))
    }

    /** The contents of the two files, as read. */
    ghost function DbBytes(): bytes
      reads files
    {
      Volatile(files.disk.db)
    }

    ghost function WalBytes(): bytes
      reads files
    {
      Volatile(files.disk.wal)
    }

    /** What reading on will return. */
    ghost function Future(): seq<Entry>
      reads this
    {
      if k <= |Visible(st)| then Visible(st)[k..] else []
    }

    constructor (files: Files)
      ensures this.files == files && !open && Valid()
    {
      this.files := files;
      open, failed := false, false;
      handle := Handle(32, 0, DATA_START, 0, 0, 0, 0, false, 0, 0, NoTimes(), 0, 1, false);
      cursor := ResetCursor();
      m, st, k := Install(0, DATA_START, 0, 0, 0, false), Store([], 0, 0, false, [], 0), 0;
    }

    /** `batch_ready`. */
    method BatchReady() returns (status: Status)
      ensures status == if !open then NotOpen else if failed then RecoveryRequired else Success
    {
      status := if !open then NotOpen else if failed then RecoveryRequired else Success;
    }

    /** `timelite_batches_append`: body, sync, commit record, sync. */
    method Append(b: Batch) returns (status: Status, sequence: nat)
      requires Valid() && forall i :: 0 <= i < |b| ==> ValidRecord(b[i])
      modifies this, files
      ensures Valid() && Answered(old(Sys()), Runs.Append(b), status, Sys())
      ensures !old(open) ==> status == NotOpen
      ensures old(open && failed) ==> status == RecoveryRequired
      ensures status == Success ==>
                && sequence == old(st).installed + |old(st).wal| + 1
                && Future() == old(Future()) + [Entry(sequence, b)]
      ensures status != Success && status != IoError ==> k == old(k) && cursor == old(cursor) && handle == old(handle)
    {
      hide Ready, Reflects, Positioned, Execute, StoppedIn, Visible, ValidStore, TearsDetected, Sorted, BatchTimes,
        Answered, Step, AppendAllowed, LastTime, BodyLength, AppendedHandle, AppendOps, ChainLength, LinkTo, Verdict,
        Effective, ScriptOf, After, ValidSegments;
      ghost var call, s := Runs.Append(b), Sys();
      NotUsable(s, call);
      sequence := 0;
      status := BatchReady();
      if status != Success {
        return;
      }
      ghost var before := files.disk;
      UsableFacts(before, m, st, handle, cursor, k);
      AppendVerdict(st, b);
      status := CheckAppend(handle, b, st);
      if status != Success {
        AnsweredRejected(s, call);
        return;
      }
      sequence := handle.sequence + 1;
      failed := true;
      AppendTrusted(before, st, b);
      status := WriteFrame(files, handle.end, sequence, b, st);
      if status != Success {
        AnsweredFailed(s, call, files.disk);
        return;
      }
      failed := false;
      CallSafely(before, m, st, call);
      AnsweredDone(s, call, files.disk);
      AppendReflects(handle, st, b);
      AppendKeepsPlace(st, b, cursor, k);
      AppendedValid(st, b);
      handle := AppendedHandle(handle, b);
      st := Appended(st, b);
    }

    /** `timelite_batches_checkpoint`: segment, sync; manifest into the other slot,
        sync; then the WAL is cut. */
    method Checkpoint() returns (status: Status)
      requires Valid() && Trusted(Sys(), Runs.Checkpoint)
      modifies this, files
      ensures Valid() && Answered(old(Sys()), Runs.Checkpoint, status, Sys())
      ensures !old(open) ==> status == NotOpen
      ensures old(open && failed) ==> status == RecoveryRequired
      ensures status == Success ==> Future() == old(Future())
      ensures status != Success && status != IoError ==> k == old(k) && cursor == old(cursor) && handle == old(handle)
    {
      hide Ready, Reflects, Positioned, Execute, StoppedIn, Visible, ValidStore, TearsDetected, Answered, Step,
        BodyLength, Verdict, Effective, ScriptOf, After, CheckpointAllowed, ValidSegments, InstalledHandle,
        ReclaimedHandle, Checkpointed, CheckpointOps, SegmentOps, PublishOps, InstallManifest, LinkTo, NewSegment,
        PriorOf, MoveCursor, SkipLink, LastTime, ValidSegment, LiveCount, ChainLength, InstallOps;
      ghost var call, s := Runs.Checkpoint, Sys();
      NotUsable(s, call);
      status := BatchReady();
      if status != Success {
        return;
      }
      ghost var before := files.disk;
      UsableFacts(before, m, st, handle, cursor, k);
      CheckpointVerdict(st);
      status := CheckCheckpoint(handle, st);
      if status != Success || handle.end == 32 {
        AnsweredRejected(s, call);
        return;
      }
      var skip, prior := FindLinks(files, handle, m, st);
      CheckpointSettles(before, m, st, handle, cursor, k, prior);
      failed := true;
      status := InstallSegment(files, handle, skip, m, st);
      if status != Success {
        AnsweredFailed(s, call, files.disk);
        return;
      }
      cursor := MoveCursor(cursor, handle.dataEnd, handle.dataEnd + 64 + (handle.end - 32));
      handle := InstalledHandle(handle, prior);
      status := Reclaim(files, before, st);
      if status != Success {
        AnsweredFailed(s, call, files.disk);
        return;
      }
      handle := ReclaimedHandle(handle);
      failed := false;
      AnsweredDone(s, call, files.disk);
      m := InstallManifest(st);
      st := Checkpointed(st);
    }

    /** `timelite_batches_expire_before`: PREPARE, tail copy, TAIL, front copy,
        CLEANUP, NORMAL; then the chain is re-validated and the cursor relocated. */
    method ExpireBefore(cutoff: int) returns (status: Status)
      requires Valid() && U64(cutoff) && Trusted(Sys(), Expire(cutoff))
      modifies this, files
      ensures Valid() && Answered(old(Sys()), Expire(cutoff), status, Sys())
      ensures !old(open) ==> status == NotOpen
      ensures old(open && failed) ==> status == RecoveryRequired
      ensures status == Success ==> Future() == Surviving(old(Future()), Visible(st))
      ensures status != Success && status != IoError ==> k == old(k) && cursor == old(cursor) && handle == old(handle)
    {
      hide Ready, Reflects, Positioned, Execute, StoppedIn, Visible, ValidStore, TearsDetected, Answered, Step,
        BodyLength, Expired, Kept, ExpireOps, ChainLength, CopyOps, PublishOps, FinishOps, LinkTo, Readable,
        ExpiredHandle, Source, InProgress, CheckChain, Pow2, SpanStart, LiveCount, Surviving, FirstFrom,
        FinalManifest, Prepared, Verdict, Effective, ScriptOf, After, ManifestAfter, ExpireAllowed, ValidSegments,
        Record24, TailManifest;
      ghost var call, s := Expire(cutoff), Sys();
      NotUsable(s, call);
      status := BatchReady();
      if status != Success {
        return;
      }
      ghost var before := files.disk;
      UsableFacts(before, m, st, handle, cursor, k);
      ExpireVerdict(st, cutoff);
      ReadyFiles(before, m, st, handle);
      var segments, live;
      status, segments, live := CheckExpire(files, handle, cutoff, st);
      if status != Success || segments == handle.generation {
        AnsweredRejected(s, call);
        AllKept(st, k);
        return;
      }
      failed := true;
      var state, end, tail;
      status, state, end, tail := Replace(files, handle, cutoff, segments, m, st);
      if status != Success {
        AnsweredFailed(s, call, files.disk);
        return;
      }
      AnsweredDone(s, call, files.disk);
      var moved, at;
      moved, at, k := Resettle(files, handle, cursor, cutoff, segments, state, end, tail, before, m, st, k);
      handle, cursor := moved, at;
      m, st := ManifestAfter(call, m, st), Expired(st, cutoff);
      failed := false;
    }

    // --- reading -----------------------------------------------------------

    /** `timelite_batches_next`: the next batch, whole or not at all. */
    method Next(capacity: nat) returns (status: Status, entry: Entry)
      requires Valid()
      modifies this
      ensures Valid() && Sys() == old(Sys()) && handle == old(handle)
      ensures !old(open) ==> status == NotOpen
      ensures old(open && failed) ==> status == RecoveryRequired
      ensures old(open && !failed) ==> status == Success || status == EndOfBatches || status == BufferTooSmall
      ensures status == Success ==> old(Future()) == [entry] + Future() && |entry.batch| <= capacity
      ensures status == EndOfBatches ==> old(Future()) == []
      ensures status == BufferTooSmall ==> old(Future()) != [] && |old(Future())[0].batch| > capacity
      ensures status != Success ==> cursor == old(cursor) && k == old(k)
    {
      hide Ready, Reflects, Positioned, Visible, Readable, ReadCursor, ValidStore, BodyLength, ChainLength, LinkTo,
        LastTime, ValidSegments;
      entry := Entry(0, []);
      if !open {
        return NotOpen, entry;
      }
      if failed {
        return RecoveryRequired, entry;
      }
      UsableFacts(files.disk, m, st, handle, cursor, k);
      ReadyFiles(files.disk, m, st, handle);
      var d, w := Volatile(files.disk.db), Volatile(files.disk.wal);
      ReadAt(d, w, handle, st, cursor, k);
      match ReadCursor(d, w, handle, cursor) {
        case End =>
          return EndOfBatches, entry;
        case Invalid =>
          return InvalidDatabase, entry;
        case Batch(e, after) =>
          if capacity < |e.batch| {
            return BufferTooSmall, entry;
          }
          status, entry, cursor, k := Success, e, after, k + 1;
      }
    }

    /** `timelite_batches_rewind`. */
    method Rewind() returns (status: Status)
      requires Valid()
      modifies this
      ensures Valid() && Sys() == old(Sys()) && handle == old(handle)
      ensures !old(open) ==> status == NotOpen
      ensures old(open && failed) ==> status == RecoveryRequired
      ensures old(open && !failed) ==> status == Success && Future() == Visible(st)
      ensures status != Success ==> cursor == old(cursor) && k == old(k)
    {
      hide Ready, Reflects, Positioned, Visible;
      if !open {
        return NotOpen;
      }
      if failed {
        return RecoveryRequired;
      }
      StartPlace(st);
      cursor, k := ResetCursor(), 0;
      status := Success;
    }

    /** `timelite_batches_seek`: to the first batch whose last record reaches `from`. */
    method SeekTo(from: int) returns (status: Status)
      requires Valid()
      modifies this
      ensures Valid() && Sys() == old(Sys()) && handle == old(handle)
      ensures !old(open) ==> status == NotOpen
      ensures old(open && failed) ==> status == RecoveryRequired
      ensures old(open && !failed) ==> status == Success || status == EndOfBatches
      ensures status == Success ==>
                k < |Visible(st)| && Visible(st)[k].batch != [] && NewestTime(Visible(st)[k].batch) >= from
      ensures status == EndOfBatches ==> k == |Visible(st)|
      ensures old(open && !failed) ==>
                forall i :: 0 <= i < k ==> Visible(st)[i].batch != [] && NewestTime(Visible(st)[i].batch) < from
      ensures !old(open && !failed) ==> cursor == old(cursor) && k == old(k)
    {
      hide Ready, Reflects, Positioned, Visible, Readable, FirstReaching;
      if !open {
        return NotOpen;
      }
      if failed {
        return RecoveryRequired;
      }
      ReadyFiles(files.disk, m, st, handle);
      var r, c;
      r, c, k := Seek(Volatile(files.disk.db), Volatile(files.disk.wal), handle, from, st);
      cursor := c;
      UsableFacts(files.disk, m, st, handle, cursor, k);
      ReachMeans(st, from, k);
      status := if r == Found then Success else EndOfBatches;
    }

    /** `timelite_batches_next_range`. */
    method NextInRange(g: Range, capacity: nat) returns (status: Status, records: seq<Record>, sequence: nat)
      requires Valid()
      modifies this
      ensures Valid() && Sys() == old(Sys()) && handle == old(handle)
      ensures !old(open) ==> status == NotOpen
      ensures old(open && failed) ==> status == RecoveryRequired
      ensures old(open && !failed) ==>
                status == Success || status == EndOfBatches || status == BufferTooSmall || status == InvalidArgument
      ensures old(open && !failed) ==> (status == InvalidArgument <==> g.from > g.until)
      ensures status == Success ==>
                && old(k) < k <= |Visible(st)| && sequence == Visible(st)[k - 1].sequence
                && 0 < |records| <= capacity && Filtered(Visible(st)[k - 1].batch, g, records)
                && forall i :: old(k) <= i < k - 1 ==> Filtered(Visible(st)[i].batch, g, [])
      ensures status == EndOfBatches ==>
                forall i :: old(k) <= i < |Visible(st)| ==> Filtered(Visible(st)[i].batch, g, [])
      ensures status == BufferTooSmall ==> MatchTooLarge(Visible(st), g, old(k), capacity)
      ensures status != Success ==> cursor == old(cursor) && k == old(k)
    {
      hide Ready, Reflects, Positioned, Visible, Readable, Filtered;
      records, sequence := [], 0;
      if !open {
        status := NotOpen;
        return;
      }
      if failed {
        status := RecoveryRequired;
        return;
      }
      ReadyFiles(files.disk, m, st, handle);
      var r, c;
      ghost var n;
      r, records, sequence, c, n := NextRange(Volatile(files.disk.db), Volatile(files.disk.wal), handle, cursor, g,
                                              capacity, st, k);
      match r {
        case RangeFound =>
          status, cursor, k := Success, c, n + 1;
        case RangeEnd =>
          status := EndOfBatches;
        case RangeTooSmall =>
          assert NextTooLarge(Visible(st), g, k, n, capacity);
          status := BufferTooSmall;
        case RangeInvalid =>
          status := InvalidArgument;
        case RangeDamaged =>
          status := InvalidDatabase;
      }
    }

    /** `timelite_batches_aggregate_range`: independent of the cursor, which stays. */
    method Summarize(g: Range) returns (status: Status, total: Aggregate)
      requires Valid()
      ensures !open ==> status == NotOpen
      ensures open && failed ==> status == RecoveryRequired
      ensures open && !failed ==> status == if g.from > g.until then InvalidArgument else Success
      ensures status == Success ==> Aggregates(Visible(st), g, total)
    {
      hide Ready, Reflects, Positioned, Visible, Readable, Aggregates;
      total := Aggregate(0, 0, 0);
      if !open {
        return NotOpen, total;
      }
      if failed {
        return RecoveryRequired, total;
      }
      ReadyFiles(files.disk, m, st, handle);
      var r := AggregateRange(Volatile(files.disk.db), Volatile(files.disk.wal), handle, g, st);
      if r == None {
        return InvalidArgument, total;
      }
      status, total := Success, r.value;
    }

    /** `timelite_batches_get_status`. */
    method GetStatus() returns (status: Status, info: StatusInfo)
      requires Valid()
      ensures !open ==> status == NotOpen
      ensures open && failed ==> status == RecoveryRequired
      ensures open && !failed ==> status == Success
      ensures status == Success ==> info == StatusOf(st) == HandleStatus(handle)
      ensures status == Success ==>
                && info.committed == |Visible(st)| == info.installed + info.pending && info.pending == |st.wal|
                && info.segments == |st.segs| && info.walBytes == |WalBytes()|
                && info.installedBytes + 160 == m.end && info.lastTime == handle.lastTime
      ensures status == Success && Visible(st) != [] && st.wal != [] ==>
                var last := Visible(st)[|Visible(st)| - 1].batch;
                last != [] && info.lastTime == NewestTime(last)
    {
      hide Ready, Reflects, Positioned, Visible, Volatile, BodyLength, ChainLength, SegmentEntries, LastTime, LinkTo,
        ValidSegments, ValidStore;
      info := StatusInfo(0, 0, 0, 0, 0, 0, 0);
      if !open {
        return NotOpen, info;
      }
      if failed {
        return RecoveryRequired, info;
      }
      UsableFacts(files.disk, m, st, handle, cursor, k);
      StatusFacts(files.disk, m, st, handle);
      var pending := handle.sequence - handle.installed;
      status := Success;
      info := StatusInfo(handle.live + pending, handle.live, pending, handle.generation, handle.end,
                         handle.dataEnd - DATA_START, handle.lastTime);
    }

    // --- open and close ----------------------------------------------------

    /** `timelite_batches_close`: the handle is reset whether or not a native close
        reports an error. */
    method Close() returns (status: Status)
      requires Valid()
      modifies this
      ensures Valid() && !open
      ensures if old(open) then (status == Success || status == IoError) && Step(old(Sys()), Closed, Sys())
              else status == NotOpen && Sys() == old(Sys())
    {
      if !open {
        return NotOpen;
      }
      var walError: bool, databaseError: bool := *, *;
      open, failed := false, false;
      status := if walError || databaseError then IoError else Success;
    }

    /** Open, once the headers match: it gives the answer below unless an operation fails,
        with the status of its decision. A pair no store can be read from is refused
        untouched; a coherent pair is recovered, and the handle then stands for the store
        that was there. */
    method Restore(ghost found: Manifest, ghost held: Store) returns (status: Status)
      requires Valid() && !open
      requires Openable(DbBytes(), WalBytes(), found, held) && ValidSegments(held.segs)
                && found.time >= 0 ==>
                 TearsDetected(files.disk, RecoveryScript(files.disk, found, held))
      modifies this, files
      ensures status != IoError ==> status == OpenAnswer(old(DbBytes()), old(WalBytes()))
      ensures open <==> status == Success
      ensures status == Success ==>
                var r := Recover(old(DbBytes()), old(WalBytes()));
                r.Some? && HandleStatus(handle) == OpeningStatus(r.value)
      ensures !Acceptable(old(DbBytes()), old(WalBytes())) ==>
                status == InvalidDatabase && Valid() && Step(old(Sys()), OpenFailed, Sys()) && Sys() == old(Sys())
      ensures Openable(old(DbBytes()), old(WalBytes()), found, held) ==>
                Valid() && Reopened(old(Sys()), status, Sys(), held) && (open ==> st == held && Future() == Visible(st))
    {
      hide Ready, Reflects, Positioned, Visible, Execute, StoppedIn, TearsDetected, Openable, FinishOps, Recover,
        Acceptable, ChainLength, LinkTo, BodyLength, Volatile, FinalManifest, ValidStore, ValidSegment, Step;
      ghost var s := Sys();
      var d, w := Volatile(files.disk.db), Volatile(files.disk.wal);
      ghost var start := files.disk;
      ghost var good := Openable(d, w, found, held);
      OpenRefused(s, found, held);
      var o := Examine(d, w);
      if o == None {
        return InvalidDatabase;
      }
      if good {
        OpeningReflects(d, w, found, held);
      }
      var state, end, tail;
      status, state, end, tail := Repair(files, o.value, w, found, held);
      if status != Success {
        if good {
          OpenStopped(s, found, held, files.disk);
        }
        return;
      }
      open, failed := true, false;
      handle := OpenedHandle(o.value, state.revision, end, tail);
      cursor := ResetCursor();
      m, st, k := FinalManifest(found, held.segs), held, 0;
      if good {
        OpenDone(s, found, held, files.disk);
        StartPlace(held);
      }
    }

    /** `timelite_batches_open` on an existing pair: files that are no pair are refused as
        such, untouched. */
    method Open(ghost found: Manifest, ghost held: Store) returns (status: Status)
      requires Valid()
      requires Openable(DbBytes(), WalBytes(), found, held) && ValidSegments(held.segs)
                && found.time >= 0 ==>
                 TearsDetected(files.disk, RecoveryScript(files.disk, found, held))
      modifies this, files
      ensures old(open) ==> status == InvalidArgument && Valid() && Sys() == old(Sys())
      ensures !old(open) ==> (open <==> status == Success)
      ensures !old(open) ==> (status == PairMismatch <==> Mismatched(old(DbBytes()), old(WalBytes())))
      ensures !old(open) && !Matched(old(DbBytes()), old(WalBytes())) ==>
                status in {PairMismatch, UnsupportedVersion, InvalidDatabase} && Valid() && Sys() == old(Sys())
      ensures !old(open) && Matched(old(DbBytes()), old(WalBytes())) && status != IoError ==>
                status == OpenAnswer(old(DbBytes()), old(WalBytes()))
      ensures !old(open) && status == Success ==>
                var r := Recover(old(DbBytes()), old(WalBytes()));
                r.Some? && HandleStatus(handle) == OpeningStatus(r.value)
      ensures !old(open) && Matched(old(DbBytes()), old(WalBytes()))
              && !Acceptable(old(DbBytes()), old(WalBytes())) ==>
                status == InvalidDatabase && Valid() && Step(old(Sys()), OpenFailed, Sys()) && Sys() == old(Sys())
      ensures !old(open) && Matched(old(DbBytes()), old(WalBytes()))
              && Openable(old(DbBytes()), old(WalBytes()), found, held) ==>
                Valid() && Reopened(old(Sys()), status, Sys(), held) && (open ==> st == held && Future() == Visible(st))
    {
      hide Ready, Reflects, Positioned, Visible, TearsDetected, Openable, Recover, Acceptable, Volatile, Matched,
        Mismatched, Step, OpenAnswer, OpeningStatus, HandleStatus, Reopened, RecoveryScript, ValidSegments;
      if open {
        return InvalidArgument;
      }
      var d, w := Volatile(files.disk.db), Volatile(files.disk.wal);
      NotBoth(d, w);
      PairAnswers(d, w);
      status := CheckPair(d, w);
      if status == Success {
        status := Restore(found, held);
      }
    }
  }

  /** An open that goes through, or one that an operation stopped. */
  ghost predicate Reopened(before: System, status: Status, after: System, held: Store)
  {
    || (status == Success && Step(before, Opened, after) && after.mode.Usable? && after.mode.st == held)
    || (status == IoError && Step(before, OpenFailed, after))
  }

  lemma {:induction false} PairAnswers(d: bytes, w: bytes)
    ensures OpenAnswer(d, w) != PairMismatch
  {
    hide Recover, ChainReadable;
  }

  // --- open ----------------------------------------------------------------

  /** What open answers on any pair of images when no operation fails: the decision
      before its first effect, then the verdict of finishing a retention. */
  function OpenAnswer(d: bytes, w: bytes): Status
  {
    match Recover(d, w)
    case None => InvalidDatabase
    case Some(o) => if o.phase == NORMAL then Success else FinishVerdict(d, o.revision, o.phase, o.root, o.end)
  }

  /** Open succeeds, when no operation fails, exactly on an acceptable pair whose
      retention, if one is in progress, can be finished: two revisions are left, and
      from phase 2 the chain to copy back is whole. */
  lemma {:induction false} AnswersExactly(d: bytes, w: bytes)
    ensures OpenAnswer(d, w) == Success <==>
              && Acceptable(d, w)
              && (Select(d).Chosen? && PhaseOf(Select(d).m) != 0 ==>
                    && RevisionOf(Select(d).m) <= 0xffff_ffff_ffff_fffd
                    && (PhaseOf(Select(d).m) == 2 ==>
                          exists infos :: Filled(d, RootOf(Select(d).m), Select(d).m.end, infos)))
    ensures OpenAnswer(d, w) == Overflow <==>
              && Acceptable(d, w) && Select(d).Chosen? && PhaseOf(Select(d).m) != 0
              && RevisionOf(Select(d).m) > 0xffff_ffff_ffff_fffd
    ensures OpenAnswer(d, w) == Success || OpenAnswer(d, w) == Overflow || OpenAnswer(d, w) == InvalidDatabase
  {
    hide Acceptable, ChainReadable, Select, Filled, CheckChain, Pow2;
    OpensExactly(d, w);
    assert TWO64 - 1 - 2 == 0xffff_ffff_ffff_fffd;
    if Recover(d, w).Some? {
      OpeningManifest(d, w);
      if Select(d).Chosen? {
        ChosenBounds(d);
        ReadableExactly(d, RootOf(Select(d).m), Select(d).m.end);
      }
    }
  }

  lemma {:induction false} OpeningManifest(d: bytes, w: bytes)
    requires Recover(d, w).Some?
    ensures var s, o := Select(d), Recover(d, w).value;
            if s.Chosen? then
              o.phase == PhaseOf(s.m) && o.revision == RevisionOf(s.m) && o.root == RootOf(s.m) && o.end == s.m.end
            else o.phase == NORMAL
  {
    hide Select, CheckChain, Pow2, ScanFrames, ReadFirst, Summary;
  }

  lemma {:induction false} ChosenBounds(d: bytes)
    requires Select(d).Chosen?
    ensures RootOf(Select(d).m) <= Select(d).m.end <= |d|
  {
    hide SlotAt;
  }

  /** The status values of a decision of open. */
  function OpeningStatus(o: Opening): StatusInfo
  {
    var pending := (o.sequence - o.installed) % TWO64;
    StatusInfo(o.live + pending, o.live, pending, o.generation, o.walEnd,
               if o.root <= o.end then o.end - o.root else 0, o.lastTime)
  }

  lemma {:induction false} OpenRefused(s: System, m: Manifest, st: Store)
    requires s.mode == Down
    ensures Step(s, OpenFailed, s)
    ensures Openable(Volatile(s.disk.db), Volatile(s.disk.wal), m, st) ==>
              Recover(Volatile(s.disk.db), Volatile(s.disk.wal)).Some? && ValidSegments(st.segs) && m.time >= 0
  {
    hide Recover, Openable, Reflects;
    if Openable(Volatile(s.disk.db), Volatile(s.disk.wal), m, st) {
      OpeningReflects(Volatile(s.disk.db), Volatile(s.disk.wal), m, st);
    }
  }

  lemma {:induction false} OpenStopped(s: System, m: Manifest, st: Store, disk: Disk)
    requires s.mode == Down && Openable(Volatile(s.disk.db), Volatile(s.disk.wal), m, st)
    requires ValidSegments(st.segs) && m.time >= 0 && TearsDetected(s.disk, RecoveryScript(s.disk, m, st))
    requires StoppedIn(s.disk, RecoveryScript(s.disk, m, st), disk)
    ensures Step(s, OpenFailed, System(disk, Down))
  {
    hide TearsDetected, RecoveryScript, StoppedIn, Openable;
    assert OpensTo(s.disk, m, st);
  }

  lemma {:induction false} OpenDone(s: System, m: Manifest, st: Store, disk: Disk)
    requires s.mode == Down && Openable(Volatile(s.disk.db), Volatile(s.disk.wal), m, st)
    requires ValidSegments(st.segs) && m.time >= 0 && TearsDetected(s.disk, RecoveryScript(s.disk, m, st))
    requires disk == Execute(s.disk, RecoveryScript(s.disk, m, st))
    ensures Step(s, Opened, System(disk, Usable(FinalManifest(m, st.segs), st)))
    ensures Ready(disk, FinalManifest(m, st.segs), st)
  {
    hide TearsDetected, RecoveryScript, StoppedIn, Openable, Execute, Ready, FinalManifest;
    assert OpensTo(s.disk, m, st);
    RecoversFrom(s.disk, m, st);
  }

  /** Recovery of a coherent pair ends ready, whatever else a crash could have left. */
  lemma {:induction false} RecoversFrom(disk: Disk, m: Manifest, st: Store)
    requires OpensTo(disk, m, st)
    ensures Ready(Execute(disk, RecoveryScript(disk, m, st)), FinalManifest(m, st.segs), st)
  {
    hide Standing, SafeDuring, TearsDetected, RepairOps, Satisfies, WalFits, BodyLength, Fits, FinalManifest,
      ValidStore, Ready, Execute, OpenOps;
    var w, size := Volatile(disk.wal), 32 + BodyLength(st.wal);
    var a, rest := [SyncDb, SyncWal], RepairOps(m, st.segs, w, size);
    OpenParts(m, st.segs, w, size);
    TearsSplit(disk, a, rest);
    ProvisionedDisk(disk, m, st);
    RepairSafely(Execute(disk, a), m, st, {st});
    ExecuteConcat(disk, a, rest);
  }

  lemma {:induction false} SyncedBoth(disk: Disk)
    ensures Volatile(Execute(disk, [SyncDb, SyncWal]).db) == Volatile(disk.db)
  {
    ExecuteSnoc(disk, [SyncDb], SyncWal);
    ExecuteOne(disk, SyncDb);
    assert [SyncDb] + [SyncWal] == [SyncDb, SyncWal];
  }

  lemma {:induction false} ProvisionedDisk(disk: Disk, m: Manifest, st: Store)
    requires Openable(Volatile(disk.db), Volatile(disk.wal), m, st)
    ensures Execute(disk, [SyncDb, SyncWal]) == Disk(Sync(disk.db), Sync(disk.wal))
    ensures Standing(Disk(Sync(disk.db), Sync(disk.wal)), m, st)
  {
    hide WalFits, Satisfies, ValidStore, Fits;
    CleanSafe(Volatile(disk.db), GoalFor(m, st));
    ExecuteSnoc(disk, [SyncDb], SyncWal);
    ExecuteOne(disk, SyncDb);
    assert [SyncDb] + [SyncWal] == [SyncDb, SyncWal];
  }

  lemma {:induction false} Provisioned(disk: Disk, m: Manifest, st: Store, o: Opening)
    requires Openable(Volatile(disk.db), Volatile(disk.wal), m, st) && PhaseOf(m) != NORMAL
    requires o.revision == RevisionOf(m) && o.phase == PhaseOf(m) && o.root == RootOf(m) && o.end == m.end
    requires o.generation == |st.segs| && o.installed == st.installed && o.installedTime == st.floor
    requires o.tail == LinkTo(RootOf(m), st.segs, |st.segs|)
    ensures InProgress(Execute(disk, [SyncDb, SyncWal]), m, st.segs)
    ensures m == Retain(o.revision, o.generation, o.end, o.installed, o.installedTime, o.tail, o.root, o.phase)
  {
    hide WalFits, ValidStore, Standing, Execute, LinkTo, ValidData, Located, ChainLength, GoodManifest, Outranks,
      ManifestBytes, InProgress;
    ProvisionedDisk(disk, m, st);
    StandingInProgress(Execute(disk, [SyncDb, SyncWal]), m, st);
  }

  lemma {:induction false} FinalRevisionOf(d: bytes, w: bytes, m: Manifest, st: Store)
    requires Openable(d, w, m, st)
    ensures RevisionOf(FinalManifest(m, st.segs)) == st.revision
    ensures PhaseOf(m) == NORMAL ==>
              && RevisionOf(m) == st.revision && RootOf(m) == DATA_START
              && m.end == DATA_START + ChainLength(st.segs)
  {
    hide ChainLength, LinkTo, Located, ValidStore, ManifestBytes, WalFits;
  }

  /** What slot validity says about any opening: an extent in the file, at the
      front unless a tail is to be copied back, and then not overlapping its copy. */
  lemma {:induction false} OpeningBounds(d: bytes, w: bytes)
    requires Recover(d, w).Some?
    ensures var o := Recover(d, w).value;
            && U64(o.revision) && DATA_START <= o.root <= o.end <= DATABASE_CAPACITY
            && (if o.phase == TAIL then o.end - o.root <= o.root - DATA_START else o.root == DATA_START)
            && (o.phase != NORMAL ==> o.end <= |d| && o.installedTime >= 0)
  {
    hide Recover, CheckChain, SlotAt, Pow2;
    RecoverFields(d, w);
    SlotBounds(d, 0);
    SlotBounds(d, 1);
    SelectionBounded(d);
    if Select(d).Chosen? && Select(d).m.Retain? {
      TimedChain(d, SelectedClaim(Select(d)));
    }
  }

  lemma {:induction false} RecoverFields(d: bytes, w: bytes)
    requires Recover(d, w).Some?
    ensures !Select(d).Unusable? && SelectedClaim(Select(d)).generation < Pow2(TABLE_SIZE)
    ensures var o, s, c := Recover(d, w).value, Select(d), SelectedClaim(Select(d));
            && CheckChain(d, c).Some? && o.installedTime == CheckChain(d, c).value.time
            && o.root == c.root && o.end == c.end
            && o.revision == (if s.Chosen? then RevisionOf(s.m) else 0)
            && o.phase == if s.Chosen? then PhaseOf(s.m) else NORMAL
  {
    hide CheckChain, Select, ScanFrames, ReadFirst, Summary, Pow2;
    SelectionBounded(d);
  }

  lemma {:induction false} TimedChain(d: bytes, c: Claim)
    requires c.generation < Pow2(TABLE_SIZE) && CheckChain(d, c).Some? && c.timed && c.enabled
    ensures CheckChain(d, c).value.time == c.time
  {
    hide Walk, Pow2;
  }

  lemma {:induction false} SlotBounds(d: bytes, index: nat)
    ensures var r := SlotAt(d, index);
            r.Some? ==>
              && U64(RevisionOf(r.value)) && DATA_START <= RootOf(r.value) <= r.value.end <= DATABASE_CAPACITY
              && r.value.end <= |d| && r.value.time >= 0
              && (if PhaseOf(r.value) == TAIL then r.value.end - RootOf(r.value) <= RootOf(r.value) - DATA_START
                  else RootOf(r.value) == DATA_START)
  {
    hide Un, Sealed;
    if SlotAt(d, index).Some? {
      Un8Range(SlotBytes(d, index)[8..16]);
    }
  }

  /** The effects of open: provision both files, finish a retention, cut the WAL. */
  method Repair(files: Files, o: Opening, w: bytes, ghost m: Manifest, ghost st: Store)
    returns (status: Status, state: RetentionState, end: nat, tail: nat)
    requires w == Volatile(files.disk.wal) && Recover(Volatile(files.disk.db), w) == Some(o)
    modifies files
    ensures status == Success || status == IoError || status == Overflow || status == InvalidDatabase
    ensures status != IoError ==> status == OpenAnswer(old(Volatile(files.disk.db)), w)
    ensures status == Success ==> o.root <= o.end && end == DATA_START + (o.end - o.root)
    ensures Openable(old(Volatile(files.disk.db)), w, m, st) ==>
              && ValidSegments(st.segs) && m.time >= 0 && (status == Success || status == IoError)
              && (status == Success ==>
                    && files.disk == Execute(old(files.disk), RecoveryScript(old(files.disk), m, st))
                    && state.revision == st.revision
                    && end == DATA_START + ChainLength(st.segs) && tail == LinkTo(DATA_START, st.segs, |st.segs|))
              && (status == IoError ==> StoppedIn(old(files.disk), RecoveryScript(old(files.disk), m, st), files.disk))
  {
    hide Recover, Execute, StoppedIn, Openable, FinishOps, ChainLength, LinkTo, BodyLength, Volatile, FinalManifest,
      ValidSegment, Reflects, InProgress, FinishVerdict;
    ghost var start := files.disk;
    ghost var good := Openable(Volatile(start.db), w, m, st);
    ghost var a: seq<Io>, b: seq<Io>, c: seq<Io> := [SyncDb, SyncWal], [], [];
    OpeningBounds(Volatile(start.db), w);
    state, end, tail := RetentionState(o.revision, o.root, o.phase, o.enabled), o.end, o.tail;
    if good {
      OpeningReflects(Volatile(start.db), w, m, st);
      if PhaseOf(m) != NORMAL {
        b := FinishOps(m, st.segs);
      }
      if 32 + BodyLength(st.wal) < |w| {
        c := [Wal(Truncate(32 + BodyLength(st.wal))), SyncWal];
      }
      assert RecoveryScript(start, m, st) == a + (b + c);
    }
    status := IssueAndSync(files, SyncDb, SyncWal);
    if status != Success {
      if good {
        StoppedEarlier(start, a, b + c, files.disk);
      }
      return;
    }
    ghost var d1 := files.disk;
    ExecuteConcat(start, a, b + c);
    SyncedBoth(start);
    if o.phase != NORMAL {
      if good {
        Provisioned(start, m, st, o);
      }
      status, state, end, tail := FinishRetention(files, state, o.generation, o.end, o.installed, o.installedTime,
                                                  o.tail, good, m, st.segs);
      if status != Success {
        if good {
          StoppedEarlier(d1, b, c, files.disk);
          StoppedLater(start, a, b + c, files.disk);
        }
        return;
      }
    }
    ghost var d2 := files.disk;
    ExecuteConcat(d1, b, c);
    ExecuteNothing(d1);
    ExecuteNothing(d2);
    if o.walEnd < |w| {
      status := IssueAndSync(files, Wal(Truncate(o.walEnd)), SyncWal);
      if status != Success {
        if good {
          StoppedLater(d1, b, c, files.disk);
          StoppedLater(start, a, b + c, files.disk);
        }
        return;
      }
    }
    if good {
      FinalRevisionOf(Volatile(start.db), w, m, st);
    }
  }

  // --- status --------------------------------------------------------------

  datatype StatusInfo = StatusInfo(committed: nat, installed: nat, pending: nat, segments: nat, walBytes: nat,
                                   installedBytes: nat, lastTime: int)

  /** What a handle's fields say, with 64-bit subtraction. */
  function HandleStatus(h: Handle): StatusInfo
  {
    var pending := (h.sequence - h.installed) % TWO64;
    StatusInfo(h.live + pending, h.live, pending, h.generation, h.end,
               if h.dataEnd >= DATA_START then h.dataEnd - DATA_START else 0, h.lastTime)
  }

  /** What the status of a store is: counts of visible batches and bytes in use. */
  ghost function StatusOf(st: Store): StatusInfo
  {
    StatusInfo(|Visible(st)|, |SegmentEntries(st.segs)|, |st.wal|, |st.segs|, 32 + BodyLength(st.wal),
               ChainLength(st.segs), LastTime(st.floor, st.wal))
  }

  lemma {:induction false} LiveEntries(segs: seq<Segment>)
    ensures LiveCount(segs) == |SegmentEntries(segs)|
  {
    if segs != [] {
      LiveEntries(segs[..|segs| - 1]);
    }
  }

  lemma {:induction false} StatusFacts(disk: Disk, m: Manifest, st: Store, h: Handle)
    requires Ready(disk, m, st) && ValidSegments(st.segs) && Reflects(h, st)
    ensures h.live == |SegmentEntries(st.segs)| && |Visible(st)| == |SegmentEntries(st.segs)| + |st.wal|
    ensures h.end == |Volatile(disk.wal)| && h.dataEnd == m.end
    ensures st.wal != [] ==>
              var last := Visible(st)[|Visible(st)| - 1].batch;
              last != [] && h.lastTime == NewestTime(last)
  {
    hide SegmentEntries, DbFits, BodyLength, ChainLength, Volatile;
    LiveEntries(st.segs);
    ReadyStanding(disk, m, st);
    if st.wal != [] {
      BatchNotEmpty(st.wal, |st.wal| - 1);
    }
  }

  /** The time of a batch's last record. */
  ghost function NewestTime(b: Batch): int
    requires b != []
  {
    b[|b| - 1].time
  }

  /** The first batch from k on that has records asked for is the n-th, with more
      of them than fit. */
  ghost predicate NextTooLarge(entries: seq<Entry>, g: Range, k: nat, n: nat, capacity: nat)
  {
    && k <= n < |entries| && (exists m :: Filtered(entries[n].batch, g, m) && |m| > capacity)
    && forall i :: k <= i < n ==> Filtered(entries[i].batch, g, [])
  }

  ghost predicate MatchTooLarge(entries: seq<Entry>, g: Range, k: nat, capacity: nat)
  {
    exists n: nat :: NextTooLarge(entries, g, k, n, capacity)
  }

  /** The first batch whose last record reaches a time. */
  lemma {:induction false} ReachMeans(st: Store, from: int, k: nat)
    requires ValidStore(st) && FirstReaching(Visible(st), from, k)
    ensures k <= |Visible(st)|
    ensures k < |Visible(st)| ==> Visible(st)[k].batch != [] && NewestTime(Visible(st)[k].batch) >= from
    ensures forall i :: 0 <= i < k ==> Visible(st)[i].batch != [] && NewestTime(Visible(st)[i].batch) < from
  {
    hide ValidStore, Visible;
    forall i | 0 <= i < k
      ensures Visible(st)[i].batch != []
    {
      VisibleValid(st, i);
    }
  }

  // --- checkpoint ----------------------------------------------------------

  lemma {:induction false} RevisionBound(st: Store)
    requires ValidStore(st)
    ensures U64(st.revision)
  {
    hide Sequenced, ValidSegment;
    ChainLengthBound(st.segs);
  }

  ghost function SegmentScript(st: Store): seq<Io>
    requires ValidSegment(NewSegment(st))
  {
    SegmentOps(DATA_START + ChainLength(st.segs), NewSegment(st), PreviousLink(DATA_START, st.segs),
               SkipLink(DATA_START, st.segs)) + [SyncDb]
  }

  /** The three parts of a checkpoint's script. */
  lemma {:induction false} CheckpointParts(st: Store)
    requires st.wal != [] && ValidSegment(NewSegment(st)) && LastTime(st.floor, st.wal) >= 0
    ensures InstallManifest(st).time >= 0
    ensures var m := InstallManifest(st);
            CheckpointOps(st) == SegmentScript(st)
              + ([Db(Write(SlotStart(RevisionOf(m) % 2), ManifestBytes(m))), SyncDb] + [Wal(Truncate(32)), SyncWal])
  {
    hide SegmentOps, NewSegment, ChainLength, PreviousLink, SkipLink, ManifestBytes, LastTime, LinkTo, ValidSegment;
  }

  /** What a checkpoint that gets through leaves: a ready pair, a handle and a
      cursor that stand for the same batches. */
  lemma {:induction false} CheckpointSettles(disk: Disk, m: Manifest, st: Store, h: Handle, c: Cursor, k: nat,
                                             prior: int)
    requires Ready(disk, m, st) && ValidStore(st) && ValidSegments(st.segs) && Reflects(h, st) && Positioned(st, c, k)
    requires CheckpointAllowed(st) && PriorOf(st, prior)
    requires ValidSegment(NewSegment(st)) && LastTime(st.floor, st.wal) >= 0 && TearsDetected(disk, CheckpointOps(st))
    ensures var after := Checkpointed(st);
            && ValidSegments(after.segs) && Ready(Execute(disk, CheckpointOps(st)), InstallManifest(st), after)
            && h.end >= 32 && h.sequence >= h.installed && (c.inWal ==> c.position >= 32)
            && Reflects(ReclaimedHandle(InstalledHandle(h, prior)), after)
            && Positioned(after, MoveCursor(c, h.dataEnd, h.dataEnd + 64 + (h.end - 32)), k)
            && Visible(after) == Visible(st)
  {
    hide Ready, ValidStore, Positioned, TearsDetected, CheckpointOps, Execute, InstallManifest, NewSegment,
      InstalledHandle, ReclaimedHandle, MoveCursor, Visible, LastTime, ValidSegment, PriorOf, BodyLength, ChainLength,
      LinkTo, Checkpointed, LiveCount, SpanStart;
    CheckpointSafely(disk, m, st);
    CheckpointedValid(st);
    ValidSegmentsOf(Checkpointed(st));
    CheckpointFacts(st);
    CheckpointReflects(h, st, prior);
    CheckpointKeepsPlace(st, c, k);
  }

  /** The writes of a checkpoint, up to the durable manifest. */
  ghost function InstallOps(st: Store): seq<Io>
    requires ValidSegment(NewSegment(st)) && st.wal != [] && InstallManifest(st).time >= 0
  {
    var m := InstallManifest(st);
    SegmentScript(st) + [Db(Write(SlotStart(RevisionOf(m) % 2), ManifestBytes(m))), SyncDb]
  }

  lemma {:induction false} InstallThenReclaim(st: Store)
    requires st.wal != [] && ValidSegment(NewSegment(st)) && LastTime(st.floor, st.wal) >= 0
    ensures InstallManifest(st).time >= 0 && CheckpointOps(st) == InstallOps(st) + [Wal(Truncate(32)), SyncWal]
  {
    hide SegmentScript, NewSegment, CheckpointOps, ManifestBytes, LastTime, ValidSegment, InstallManifest;
    CheckpointParts(st);
  }

  /** Segment and sync, then the manifest into the slot of the other parity and sync. */
  method InstallSegment(files: Files, h: Handle, skip: nat, ghost m: Manifest, ghost st: Store) returns (status: Status)
    requires Ready(files.disk, m, st) && ValidStore(st) && ValidSegments(st.segs) && Reflects(h, st) && st.wal != []
    requires skip == SkipLink(DATA_START, st.segs)
    modifies files
    ensures ValidSegment(NewSegment(st)) && LastTime(st.floor, st.wal) >= 0 && InstallManifest(st).time >= 0
    ensures status == Success || status == IoError
    ensures status == Success ==> files.disk == Execute(old(files.disk), InstallOps(st))
    ensures status == IoError ==> StoppedIn(old(files.disk), CheckpointOps(st), files.disk)
  {
    hide Ready, Execute, StoppedIn, Reflects, ValidStore, SegmentScript, ManifestBytes, NextManifest, ValidSegment,
      NewSegment, SkipLink, LastTime, CheckpointOps, InstallManifest;
    ghost var before := files.disk;
    WritableStore(st);
    NextManifestIs(h, st);
    InstallThenReclaim(st);
    var next := NextManifest(h);
    var publish := Db(Write(SlotStart((h.revision + 1) % 2), ManifestBytes(next)));
    ghost var a, b, c := SegmentScript(st), [publish, SyncDb], [Wal(Truncate(32)), SyncWal];
    assert CheckpointOps(st) == (a + b) + c == a + (b + c);
    status := WriteNewSegment(files, h, skip, m, st);
    if status != Success {
      StoppedEarlier(before, a, b + c, files.disk);
      return;
    }
    ExecuteConcat(before, a, b);
    status := IssueAndSync(files, publish, SyncDb);
    if status != Success {
      StoppedLater(before, a, b, files.disk);
      StoppedEarlier(before, a + b, c, files.disk);
    }
  }

  /** The last step of a checkpoint: the WAL frames are redundant now. */
  method Reclaim(files: Files, ghost before: Disk, ghost st: Store) returns (status: Status)
    requires st.wal != [] && ValidSegment(NewSegment(st)) && LastTime(st.floor, st.wal) >= 0
    requires InstallManifest(st).time >= 0
    requires files.disk == Execute(before, InstallOps(st))
    modifies files
    ensures status == Success || status == IoError
    ensures status == Success ==> files.disk == Execute(before, CheckpointOps(st))
    ensures status == IoError ==> StoppedIn(before, CheckpointOps(st), files.disk)
  {
    hide Execute, StoppedIn, InstallOps, CheckpointOps, NewSegment, ValidSegment, LastTime, InstallManifest;
    InstallThenReclaim(st);
    ExecuteConcat(before, InstallOps(st), [Wal(Truncate(32)), SyncWal]);
    status := IssueAndSync(files, Wal(Truncate(32)), SyncWal);
    if status != Success {
      StoppedLater(before, InstallOps(st), [Wal(Truncate(32)), SyncWal], files.disk);
    }
  }

  /** The links a new segment needs, found through the index, and the maximum of
      the segment it follows. */
  method FindLinks(files: Files, h: Handle, ghost m: Manifest, ghost st: Store) returns (skip: nat, prior: int)
    requires Ready(files.disk, m, st) && ValidSegments(st.segs) && Reflects(h, st)
    ensures skip == SkipLink(DATA_START, st.segs) && PriorOf(st, prior)
  {
    hide Ready, Reflects, Readable, ReadSegment, LowBit, LookupCost, AllLinked, Indexed, Installed, InfoAt,
      Positioned, ValidStore, ValidSegment, ChainLength, SpanStart, SegmentIndex, Standing, OffsetOf, Volatile,
      SkipLink;
    var d := Volatile(files.disk.db);
    ReadyStanding(files.disk, m, st);
    ReadyReadable(files.disk, m, st, h);
    SeekSetup(d, files.disk.wal.stable, h, st);
    Floors(h, st);
    SkipTarget(st.segs);
    var target := h.generation + 1 - LowBit(h.generation + 1);
    skip := 0;
    if target != 0 {
      LookupIn(d, h.dataEnd, h.generation, h.lastSegment, st.segs, target);
      var at, _ := SegmentAt(d, h.dataEnd, h.generation, h.lastSegment, target, Offsets(st.segs));
      skip := at.value.0;
    }
    prior := h.installedTime;
    if h.retention && h.generation != 0 {
      HeaderAt(d, h.dataEnd, h.generation, h.lastSegment, st.segs, h.generation);
      var segment := ReadSegment(d, h.lastSegment, h.dataEnd);
      prior := segment.value.highest;
    }
  }

  lemma {:induction false} Floors(h: Handle, st: Store)
    requires ValidSegments(st.segs) && Reflects(h, st)
    ensures h.installedTime == st.floor && h.retention == st.retained
    ensures h.lastSegment == LinkTo(DATA_START, st.segs, |st.segs|)
  {
  }

  /** The header of the new segment, from what the handle knows. */
  function NewHeader(h: Handle, skip: nat): (r: bytes)
    requires h.times.lowest >= 0 && h.times.highest >= 0 && h.end >= 32
    ensures |r| == 64
  {
    Seal(LongFields(if h.times.ordered then Span else Unordered, h.installed + 1, h.sequence, h.end - 32,
                    h.times.lowest, h.times.highest, h.lastSegment, skip))
  }

  lemma {:induction false} NewHeaderIs(h: Handle, st: Store, skip: nat)
    requires ValidStore(st) && ValidSegments(st.segs) && Reflects(h, st) && st.wal != []
    ensures ValidSegment(NewSegment(st))
    ensures h.times.lowest >= 0 && h.times.highest >= 0 && h.end >= 32
    ensures NewHeader(h, skip) == HeaderBytes(NewSegment(st), PreviousLink(DATA_START, st.segs), skip)
    ensures HeaderSize(NewSegment(st)) == 64
  {
    hide Seal, LongFields, Times, Sorted, Summary, LowestOf, HighestOf, BodyLength, SpanStart, LiveCount, ChainLength,
      ValidStore, LinkTo, ValidSegments;
    NewSegmentValid(st);
    WalSummary(st);
    SegmentExtremes(st);
  }

  lemma {:induction false} SegmentExtremes(st: Store)
    requires ValidStore(st) && st.wal != [] && ValidSegment(NewSegment(st))
    ensures Times(st.wal) != [] && Lowest(NewSegment(st)) == LowestOf(Times(st.wal))
    ensures Highest(NewSegment(st)) == HighestOf(Times(st.wal))
    ensures U64(LowestOf(Times(st.wal))) && U64(HighestOf(Times(st.wal)))
  {
    hide Sorted;
    TimesOf(st.wal);
  }

  lemma {:induction false} WalHeld(disk: Disk, m: Manifest, st: Store)
    requires Ready(disk, m, st)
    ensures ValidBatches(st.wal) && FramesAt(Volatile(disk.wal), 32, st.installed + 1, st.wal)
    ensures st.wal != [] ==> U64(st.installed + |st.wal|)
  {
    hide FramesAt, ValidBatches, DbFits;
    ReadyStanding(disk, m, st);
  }

  /** The first step of a checkpoint: header, re-validated frames, sync. */
  method WriteNewSegment(files: Files, h: Handle, skip: nat, ghost m: Manifest, ghost st: Store)
    returns (status: Status)
    requires Ready(files.disk, m, st) && ValidStore(st) && ValidSegments(st.segs) && Reflects(h, st) && st.wal != []
    requires skip == SkipLink(DATA_START, st.segs)
    modifies files
    ensures ValidSegment(NewSegment(st))
    ensures status == Success || status == IoError
    ensures status == Success ==> files.disk == Execute(old(files.disk), SegmentScript(st))
    ensures status == IoError ==> StoppedIn(old(files.disk), SegmentScript(st), files.disk)
  {
    hide Ready, Execute, StoppedIn, NewHeader, HeaderBytes, FrameOps, FrameCopyOps, FramesReadable, Reflects,
      ValidStore, Volatile, FramesAt, BodyLength, ChainLength, ValidSegment, LinkTo, SkipLink, PreviousLink;
    ghost var start := files.disk;
    NewHeaderIs(h, st, skip);
    HandleSizes(h, st);
    WalHeld(start, m, st);
    var header := Db(Write(h.dataEnd, NewHeader(h, skip)));
    ghost var s := NewSegment(st);
    ghost var frames := FrameOps(h.dataEnd + 64, s.first, s.batches);
    ghost var ops := SegmentOps(h.dataEnd, s, PreviousLink(DATA_START, st.segs), skip) + [SyncDb];
    assert ops == [header] + (frames + [SyncDb]);
    var error := files.Issue(header);
    if error {
      StoppedEarlier(start, [header], frames + [SyncDb], files.disk);
      return IoError;
    }
    ExecuteOne(start, header);
    ghost var second := files.disk;
    ExecuteConcat(start, [header], frames + [SyncDb]);
    ExecuteSnoc(second, frames, SyncDb);
    var next;
    SequenceBound(st);
    FramesCopied(Volatile(second.wal), 32, st.installed + 1, st.wal, h.dataEnd + 64);
    status, next := CopyFrames(files, true, 32, h.end - 32, h.installed + 1, h.sequence, h.dataEnd + 64);
    if status != Success {
      StoppedEarlier(second, frames, [SyncDb], files.disk);
      StoppedLater(start, [header], frames + [SyncDb], files.disk);
      return;
    }
    error := files.Issue(SyncDb);
    if error {
      StoppedLater(second, frames, [SyncDb], files.disk);
      StoppedLater(start, [header], frames + [SyncDb], files.disk);
      return IoError;
    }
  }

  lemma {:induction false} HandleSizes(h: Handle, st: Store)
    requires ValidSegments(st.segs) && Reflects(h, st)
    ensures h.end == 32 + BodyLength(st.wal) && h.sequence == st.installed + |st.wal| && h.installed == st.installed
    ensures h.dataEnd == DATA_START + ChainLength(st.segs) && h.revision == st.revision && h.generation == |st.segs|
    ensures h.retention == st.retained && h.lastTime == LastTime(st.floor, st.wal)
  {
  }

  /** The manifest of the checkpoint, in the encoding the database uses. */
  function NextManifest(h: Handle): Manifest
    requires h.end >= 32
  {
    var newEnd := h.dataEnd + 64 + (h.end - 32);
    if h.retention then Retain(h.revision + 1, h.generation + 1, newEnd, h.sequence, h.lastTime, h.dataEnd,
                               DATA_START, NORMAL)
    else Install(h.generation + 1, newEnd, h.sequence, h.lastTime, h.dataEnd, true)
  }

  lemma {:induction false} NextManifestIs(h: Handle, st: Store)
    requires ValidStore(st) && ValidSegments(st.segs) && Reflects(h, st) && st.wal != []
    ensures h.end >= 32 && NextManifest(h) == InstallManifest(st) && RevisionOf(InstallManifest(st)) == h.revision + 1
  {
    hide Reflects, ChainLength, BodyLength, NewSegment, LastTime, LinkTo, ValidData, LiveCount;
    HandleSizes(h, st);
    CheckpointFacts(st);
  }

  // --- expire --------------------------------------------------------------

  lemma {:induction false} ReadyFiles(disk: Disk, m: Manifest, st: Store, h: Handle)
    requires Ready(disk, m, st) && ValidSegments(st.segs) && Reflects(h, st)
    ensures Volatile(disk.db) == disk.db.stable && Volatile(disk.wal) == disk.wal.stable
    ensures Readable(Volatile(disk.db), Volatile(disk.wal), h, st)
  {
    hide Readable, Reflects, ValidStore;
    ReadyStanding(disk, m, st);
    ReadyReadable(disk, m, st, h);
  }

  /** With nothing expired every batch of the future survives. */
  lemma {:induction false} AllKept(st: Store, k: nat)
    requires k <= |Visible(st)|
    ensures Surviving(Visible(st)[k..], Visible(st)) == Visible(st)[k..]
  {
    AllSurvive(Visible(st)[k..], Visible(st));
  }

  lemma {:induction false} ExpiredNames(st: Store, cutoff: int, m: Manifest)
    requires ValidSegments(st.segs)
    ensures var after := Expired(st, cutoff);
            && after.segs == Kept(st.segs, cutoff) && after.installed == st.installed && after.floor == st.floor
            && ValidSegments(after.segs)
    ensures m == FinalManifest(TailManifest(st, cutoff), Kept(st.segs, cutoff)) ==> m.Retain?
  {
    hide Kept, ChainLength, LinkTo;
  }

  /** What an expiration that gets through leaves, and what re-validating the
      chain then answers. */
  lemma {:induction false} ExpireSettles(disk: Disk, m: Manifest, st: Store, h: Handle, cutoff: int)
    requires Ready(disk, m, st) && ValidStore(st) && ValidSegments(st.segs) && Reflects(h, st)
    requires ExpireAllowed(st, cutoff)
    requires st.floor >= 0 && TearsDetected(disk, ExpireOps(st, cutoff))
    ensures var kept, after := Kept(st.segs, cutoff), Expired(st, cutoff);
            var m' := FinalManifest(TailManifest(st, cutoff), kept);
            var done := Execute(disk, ExpireOps(st, cutoff));
            var end, tail := DATA_START + ChainLength(kept), LinkTo(DATA_START, kept, |kept|);
            && Ready(done, m', after) && ValidSegments(after.segs) && |kept| < Pow2(TABLE_SIZE)
            && Reflects(ExpiredHandle(h, |kept|, st.revision + 4, LiveCount(kept), end, tail, SpanStart(kept)), after)
            && CheckChain(Volatile(done.db),
                          Claim(|kept|, end, h.installed, h.installedTime, tail, true, true, DATA_START))
               == Some(ChainInfo(tail, h.installedTime, SpanStart(kept), LiveCount(kept)))
  {
    hide Ready, ValidStore, TearsDetected, ExpireOps, Execute, ExpireAllowed, Kept, FinalManifest, TailManifest,
      ChainLength, LinkTo, Pow2, LiveCount, SpanStart, CheckChain, BodyLength, ExpiredHandle, Times, Summary,
      LastTime, ValidSegment, Expired, Volatile, Prepared, GoalFor;
    var kept, after := Kept(st.segs, cutoff), Expired(st, cutoff);
    var m' := FinalManifest(TailManifest(st, cutoff), kept);
    ExpireSafely(disk, m, st, cutoff);
    ExpireReflects(h, st, cutoff);
    ExpiredNames(st, cutoff, m');
    var done := Execute(disk, ExpireOps(st, cutoff));
    ReadyStanding(done, m', after);
    RecheckAccepts(done, m', after, h.installed, h.installedTime, DATA_START + ChainLength(kept),
                   LinkTo(DATA_START, kept, |kept|));
  }

  /** After the NORMAL manifest: the chain is re-validated for the handle's values,
      and the cursor goes to the first batch left at or past the one it expected. */
  method Resettle(files: Files, h: Handle, c: Cursor, cutoff: int, segments: nat, state: RetentionState, end: nat,
                  tail: nat, ghost before: Disk, ghost m: Manifest, ghost st: Store, ghost k: nat)
    returns (after: Handle, moved: Cursor, ghost n: nat)
    requires Ready(before, m, st) && ValidStore(st) && ValidSegments(st.segs) && Reflects(h, st)
    requires Positioned(st, c, k) && ExpireAllowed(st, cutoff) && st.floor >= 0
    requires TearsDetected(before, ExpireOps(st, cutoff)) && files.disk == Execute(before, ExpireOps(st, cutoff))
    requires var kept := Kept(st.segs, cutoff);
             && segments == |kept| && end == DATA_START + ChainLength(kept) && tail == LinkTo(DATA_START, kept, |kept|)
             && state == RetentionState(st.revision + 4, DATA_START, NORMAL, true)
    ensures var left := Expired(st, cutoff);
            && ValidSegments(left.segs) && Reflects(after, left) && Positioned(left, moved, n)
            && Ready(files.disk, FinalManifest(TailManifest(st, cutoff), Kept(st.segs, cutoff)), left)
            && k <= |Visible(st)| && n <= |Visible(left)|
            && Visible(left)[n..] == Surviving(Visible(st)[k..], Visible(left))
  {
    hide Ready, Reflects, Positioned, Execute, Visible, ValidStore, TearsDetected, Expired, Kept, ExpireOps,
      ChainLength, LinkTo, Readable, ExpiredHandle, CheckChain, Pow2, SpanStart, LiveCount, Surviving, FirstFrom,
      FinalManifest, ExpireAllowed, ValidSegments, TailManifest, Volatile;
    ExpireSettles(before, m, st, h, cutoff);
    WantedBound(st, c, k);
    var info := CheckSegments(Volatile(files.disk.db),
                              Claim(segments, end, h.installed, h.installedTime, tail, true, state.enabled,
                                    state.root));
    after := ExpiredHandle(h, segments, state.revision, info.value.live, end, info.value.tail, info.value.spanStart);
    ghost var left := Expired(st, cutoff);
    ReadyFiles(files.disk, FinalManifest(TailManifest(st, cutoff), Kept(st.segs, cutoff)), left, after);
    moved, n := Relocate(Volatile(files.disk.db), Volatile(files.disk.wal), after, c.readSequence, left);
    RelocatedFuture(st, cutoff, c, k, n);
  }

  lemma {:induction false} WantedBound(st: Store, c: Cursor, k: nat)
    requires Positioned(st, c, k)
    ensures U64(c.readSequence)
  {
    var p :| PlaceAt(st, c, p, k);
  }

  /** What a usable handle's values are, for the checks of each call. */
  lemma {:induction false} UsableFacts(disk: Disk, m: Manifest, st: Store, h: Handle, c: Cursor, k: nat)
    requires Ready(disk, m, st) && ValidSegments(st.segs) && Reflects(h, st) && Positioned(st, c, k)
    ensures ValidStore(st) && k <= |Visible(st)|
    ensures h.end == 32 + BodyLength(st.wal) && h.sequence == st.installed + |st.wal| && U64(h.sequence)
    ensures h.lastTime == LastTime(st.floor, st.wal) && h.installed == st.installed && h.installedTime == st.floor
    ensures h.revision == st.revision && h.dataEnd == DATA_START + ChainLength(st.segs) && h.retention == st.retained
    ensures h.generation == |st.segs| && h.lastSegment == LinkTo(DATA_START, st.segs, |st.segs|)
  {
    hide Visible, ValidStore;
    ReadyStanding(disk, m, st);
    ReadyReadable(disk, m, st, h);
    PositionWithin(disk.db.stable, disk.wal.stable, h, st, c, k);
    SequenceBound(st);
  }

  lemma {:induction false} SequenceBound(st: Store)
    requires ValidStore(st)
    ensures U64(st.installed + |st.wal|) && 32 + BodyLength(st.wal) <= WAL_CAPACITY
  {
  }
}
