/** The retention steps: publishing a phase and finishing from whichever phase is found. */
module Retention {
  import opened Bytes
  import opened Segments
  import opened ChainCheck
  import opened Manifests
  import opened Storage
  import opened Recovery
  import opened Stores
  import opened Authority
  import opened Scripts
  import opened CrashSafety
  import opened Device
  import opened Relocation

  /** An operation and the sync that makes it durable. */
  method IssueAndSync(files: Files, io: Io, sync: Io) returns (status: Status)
    modifies files
    ensures status == Success || status == IoError
    ensures status == Success ==> files.disk == Execute(old(files.disk), [io, sync])
    ensures status == IoError ==> StoppedIn(old(files.disk), [io, sync], files.disk)
  {
    hide StoppedIn, Execute;
    ghost var start := files.disk;
    var error := files.Issue(io);
    assert [io] + [sync] == [io, sync];
    if error {
      StoppedEarlier(start, [io], [sync], files.disk);
      return IoError;
    }
    ExecuteOne(start, io);
    error := files.Issue(sync);
    if error {
      StoppedLater(start, [io], [sync], files.disk);
      return IoError;
    }
    ExecuteSnoc(start, [io], sync);
    status := Success;
  }

  /** `struct retention_state`. */
  datatype RetentionState = RetentionState(revision: nat, root: nat, phase: nat, enabled: bool)

  /** `publish_retention`: the next revision goes into the slot of the other parity. */
  method PublishRetention(files: Files, state: RetentionState, count: nat, end: nat, last: nat, time: nat, tail: nat,
                          root: nat, phase: nat)
    returns (status: Status, after: RetentionState)
    requires U64(state.revision)
    modifies files
    ensures status == Success || status == IoError || status == Overflow
    ensures status == Overflow <==> state.revision == TWO64 - 1
    ensures status == Overflow ==> files.disk == old(files.disk)
    ensures var m := Retain(state.revision + 1, count, end, last, time, tail, root, phase);
            && (status == Success ==> files.disk == Execute(old(files.disk), PublishOps(m)))
            && (status == IoError ==> StoppedIn(old(files.disk), PublishOps(m), files.disk))
    ensures after == if status == Success then RetentionState(state.revision + 1, root, phase, true) else state
  {
    hide ManifestBytes, Execute, StoppedIn;
    after := state;
    if state.revision == TWO64 - 1 {
      status := Overflow;
      return;
    }
    var m := Retain(state.revision + 1, count, end, last, time, tail, root, phase);
    status := IssueAndSync(files, Db(SlotWrite(m)), SyncDb);
    if status == Success {
      after := RetentionState(state.revision + 1, root, phase, true);
    }
  }

  /** m is a retention in progress over segs, as published on the disk. */
  ghost predicate InProgress(disk: Disk, m: Manifest, segs: seq<Segment>)
  {
    && m.Retain? && PREPARE <= m.phase <= CLEANUP && m.time >= 0 && WithinBudget(m)
    && m.count == |segs|
    && ValidSegments(segs) && Located(Volatile(disk.db), m.root, segs)
    && DATA_START <= m.root && m.end == m.root + ChainLength(segs) <= DATABASE_CAPACITY
    && m.tail == LinkTo(m.root, segs, |segs|)
    && if m.phase == TAIL then ChainLength(segs) <= m.root - DATA_START else m.root == DATA_START
  }

  lemma {:induction false} StandingInProgress(disk: Disk, m: Manifest, st: Store)
    requires Standing(disk, m, st) && PhaseOf(m) != NORMAL
    ensures InProgress(disk, m, st.segs)
  {
    hide ChainBytes, ChainLength, ManifestBytes, Sequenced, ValidSegment;
    StandingVolatile(disk, m, st);
    RootBounds(GoalFor(m, st).r);
  }

  /** The last two steps: truncate behind the front copy, publish NORMAL. */
  method CleanUp(files: Files, state: RetentionState, count: nat, end: nat, last: nat, time: nat, tail: nat,
                 ghost good: bool, ghost m: Manifest, ghost segs: seq<Segment>)
    returns (status: Status, after: RetentionState)
    requires U64(state.revision)
    requires good ==> && m.time >= 0 && state.revision == RevisionOf(m) < TWO64 - 1
                      && m.last == last && m.time == time && count == |segs|
                      && end == m.end == DATA_START + ChainLength(segs) && tail == LinkTo(DATA_START, segs, |segs|)
    modifies files
    ensures status == Success || status == IoError || status == Overflow
    ensures status == Overflow ==> state.revision == TWO64 - 1
    ensures good ==> status != Overflow && m.time >= 0
    ensures good && status == Success ==> && files.disk == Execute(old(files.disk), CleanOps(m, segs))
                                          && after == RetentionState(RevisionOf(m) + 1, DATA_START, NORMAL, true)
    ensures good && status == IoError ==> StoppedIn(old(files.disk), CleanOps(m, segs), files.disk)
  {
    hide Execute, StoppedIn, PublishOps, ChainLength, LinkTo;
    after := state;
    ghost var start := files.disk;
    var truncate := Db(Truncate(if end == DATA_START then MARKER_SIZE else end));
    ghost var publish := if good then PublishOps(NextRetain(m, segs, DATA_START, NORMAL)) else [];
    status := IssueAndSync(files, truncate, SyncDb);
    if status != Success {
      if good {
        StoppedEarlier(start, [truncate, SyncDb], publish, files.disk);
      }
      return;
    }
    status, after := PublishRetention(files, state, count, end, last, time, tail, DATA_START, NORMAL);
    if good {
      ExecuteConcat(start, [truncate, SyncDb], publish);
      if status == IoError {
        StoppedLater(start, [truncate, SyncDb], publish, files.disk);
      }
    }
  }

  /** What finishing a retention answers when no operation fails. */
  function FinishVerdict(d: bytes, revision: nat, phase: nat, root: nat, end: nat): Status
  {
    if revision > TWO64 - 1 - 2 then Overflow
    else if phase == TAIL && !ChainReadable(d, root, end) then InvalidDatabase
    else Success
  }

  /** `finish_retention`: from PREPARE or CLEANUP truncate and publish NORMAL; from
      TAIL first copy the tail back to the front and publish CLEANUP. On any image of
      a valid slot it answers the verdict, unless an operation fails. */
  method FinishRetention(files: Files, state: RetentionState, count: nat, end: nat, last: nat, time: nat, tail: nat,
                         ghost good: bool, ghost m: Manifest, ghost segs: seq<Segment>)
    returns (status: Status, after: RetentionState, newEnd: nat, newTail: nat)
    requires U64(state.revision) && DATA_START <= state.root <= end <= DATABASE_CAPACITY
    requires end <= |Volatile(files.disk.db)|
    requires if state.phase == TAIL then end - state.root <= state.root - DATA_START else state.root == DATA_START
    requires good ==> && InProgress(files.disk, m, segs)
                      && m == Retain(state.revision, count, end, last, time, tail, state.root, state.phase)
    modifies files
    ensures status == Success || status == IoError || status == Overflow || status == InvalidDatabase
    ensures state.revision > TWO64 - 1 - 2 ==> status == Overflow && files.disk == old(files.disk)
    ensures status != IoError ==>
              status == FinishVerdict(old(Volatile(files.disk.db)), state.revision, state.phase, state.root, end)
    ensures status == Success ==> newEnd == DATA_START + (end - state.root)
    ensures good ==> status != Overflow && status != InvalidDatabase && m.time >= 0 && ValidSegments(segs)
    ensures good && status == Success ==>
              && files.disk == Execute(old(files.disk), FinishOps(m, segs))
              && after == RetentionState(RevisionOf(FinalManifest(m, segs)), DATA_START, NORMAL, true)
              && newEnd == DATA_START + ChainLength(segs) && newTail == LinkTo(DATA_START, segs, |segs|)
    ensures good && status == IoError ==> StoppedIn(old(files.disk), FinishOps(m, segs), files.disk)
  {
    hide Execute, StoppedIn, PublishOps, CleanOps, CopyOps, Located, ChainLength, LinkTo, ValidSegment, ChainReadable,
      Volatile;
    after, newEnd, newTail := state, end, tail;
    if state.revision > TWO64 - 1 - 2 {
      status := Overflow;
      return;
    }
    ghost var start := files.disk;
    ghost var done: seq<Io> := [];
    ghost var c := m;
    ExecuteNothing(start);
    if state.phase == TAIL {
      ghost var copy, publish: seq<Io> := [], [];
      if good {
        c := NextRetain(m, segs, DATA_START, CLEANUP);
        copy, publish := CopyOps(DATA_START, segs) + [SyncDb], PublishOps(c);
        done := copy + publish;
        assert FinishOps(m, segs) == done + CleanOps(c, segs);
        assert FinishOps(m, segs) == copy + (publish + CleanOps(c, segs));
      }
      status, newEnd, newTail := CopySegments(files, state.root, end, DATA_START, false, 0, good, segs);
      if status != Success {
        if good {
          StoppedEarlier(start, copy, publish + CleanOps(c, segs), files.disk);
        }
        return;
      }
      status, after := PublishRetention(files, state, count, newEnd, last, time, newTail, DATA_START, CLEANUP);
      if good {
        ExecuteConcat(start, copy, publish);
      }
      if status != Success {
        if good {
          StoppedLater(start, copy, publish, files.disk);
          StoppedEarlier(start, done, CleanOps(c, segs), files.disk);
        }
        return;
      }
    }
    status, after := CleanUp(files, after, count, newEnd, last, time, newTail, good, c, segs);
    if good {
      assert FinishOps(m, segs) == done + CleanOps(c, segs);
      ExecuteConcat(start, done, CleanOps(c, segs));
      if status == IoError {
        StoppedLater(start, done, CleanOps(c, segs), files.disk);
      }
    }
  }
}
