/** Whole runs: every interleaving of calls, failures, crashes, closes and opens. */
module Runs {
  import opened Bytes
  import opened Frames
  import opened Segments
  import opened Manifests
  import opened Storage
  import opened Recovery
  import opened Stores
  import opened Authority
  import opened Scripts
  import opened CrashSafety
  import opened Calls
  import opened Cursors
  import opened Queries
  import opened Transparency
  import opened Identity

  // --- calls ---------------------------------------------------------------

  datatype Call = Append(b: Batch) | Checkpoint | Expire(cutoff: int)

  /** The call gets past its checks and has an effect. */
  ghost predicate Effective(call: Call, st: Store)
    requires ValidSegments(st.segs)
  {
    match call
    case Append(b) => AppendAllowed(st, b)
    case Checkpoint => CheckpointAllowed(st)
    case Expire(cutoff) => ExpireAllowed(st, cutoff)
  }

  /** The store after an acknowledged, effective call. */
  ghost function After(call: Call, st: Store): Store
    requires ValidSegments(st.segs) && Effective(call, st)
  {
    match call
    case Append(b) => Appended(st, b)
    case Checkpoint => Checkpointed(st)
    case Expire(cutoff) => Expired(st, cutoff)
  }

  /** What an interrupted call may leave. */
  ghost function Outcomes(call: Call, st: Store): set<Store>
    requires ValidSegments(st.segs) && Effective(call, st)
  {
    match call
    case Append(b) => {st, Appended(st, b)}
    case Checkpoint => {st, Checkpointed(st)}
    case Expire(cutoff) => {st, Prepared(st), Expired(st, cutoff)}
  }

  lemma {:induction false} WritableStore(st: Store)
    requires ValidStore(st)
    ensures ValidSegments(st.segs) && st.floor >= 0
    ensures st.wal != [] ==> ValidSegment(NewSegment(st)) && LastTime(st.floor, st.wal) >= 0
  {
    hide ValidSegment, Times, Sorted, BodyLength;
    if st.wal != [] {
      NewSegmentValid(st);
      assert ValidBatch(st.wal[|st.wal| - 1]);
    }
  }

  ghost function ScriptOf(call: Call, st: Store): seq<Io>
    requires ValidStore(st) && ValidSegments(st.segs) && Effective(call, st)
  {
    WritableStore(st);
    match call
    case Append(b) => AppendOps(st, b)
    case Checkpoint => CheckpointOps(st)
    case Expire(cutoff) => ExpireOps(st, cutoff)
  }

  ghost function ManifestAfter(call: Call, m: Manifest, st: Store): Manifest
    requires ValidSegments(st.segs) && Effective(call, st)
  {
    match call
    case Append(_) => m
    case Checkpoint => InstallManifest(st)
    case Expire(cutoff) => FinalManifest(TailManifest(st, cutoff), Kept(st.segs, cutoff))
  }

  /** Each effective call is safe at every point and ends ready. */
  lemma {:induction false} CallSafely(disk: Disk, m: Manifest, st: Store, call: Call)
    requires Ready(disk, m, st) && ValidStore(st) && ValidSegments(st.segs) && Effective(call, st)
    requires TearsDetected(disk, ScriptOf(call, st))
    ensures SafeDuring(disk, ScriptOf(call, st), Outcomes(call, st))
    ensures Ready(Execute(disk, ScriptOf(call, st)), ManifestAfter(call, m, st), After(call, st))
  {
    hide Ready, SafeDuring, TearsDetected, Execute, AppendOps, CheckpointOps, ExpireOps, AppendAllowed, ExpireAllowed,
      ValidStore;
    WritableStore(st);
    match call
    case Append(b) => AppendSafely(disk, m, st, b);
    case Checkpoint => CheckpointSafely(disk, m, st);
    case Expire(cutoff) => ExpireSafely(disk, m, st, cutoff);
  }

  lemma {:induction false} OutcomesValid(st: Store, call: Call, s: Store)
    requires ValidStore(st) && ValidSegments(st.segs) && Effective(call, st) && s in Outcomes(call, st)
    ensures ValidStore(s) && After(call, st) in Outcomes(call, st)
  {
    hide ValidStore, AppendAllowed, CheckpointAllowed;
    match call
    case Append(b) => AppendedValid(st, b);
    case Checkpoint => CheckpointedValid(st);
    case Expire(cutoff) =>
      PreparedValid(st);
      ExpiredValid(st, cutoff);
  }

  // --- the system ----------------------------------------------------------

  /** The process holds no usable handle, or a handle on the store st under
      manifest m, or one poisoned by a failed call. */
  datatype Mode = Down | Usable(m: Manifest, st: Store) | Poisoned

  datatype System = System(disk: Disk, mode: Mode)

  datatype Event =
    | Done(call: Call)
    | Rejected(call: Call)
    | Failed(call: Call)
    | Closed
    | Crashed
    | Opened
    | OpenFailed

  /** What open does with the files as it finds them. */
  ghost predicate OpensTo(disk: Disk, m: Manifest, st: Store)
  {
    && Openable(Volatile(disk.db), Volatile(disk.wal), m, st)
    && ValidSegments(st.segs) && m.time >= 0
    && TearsDetected(disk, RecoveryScript(disk, m, st))
  }

  ghost function RecoveryScript(disk: Disk, m: Manifest, st: Store): seq<Io>
    requires ValidSegments(st.segs) && m.time >= 0
  {
    OpenOps(m, st.segs, Volatile(disk.wal), 32 + BodyLength(st.wal))
  }

  ghost predicate Step(s: System, e: Event, s': System)
  {
    match e
    case Done(call) =>
      && s.mode.Usable? && ValidStore(s.mode.st) && ValidSegments(s.mode.st.segs) && Effective(call, s.mode.st)
      && TearsDetected(s.disk, ScriptOf(call, s.mode.st))
      && s' == System(Execute(s.disk, ScriptOf(call, s.mode.st)),
                      Usable(ManifestAfter(call, s.mode.m, s.mode.st), After(call, s.mode.st)))
    case Rejected(call) =>
      s.mode.Usable? && ValidSegments(s.mode.st.segs) && !Effective(call, s.mode.st) && s' == s
    case Failed(call) =>
      && s.mode.Usable? && ValidStore(s.mode.st) && ValidSegments(s.mode.st.segs) && Effective(call, s.mode.st)
      && TearsDetected(s.disk, ScriptOf(call, s.mode.st))
      && StoppedIn(s.disk, ScriptOf(call, s.mode.st), s'.disk)
      && s'.mode == Poisoned
    case Closed => s'.disk == s.disk && s'.mode == Down
    case Crashed =>
      && s'.disk.db.pending == [] && s'.disk.wal.pending == []
      && Crash(s.disk, s'.disk.db.stable, s'.disk.wal.stable) && s'.mode == Down
    case Opened =>
      && s.mode == Down && s'.mode.Usable?
      && exists m :: OpensTo(s.disk, m, s'.mode.st)
                  && s' == System(Execute(s.disk, RecoveryScript(s.disk, m, s'.mode.st)),
                                  Usable(FinalManifest(m, s'.mode.st.segs), s'.mode.st))
    case OpenFailed =>
      && s.mode == Down && s'.mode == Down
      && (s'.disk == s.disk
          || exists m, st :: OpensTo(s.disk, m, st) && StoppedIn(s.disk, RecoveryScript(s.disk, m, st), s'.disk))
  }

  /** S is what the pair may turn out to hold. */
  ghost predicate Invariant(s: System, S: set<Store>)
  {
    && (forall st :: st in S ==> ValidStore(st))
    && match s.mode
       case Usable(m, st) => S == {st} && Ready(s.disk, m, st)
       case _ => SafeDisk(s.disk, S)
  }

  ghost function Candidates(S: set<Store>, s: System, e: Event, s': System): set<Store>
    requires Step(s, e, s')
  {
    match e
    case Failed(call) => Outcomes(call, s.mode.st)
    case Done(_) => {s'.mode.st}
    case Opened => {s'.mode.st}
    case _ => S
  }

  lemma {:induction false} ReadySafe(disk: Disk, m: Manifest, st: Store)
    requires Ready(disk, m, st)
    ensures SafeDisk(disk, {st}) && ValidStore(st)
  {
    ReadyStanding(disk, m, st);
    StandingSafe(disk, m, st, {st});
  }

  lemma {:induction false} InvariantSafe(s: System, S: set<Store>)
    requires Invariant(s, S)
    ensures SafeDisk(s.disk, S)
  {
    if s.mode.Usable? {
      ReadySafe(s.disk, s.mode.m, s.mode.st);
    }
  }

  lemma {:induction false} CrashKeeps(disk: Disk, S: set<Store>, after: Disk)
    requires SafeDisk(disk, S) && after.db.pending == [] && after.wal.pending == []
    requires Crash(disk, after.db.stable, after.wal.stable)
    ensures SafeDisk(after, S)
  {
    hide Good;
    forall d, w | Crash(after, d, w)
      ensures Good(d, w, S)
    {
      SyncedImage(after.db, d);
      SyncedImage(after.wal, w);
    }
  }

  /** The store open finds is one of the candidates. */
  lemma {:induction false} OpensCandidate(disk: Disk, S: set<Store>, m: Manifest, st: Store)
    requires SafeDisk(disk, S) && Openable(Volatile(disk.db), Volatile(disk.wal), m, st)
    ensures st in S
  {
    hide DbFits, WalFits, WalShort, Reflects, Recover, Refused;
    var d, w := Volatile(disk.db), Volatile(disk.wal);
    VolatileIsImage(disk.db);
    VolatileIsImage(disk.wal);
    assert Crash(disk, d, w);
    OpeningReflects(d, w, m, st);
    var c :| c in S && (Coherent(d, w, c) || Refused(d, w, c));
    RefusedFails(d, w, c);
    var m' :| DbFits(d, m', c);
    PairDetermines(d, w, m, st, m', c);
  }

  lemma {:induction false} RefusedFails(d: bytes, w: bytes, c: Store)
    ensures Refused(d, w, c) ==> Recover(d, w) == None
  {
    hide DbFits, Holds, WalShort, Recover;
    if Refused(d, w, c) {
      var m :| DbFits(d, m, c);
      DbHolds(d, m, c);
      RefusesShortHeader(d, w, GoalFor(m, c).r, c.wal);
    }
  }

  lemma {:induction false} DbHolds(d: bytes, m: Manifest, st: Store)
    requires DbFits(d, m, st)
    ensures Holds(d, GoalFor(m, st).r)
  {
  }

  lemma {:induction false} RecoverySafe(disk: Disk, S: set<Store>, m: Manifest, st: Store)
    requires SafeDisk(disk, S) && OpensTo(disk, m, st)
    ensures st in S && ValidStore(st)
    ensures SafeDuring(disk, RecoveryScript(disk, m, st), S)
    ensures Ready(Execute(disk, RecoveryScript(disk, m, st)), FinalManifest(m, st.segs), st)
  {
    hide SafeDisk, SafeDuring, Ready, TearsDetected, Execute, Satisfies, WalFits;
    OpensCandidate(disk, S, m, st);
    OpenSafely(disk, m, st, S);
  }

  /** Every step keeps the invariant. */
  lemma {:induction false} StepKeeps(s: System, e: Event, s': System, S: set<Store>)
    requires Invariant(s, S) && Step(s, e, s')
    ensures Invariant(s', Candidates(S, s, e, s'))
  {
    hide SafeDisk, SafeDuring, Ready, TearsDetected, Execute, ScriptOf, ValidStore, StoppedIn, Effective, Openable,
      Crash, Volatile, RecoveryScript, ManifestAfter, After, Outcomes, FinalManifest;
    InvariantSafe(s, S);
    match e
    case Done(call) =>
      CallSafely(s.disk, s.mode.m, s.mode.st, call);
      ReadySafe(s'.disk, s'.mode.m, s'.mode.st);
    case Failed(call) =>
      CallSafely(s.disk, s.mode.m, s.mode.st, call);
      StoppedSafe(s.disk, ScriptOf(call, s.mode.st), s'.disk, Outcomes(call, s.mode.st));
      forall c | c in Outcomes(call, s.mode.st)
        ensures ValidStore(c)
      {
        OutcomesValid(s.mode.st, call, c);
      }
    case Crashed => CrashKeeps(s.disk, S, s'.disk);
    case Opened =>
      var m :| OpensTo(s.disk, m, s'.mode.st)
            && s' == System(Execute(s.disk, RecoveryScript(s.disk, m, s'.mode.st)),
                            Usable(FinalManifest(m, s'.mode.st.segs), s'.mode.st));
      RecoverySafe(s.disk, S, m, s'.mode.st);
    case OpenFailed =>
      if s'.disk != s.disk {
        var m, st :| OpensTo(s.disk, m, st) && StoppedIn(s.disk, RecoveryScript(s.disk, m, st), s'.disk);
        RecoverySafe(s.disk, S, m, st);
        StoppedSafe(s.disk, RecoveryScript(s.disk, m, st), s'.disk, S);
      }
    case _ =>
  }

  // --- runs ----------------------------------------------------------------

  ghost predicate Run(states: seq<System>, events: seq<Event>)
  {
    |states| == |events| + 1 && forall i :: 0 <= i < |events| ==> StepAt(states, events, i)
  }

  ghost predicate StepAt(states: seq<System>, events: seq<Event>, i: nat)
    requires |states| == |events| + 1 && i < |events|
  {
    Step(states[i], events[i], states[i + 1])
  }

  /** The candidates after the first n events. */
  ghost function Track(states: seq<System>, events: seq<Event>, S: set<Store>, n: nat): set<Store>
    requires Run(states, events) && n <= |events|
  {
    if n == 0 then S
    else
      assert StepAt(states, events, n - 1);
      Candidates(Track(states, events, S, n - 1), states[n - 1], events[n - 1], states[n])
  }

  /** Main theorem, safety of whole runs: after every event the disk holds one of
      the tracked candidates, whatever crashes and failures came before, and an
      open that succeeds shows one of those tracked before it. */
  lemma {:induction false} RunSafe(states: seq<System>, events: seq<Event>, S: set<Store>, n: nat)
    requires Run(states, events) && n <= |events| && Invariant(states[0], S)
    ensures Invariant(states[n], Track(states, events, S, n))
    ensures n < |events| && events[n] == Opened ==>
              states[n + 1].mode.Usable? && states[n + 1].mode.st in Track(states, events, S, n)
    decreases n
  {
    hide Invariant, Step, Candidates;
    if n > 0 {
      RunSafe(states, events, S, n - 1);
      assert StepAt(states, events, n - 1);
      StepKeeps(states[n - 1], events[n - 1], states[n], Track(states, events, S, n - 1));
    }
    if n < |events| && events[n] == Opened {
      assert StepAt(states, events, n);
      OpenedTracked(states[n], states[n + 1], Track(states, events, S, n));
    }
  }

  lemma {:induction false} OpenedTracked(s: System, s': System, S: set<Store>)
    requires Invariant(s, S) && Step(s, Opened, s')
    ensures s'.mode.Usable? && s'.mode.st in S
  {
    hide Ready, SafeDisk, TearsDetected, RecoveryScript, FinalManifest, ValidStore, Openable, Execute;
    InvariantSafe(s, S);
    var m :| OpensTo(s.disk, m, s'.mode.st);
    RecoverySafe(s.disk, S, m, s'.mode.st);
  }

  /** Recovery never gets stuck: with the handle down, open finds a candidate;
      it refuses only 1..31 bytes of a frame header at the end of the WAL. */
  lemma {:induction false} NeverStuck(s: System, S: set<Store>)
    requires Invariant(s, S) && !s.mode.Usable?
    ensures var d, w := Volatile(s.disk.db), Volatile(s.disk.wal);
            || (Recover(d, w).Some? && exists st, m :: st in S && Openable(d, w, m, st))
            || (Recover(d, w) == None && exists st :: st in S && WalShort(w, st.installed, st.wal))
  {
    hide DbFits, WalFits, WalShort, Reflects, Recover;
    var d, w := Volatile(s.disk.db), Volatile(s.disk.wal);
    VolatileIsImage(s.disk.db);
    VolatileIsImage(s.disk.wal);
    assert Crash(s.disk, d, w);
    var c :| c in S && (Coherent(d, w, c) || Refused(d, w, c));
    var m :| DbFits(d, m, c);
    if Coherent(d, w, c) {
      assert Openable(d, w, m, c);
      OpeningReflects(d, w, m, c);
    } else {
      DbHolds(d, m, c);
      RefusesShortHeader(d, w, GoalFor(m, c).r, c.wal);
    }
  }

  /** A usable handle reads exactly the batches of its store, and they are durable. */
  lemma {:induction false} UsableReads(s: System, S: set<Store>, h: Handle)
    requires Invariant(s, S) && s.mode.Usable? && ValidSegments(s.mode.st.segs) && Reflects(h, s.mode.st)
    ensures s.disk.db.pending == [] && s.disk.wal.pending == []
    ensures Drains(s.disk.db.stable, s.disk.wal.stable, h, ResetCursor(), Visible(s.mode.st))
    ensures Rising(Visible(s.mode.st))
  {
    hide Reflects, Drains, Visible;
    ReadyReadable(s.disk, s.mode.m, s.mode.st, h);
    RewoundReadsAll(s.disk.db.stable, s.disk.wal.stable, h, s.mode.st);
    VisibleRising(s.mode.st);
  }

  // --- what the candidates contain -----------------------------------------

  ghost predicate Appends(e: Event, b: Batch)
  {
    (e.Done? || e.Failed?) && e.call == Append(b)
  }

  ghost predicate InAll(S: set<Store>, e: Entry)
  {
    forall st :: st in S ==> e in Visible(st)
  }

  lemma {:induction false} SurvivorsSubset(a: seq<Entry>, kept: seq<Entry>, e: Entry)
    ensures e in Surviving(a, kept) ==> e in a
  {
    if a != [] {
      SurvivorsSubset(a[..|a| - 1], kept, e);
    }
  }

  /** Where each shown batch comes from: source[i] is -1 for a batch of the store
      `first`, or the number of the append event that brought it. Later batches have
      later sources, so no event is used twice and old batches come first. */
  ghost predicate Sourced(entries: seq<Entry>, source: seq<int>, first: Store, events: seq<Event>, n: nat)
    requires n <= |events|
  {
    && |source| == |entries|
    && (forall i :: 0 <= i < |entries| ==> SourceOk(entries[i], source[i], first, events, n))
    && forall i, j :: 0 <= i < j < |entries| && source[i] >= 0 ==> source[i] < source[j]
  }

  ghost predicate SourceOk(e: Entry, from: int, first: Store, events: seq<Event>, n: nat)
    requires n <= |events|
  {
    if from == -1 then e in Visible(first) else 0 <= from < n && Appends(events[from], e.batch)
  }

  lemma {:induction false} SourcedLater(entries: seq<Entry>, source: seq<int>, first: Store, events: seq<Event>, n: nat)
    requires n < |events| && Sourced(entries, source, first, events, n)
    ensures Sourced(entries, source, first, events, n + 1)
  {
    hide Visible, Appends;
    forall i | 0 <= i < |entries|
      ensures SourceOk(entries[i], source[i], first, events, n + 1)
    {
      assert SourceOk(entries[i], source[i], first, events, n);
    }
  }

  lemma {:induction false} SourcedAppend(entries: seq<Entry>, source: seq<int>, first: Store, events: seq<Event>,
                                         n: nat, e: Entry)
    requires n < |events| && Sourced(entries, source, first, events, n) && Appends(events[n], e.batch)
    ensures Sourced(entries + [e], source + [n], first, events, n + 1)
  {
    hide Visible, Appends;
    var all, from := entries + [e], source + [n];
    forall i | 0 <= i < |all|
      ensures SourceOk(all[i], from[i], first, events, n + 1) && from[i] <= n
    {
      if i < |entries| {
        assert SourceOk(entries[i], source[i], first, events, n);
      }
    }
    forall i | 0 <= i < |entries|
      ensures from[i] < n
    {
      assert SourceOk(entries[i], source[i], first, events, n);
    }
  }

  lemma {:induction false} SourcedPrefix(entries: seq<Entry>, source: seq<int>, first: Store, events: seq<Event>,
                                         n: nat)
    requires n <= |events| && entries != [] && Sourced(entries, source, first, events, n)
    ensures Sourced(entries[..|entries| - 1], source[..|entries| - 1], first, events, n)
  {
    hide SourceOk;
  }

  /** A sub-list keeps the sources of its members. */
  lemma {:induction false} SourcedSurvivors(entries: seq<Entry>, source: seq<int>, first: Store, events: seq<Event>,
                                            n: nat, kept: seq<Entry>)
    returns (left: seq<int>)
    requires n <= |events| && Sourced(entries, source, first, events, n)
    ensures Sourced(Surviving(entries, kept), left, first, events, n)
    ensures forall x :: x in left ==> x in source
    decreases |entries|
  {
    hide SourceOk;
    if entries == [] {
      left := [];
    } else {
      var last := |entries| - 1;
      SourcedPrefix(entries, source, first, events, n);
      left := SourcedSurvivors(entries[..last], source[..last], first, events, n, kept);
      if entries[last] in kept {
        var all := left + [source[last]];
        assert entries == entries[..last] + [entries[last]] && source == source[..last] + [source[last]];
        AppendSource(Surviving(entries[..last], kept), left, entries[..last], source[..last], entries[last],
                     source[last], first, events, n);
        left := all;
      }
    }
  }

  lemma {:induction false} AppendSource(a: seq<Entry>, left: seq<int>, b: seq<Entry>, source: seq<int>, e: Entry,
                                        from: int, first: Store,
                                        events: seq<Event>, n: nat)
    requires n <= |events| && Sourced(a, left, first, events, n) && Sourced(b + [e], source + [from], first, events, n)
    requires |b| == |source| && forall x :: x in left ==> x in source
    ensures Sourced(a + [e], left + [from], first, events, n)
  {
    hide SourceOk;
    var whole := source + [from];
    assert SourceOk((b + [e])[|b|], whole[|b|], first, events, n);
    forall i | 0 <= i < |left|
      ensures left[i] >= 0 ==> left[i] < from
    {
      assert left[i] in left;
      var j :| 0 <= j < |source| && source[j] == left[i];
      assert whole[j] == left[i] && whole[|b|] == from;
    }
  }

  /** No invention: the batches a candidate shows are old ones of one store of the
      start and, behind them, batches passed to append events of the run, each event
      used at most once and in order, contents unchanged. */
  lemma {:induction false} NoInvention(states: seq<System>, events: seq<Event>, S: set<Store>, n: nat, st: Store)
    returns (first: Store, source: seq<int>)
    requires Run(states, events) && n <= |events| && Invariant(states[0], S)
    requires st in Track(states, events, S, n)
    ensures first in S && Sourced(Visible(st), source, first, events, n)
    decreases n
  {
    hide Visible, Invariant, Candidates, Step, SourceOk;
    if n == 0 {
      first, source := st, seq(|Visible(st)|, i => -1);
      OwnSources(st, events);
    } else {
      assert StepAt(states, events, n - 1);
      var prior := Track(states, events, S, n - 1);
      RunSafe(states, events, S, n - 1);
      var c := Predecessor(states[n - 1], events[n - 1], states[n], prior, st);
      first, source := NoInvention(states, events, S, n - 1, c);
      source := SourcesAfter(events, n, first, c, st, source);
    }
  }

  lemma {:induction false} OwnSources(st: Store, events: seq<Event>)
    ensures Sourced(Visible(st), seq(|Visible(st)|, i => -1), st, events, 0)
  {
    hide Visible;
  }

  /** How a candidate came about from one before the event. */
  ghost predicate Follows(e: Event, c: Store, st: Store)
  {
    || Visible(st) == Visible(c)
    || Visible(st) == Surviving(Visible(c), Visible(st))
    || exists entry :: Visible(st) == Visible(c) + [entry] && Appends(e, entry.batch)
  }

  lemma {:induction false} SourcesAfter(events: seq<Event>, n: nat, first: Store, c: Store, st: Store,
                                        source: seq<int>)
    returns (after: seq<int>)
    requires 0 < n <= |events| && Sourced(Visible(c), source, first, events, n - 1) && Follows(events[n - 1], c, st)
    ensures Sourced(Visible(st), after, first, events, n)
  {
    hide Visible, SourceOk, Sourced, Surviving;
    if Visible(st) == Visible(c) {
      SourcedLater(Visible(c), source, first, events, n - 1);
      after := source;
    } else if Visible(st) == Surviving(Visible(c), Visible(st)) {
      after := SourcedSurvivors(Visible(c), source, first, events, n - 1, Visible(st));
      SourcedLater(Visible(st), after, first, events, n - 1);
    } else {
      var entry :| Visible(st) == Visible(c) + [entry] && Appends(events[n - 1], entry.batch);
      SourcedAppend(Visible(c), source, first, events, n - 1, entry);
      after := source + [n - 1];
    }
  }

  lemma {:induction false} Predecessor(s: System, e: Event, s': System, S: set<Store>, st: Store) returns (c: Store)
    requires Invariant(s, S) && Step(s, e, s') && st in Candidates(S, s, e, s')
    ensures c in S && Follows(e, c, st)
  {
    hide Visible, Ready, SafeDisk, TearsDetected, StoppedIn, Crash, Effective, ScriptOf, OpensTo, RecoveryScript,
      ManifestAfter, After, Outcomes, FinalManifest, ValidStore, Follows, Appends;
    c := st;
    match e
    case Done(call) =>
      c := s.mode.st;
      AfterIsOutcome(c, call);
      OutcomeFollows(c, call, st, e);
    case Failed(call) =>
      c := s.mode.st;
      OutcomeFollows(c, call, st, e);
    case Opened =>
      OpenedTracked(s, s', S);
      SameFollows(e, st);
    case _ => SameFollows(e, st);
  }

  lemma {:induction false} SameFollows(e: Event, st: Store)
    ensures Follows(e, st, st)
  {
  }

  lemma {:induction false} OutcomeFollows(st: Store, call: Call, c: Store, e: Event)
    requires ValidStore(st) && ValidSegments(st.segs) && Effective(call, st) && c in Outcomes(call, st)
    requires (e.Done? || e.Failed?) && e.call == call
    ensures Follows(e, st, c)
  {
    hide Visible, ValidStore, AppendAllowed, CheckpointAllowed, NewSegment, Kept, LastTime, Surviving;
    match call
    case Append(b) =>
      AppendedValid(st, b);
      assert Appends(e, Entry(st.installed + |st.wal| + 1, b).batch);
    case Checkpoint => CheckpointedValid(st);
    case Expire(cutoff) =>
      PreparedValid(st);
      SurvivingVisible(st, cutoff);
  }

  lemma {:induction false} AfterIsOutcome(st: Store, call: Call)
    requires ValidSegments(st.segs) && Effective(call, st)
    ensures After(call, st) in Outcomes(call, st)
  {
  }

  /** An event that cannot remove the batch: not an expiration past all its records. */
  ghost predicate Spares(e: Event, b: Batch)
  {
    (e.Done? || e.Failed?) && e.call.Expire? ==> exists x :: 0 <= x < |b| && b[x].time >= e.call.cutoff
  }

  lemma {:induction false} KeptEntry(st: Store, cutoff: int, e: Entry)
    requires ValidStore(st) && ValidSegments(st.segs) && e in Visible(st)
    requires exists x :: 0 <= x < |e.batch| && e.batch[x].time >= cutoff
    ensures e in Visible(Expired(st, cutoff))
  {
    hide SegmentEntries, Kept, ValidSegment, ValidStore;
    if e in SegmentEntries(st.segs) {
      var i, j := MemberOf(st.segs, e);
      assert ValidSegment(st.segs[i]);
      WithinSegment(st.segs[i], j);
      KeptWhole(st, cutoff, i);
      assert Entries(st.segs[i].first, st.segs[i].batches)[j] == e;
    }
  }

  lemma {:induction false} OutcomeKeeps(st: Store, call: Call, c: Store, e: Entry)
    requires ValidStore(st) && ValidSegments(st.segs) && Effective(call, st) && c in Outcomes(call, st)
    requires e in Visible(st)
    requires Spares(Done(call), e.batch)
    ensures e in Visible(c)
  {
    hide Visible, ValidStore, AppendAllowed, CheckpointAllowed, Appended, Checkpointed, Prepared, Expired;
    match call
    case Append(b) => AppendedValid(st, b);
    case Checkpoint => CheckpointedValid(st);
    case Expire(cutoff) =>
      PreparedValid(st);
      KeptEntry(st, cutoff, e);
  }

  lemma {:induction false} StepSpares(s: System, e: Event, s': System, S: set<Store>, entry: Entry)
    requires Invariant(s, S) && Step(s, e, s') && InAll(S, entry) && Spares(e, entry.batch)
    ensures InAll(Candidates(S, s, e, s'), entry)
  {
    hide Visible, Ready, SafeDisk, TearsDetected, StoppedIn, Crash, Effective, ScriptOf, OpensTo, RecoveryScript,
      ManifestAfter, After, Outcomes, FinalManifest, ValidStore;
    forall st | st in Candidates(S, s, e, s')
      ensures entry in Visible(st)
    {
      match e
      case Done(call) =>
        AfterIsOutcome(s.mode.st, call);
        OutcomeKeeps(s.mode.st, call, st, entry);
      case Failed(call) =>
        OutcomeKeeps(s.mode.st, call, st, entry);
      case Opened =>
        InvariantSafe(s, S);
        var m :| OpensTo(s.disk, m, s'.mode.st);
        RecoverySafe(s.disk, S, m, st);
      case _ =>
    }
  }

  /** No loss: a batch all candidates show, such as an acknowledged append, stays
      in every candidate until an expiration past all its records. */
  lemma {:induction false} NoLoss(states: seq<System>, events: seq<Event>, S: set<Store>, i: nat, n: nat, e: Entry)
    requires Run(states, events) && i <= n <= |events| && Invariant(states[0], S)
    requires InAll(Track(states, events, S, i), e)
    requires forall k :: i <= k < n ==> Spares(events[k], e.batch)
    ensures InAll(Track(states, events, S, n), e)
    decreases n
  {
    hide InAll, Invariant, Step, Spares, Candidates;
    if i < n {
      NoLoss(states, events, S, i, n - 1, e);
      RunSafe(states, events, S, n - 1);
      assert StepAt(states, events, n - 1);
      StepSpares(states[n - 1], events[n - 1], states[n], Track(states, events, S, n - 1), e);
    }
  }

  /** An acknowledged append is shown by all candidates from then on. */
  lemma {:induction false} AckedAppend(states: seq<System>, events: seq<Event>, S: set<Store>, i: nat, b: Batch)
    requires Run(states, events) && i < |events| && Invariant(states[0], S) && events[i] == Done(Append(b))
    ensures states[i].mode.Usable?
    ensures InAll(Track(states, events, S, i + 1), Entry(states[i].mode.st.installed + |states[i].mode.st.wal| + 1, b))
  {
    hide Visible, Ready, SafeDisk, TearsDetected, ScriptOf, AppendAllowed;
    assert StepAt(states, events, i);
    AppendedValid(states[i].mode.st, b);
  }

  // --- what is gone stays gone ---------------------------------------------

  /** No candidate shows e, and all have passed its sequence number. */
  ghost predicate Gone(S: set<Store>, e: Entry)
  {
    forall st :: st in S ==> GoneFrom(st, e)
  }

  ghost predicate GoneFrom(st: Store, e: Entry)
  {
    e !in Visible(st) && e.sequence <= st.installed + |st.wal|
  }

  lemma {:induction false} OutcomeGone(st: Store, call: Call, c: Store, e: Entry)
    requires ValidStore(st) && ValidSegments(st.segs) && Effective(call, st) && c in Outcomes(call, st)
    requires GoneFrom(st, e)
    ensures GoneFrom(c, e)
  {
    hide Visible, ValidStore, AppendAllowed, CheckpointAllowed, NewSegment, Kept, LastTime;
    match call
    case Append(b) => AppendedValid(st, b);
    case Checkpoint => CheckpointedValid(st);
    case Expire(cutoff) =>
      PreparedValid(st);
      SurvivingVisible(st, cutoff);
      SurvivorsSubset(Visible(st), Visible(Expired(st, cutoff)), e);
  }

  lemma {:induction false} StepGone(s: System, e: Event, s': System, S: set<Store>, entry: Entry)
    requires Invariant(s, S) && Step(s, e, s') && Gone(S, entry)
    ensures Gone(Candidates(S, s, e, s'), entry)
  {
    hide GoneFrom, Ready, SafeDisk, TearsDetected, StoppedIn, Crash, Effective, ScriptOf, OpensTo, RecoveryScript,
      ManifestAfter, After, Outcomes, FinalManifest, ValidStore;
    forall st | st in Candidates(S, s, e, s')
      ensures GoneFrom(st, entry)
    {
      match e
      case Done(call) =>
        AfterIsOutcome(s.mode.st, call);
        OutcomeGone(s.mode.st, call, st, entry);
      case Failed(call) =>
        OutcomeGone(s.mode.st, call, st, entry);
      case Opened =>
        InvariantSafe(s, S);
        var m :| OpensTo(s.disk, m, s'.mode.st);
        RecoverySafe(s.disk, S, m, st);
      case _ =>
    }
  }

  /** No resurrection: a batch that an expiration removed never comes back, and
      its sequence number is never used again. */
  lemma {:induction false} NoResurrection(states: seq<System>, events: seq<Event>, S: set<Store>, i: nat, n: nat,
                                          e: Entry)
    requires Run(states, events) && i <= n <= |events| && Invariant(states[0], S)
    requires Gone(Track(states, events, S, i), e)
    ensures Gone(Track(states, events, S, n), e)
    decreases n
  {
    hide Gone, Invariant, Step, Candidates;
    if i < n {
      NoResurrection(states, events, S, i, n - 1, e);
      RunSafe(states, events, S, n - 1);
      assert StepAt(states, events, n - 1);
      StepGone(states[n - 1], events[n - 1], states[n], Track(states, events, S, n - 1), e);
    }
  }

  // --- an interrupted retention --------------------------------------------

  ghost predicate Idle(e: Event)
  {
    e == Closed || e == Crashed || e == OpenFailed
  }

  lemma {:induction false} IdleKeeps(states: seq<System>, events: seq<Event>, S: set<Store>, i: nat, n: nat)
    requires Run(states, events) && i <= n <= |events| && Invariant(states[0], S)
    requires forall j :: i <= j < n ==> Idle(events[j])
    ensures Track(states, events, S, n) == Track(states, events, S, i)
    decreases n
  {
    hide Invariant, Step;
    if i < n {
      IdleKeeps(states, events, S, i, n - 1);
      assert StepAt(states, events, n - 1);
    }
  }

  /** Convergence and budget: an expiration fails, then any number of crashes and
      failed recoveries follow. The open that succeeds ends in NORMAL with the old
      batches or exactly the retained ones, at most four revisions further on. */
  lemma {:induction false} RetentionConverges(states: seq<System>, events: seq<Event>, S: set<Store>, i: nat, n: nat,
                                              cutoff: int)
    requires Run(states, events) && i < n < |events| && Invariant(states[0], S)
    requires events[i] == Failed(Expire(cutoff)) && events[n] == Opened
    requires forall j :: i < j < n ==> Idle(events[j])
    ensures states[i].mode.Usable? && states[n + 1].mode.Usable? && PhaseOf(states[n + 1].mode.m) == NORMAL
    ensures ValidSegments(states[i].mode.st.segs)
    ensures var before, after := states[i].mode.st, states[n + 1].mode.st;
            && (Visible(after) == Visible(before) || Visible(after) == Visible(Expired(before, cutoff)))
            && before.revision <= after.revision <= before.revision + 4 < TWO64
  {
    hide Ready, SafeDisk, TearsDetected, StoppedIn, Crash, ScriptOf, Openable, RecoveryScript, Visible, Kept,
      ChainLength, ValidStore, Execute;
    assert StepAt(states, events, i) && StepAt(states, events, n);
    RunSafe(states, events, S, i);
    RunSafe(states, events, S, n);
    IdleKeeps(states, events, S, i + 1, n);
    var before, after := states[i].mode.st, states[n + 1].mode.st;
    InvariantSafe(states[n], Track(states, events, S, n));
    var m :| OpensTo(states[n].disk, m, after)
          && states[n + 1] == System(Execute(states[n].disk, RecoveryScript(states[n].disk, m, after)),
                                     Usable(FinalManifest(m, after.segs), after));
    RecoverySafe(states[n].disk, Track(states, events, S, n), m, after);
    PreparedValid(before);
  }

  // --- a starting point ----------------------------------------------------

  /** The two files `create_header` writes. */
  function CreatedDatabase(identity: bytes): bytes
    requires |identity| == 16
  {
    PairHeader(DATABASE_MAGIC, identity) + ManifestBytes(Install(0, DATA_START, 0, 0, 0, false)) + Zeros(64)
  }

  function CreatedWal(identity: bytes): bytes
    requires |identity| == 16
  {
    PairHeader(WAL_MAGIC, identity)
  }

  /** A created pair is ready and empty, and its headers are accepted as a pair. */
  lemma {:induction false} CreatedPairReady(identity: bytes)
    requires |identity| == 16
    ensures var d, w := CreatedDatabase(identity), CreatedWal(identity);
            var s := System(Disk(File(d, []), File(w, [])),
                            Usable(Install(0, DATA_START, 0, 0, 0, false), Store([], 0, 0, false, [], 0)));
            && Invariant(s, {s.mode.st})
            && |d| == DATA_START && |w| == 32
            && PairHeaderValid(d[..32], DATABASE_MAGIC) && PairHeaderValid(w, WAL_MAGIC) && d[12..28] == w[12..28]
  {
    hide PairHeader, PairHeaderValid, ManifestBytes, Invariant;
    var d, w, h := CreatedDatabase(identity), CreatedWal(identity), PairHeader(DATABASE_MAGIC, identity);
    PairHeaderAccepted(DATABASE_MAGIC, identity);
    PairHeaderAccepted(WAL_MAGIC, identity);
    assert d[..32] == h;
    assert d[12..28] == h[12..28];
    EmptyPairReady(h, w);
  }

  lemma {:induction false} EmptyPairReady(header: bytes, walHeader: bytes)
    requires |header| == 32 && |walHeader| == 32
    ensures var m := Install(0, DATA_START, 0, 0, 0, false);
            var s := System(Disk(File(header + ManifestBytes(m) + Zeros(64), []), File(walHeader, [])),
                            Usable(m, Store([], 0, 0, false, [], 0)));
            Invariant(s, {s.mode.st})
  {
    hide ManifestBytes;
    var m := Install(0, DATA_START, 0, 0, 0, false);
    var d := header + ManifestBytes(m) + Zeros(64);
    EmptySlots(header);
    ZeroFields();
    EmptyChain();
    NoBody();
    NoBodyBytes(1);
    NoChainBytes(DATA_START);
  }

  lemma {:induction false} EmptySlots(header: bytes)
    requires |header| == 32
    ensures var m := Install(0, DATA_START, 0, 0, 0, false);
            var d := header + ManifestBytes(m) + Zeros(64);
            |d| == DATA_START && SlotBytes(d, 0) == ManifestBytes(m) && SlotBytes(d, 1)[8..16] == Zeros(8)
  {
    hide ManifestBytes;
    var m := Install(0, DATA_START, 0, 0, 0, false);
    var d := header + ManifestBytes(m) + Zeros(64);
    assert SlotBytes(d, 1) == Zeros(64);
  }
}
