/** A pair of files stands for at most one store: reopening is the identity. */
module Identity {
  import opened Bytes
  import opened Frames
  import opened Segments
  import opened ChainCheck
  import opened Manifests
  import opened Recovery
  import opened Stores
  import opened Authority
  import opened CrashSafety
  import opened Calls
  import opened Cursors

  // --- frames and segments determine their contents ------------------------

  lemma {:induction false} BatchesDetermined(d: bytes, base: nat, first: nat, a: seq<Batch>, b: seq<Batch>, n: nat)
    requires ValidBatches(a) && ValidBatches(b) && |a| == |b| && U64(first + |a| - 1)
    requires FramesAt(d, base, first, a) && FramesAt(d, base, first, b) && n <= |a|
    ensures a[..n] == b[..n]
  {
    hide ReadFrame, Frame, Records, FramesAt, BodyLength, ValidBatch;
    if n > 0 {
      BatchesDetermined(d, base, first, a, b, n - 1);
      var end := Max(base + BodyLength(a), base + BodyLength(b));
      ReadFrameAt(d, base, first, a, n - 1, end);
      ReadFrameAt(d, base, first, b, n - 1, end);
      assert a[..n] == a[..n - 1] + [a[n - 1]] && b[..n] == b[..n - 1] + [b[n - 1]];
    }
  }

  lemma {:induction false} SegmentsDetermined(d: bytes, root: nat, a: seq<Segment>, b: seq<Segment>, n: nat)
    requires ValidSegments(a) && ValidSegments(b) && |a| == |b| && n <= |a|
    requires Located(d, root, a) && Located(d, root, b) && ChainLength(a) == ChainLength(b)
    requires root >= DATA_START && U64(root + ChainLength(a))
    ensures a[..n] == b[..n]
  {
    hide Located, ChainLength, ValidSegment;
    if n > 0 {
      SegmentsDetermined(d, root, a, b, n - 1);
      SegmentDetermined(d, root, a, b, n - 1);
      assert a[..n] == a[..n - 1] + [a[n - 1]] && b[..n] == b[..n - 1] + [b[n - 1]];
    }
  }

  lemma {:induction false} SegmentDetermined(d: bytes, root: nat, a: seq<Segment>, b: seq<Segment>, i: nat)
    requires ValidSegments(a) && ValidSegments(b) && i < |a| && i < |b| && a[..i] == b[..i]
    requires Located(d, root, a) && Located(d, root, b) && ChainLength(a) == ChainLength(b)
    requires root >= DATA_START && U64(root + ChainLength(a))
    ensures a[i] == b[i]
  {
    hide Located, ChainLength, ReadSegment, InfoOf, FramesAt, LowBit, LinkTo, ValidSegment, SegmentBytes, SegmentSize,
      PreviousLink, SkipLink, ValidBatches;
    assert ValidSegment(a[i]) && ValidSegment(b[i]);
    ReadChain(d, root, a, i);
    ReadChain(d, root, b, i);
    InfoDetermines(a[i], LinkTo(root, a, i), LinkTo(root, a, i + 1 - LowBit(i + 1)),
                   b[i], LinkTo(root, b, i), LinkTo(root, b, i + 1 - LowBit(i + 1)));
    LocatedSegment(d, root, a, i);
    LocatedSegment(d, root, b, i);
    BodyDetermined(d, OffsetOf(root, a, i) + HeaderSize(a[i]), a[i], b[i]);
  }

  lemma {:induction false} InfoDetermines(s: Segment, p: nat, k: nat, t: Segment, p': nat, k': nat)
    requires ValidSegment(s) && ValidSegment(t) && InfoOf(s, p, k) == InfoOf(t, p', k')
    ensures s.kind == t.kind && s.first == t.first && |s.batches| == |t.batches|
  {
  }

  lemma {:induction false} BodyDetermined(d: bytes, base: nat, s: Segment, t: Segment)
    requires ValidSegment(s) && ValidSegment(t) && s.kind == t.kind && s.first == t.first && |s.batches| == |t.batches|
    requires FramesAt(d, base, s.first, s.batches) && FramesAt(d, base, t.first, t.batches)
    ensures s == t
  {
    hide FramesAt, BodyLength, Times, Sorted;
    BatchesDetermined(d, base, s.first, s.batches, t.batches, |s.batches|);
    assert s.batches[..|s.batches|] == s.batches && t.batches[..|t.batches|] == t.batches;
  }

  // --- the whole store -----------------------------------------------------

  lemma {:induction false} FitsFacts(d: bytes, m: Manifest, st: Store)
    requires DbFits(d, m, st)
    ensures ValidSegments(st.segs) && Located(d, RootOf(m), st.segs) && CountOf(m) == |st.segs|
    ensures m.last == st.installed
    ensures m.end == RootOf(m) + ChainLength(st.segs) && RootOf(m) >= DATA_START && U64(m.end)
    ensures Holds(d, GoalFor(m, st).r) && Fits(m, st)
    ensures (m.Retain? || m.timed) ==> m.time == st.floor
    ensures !m.Retain? ==> st.floor == if st.segs == [] then 0 else LastTimeOf(Final(st.segs))
  {
    hide Located, ChainLength, SlotBytes, ManifestBytes, Outranks, GoodManifest, Sequenced, ValidSegment;
    RootBounds(GoalFor(m, st).r);
  }

  lemma {:induction false} DataDetermined(d: bytes, m: Manifest, st: Store, m': Manifest, st': Store)
    requires DbFits(d, m, st) && DbFits(d, m', st')
    ensures m == m' && st.segs == st'.segs && st.installed == st'.installed && st.floor == st'.floor
    ensures st.retained == st'.retained && st.revision == st'.revision
  {
    hide Located, ChainLength, Holds, ValidSegment, DbFits, Final, Select, CountOf, DestinationOf;
    FitsFacts(d, m, st);
    FitsFacts(d, m', st');
    SelectsRoot(d, GoalFor(m, st).r);
    SelectsRoot(d, GoalFor(m', st').r);
    SegmentsDetermined(d, RootOf(m), st.segs, st'.segs, |st.segs|);
    assert st.segs[..|st.segs|] == st.segs && st'.segs[..|st'.segs|] == st'.segs;
  }

  lemma {:induction false} WalDetermined(w: bytes, st: Store, st': Store)
    requires ValidStore(st) && ValidStore(st') && st.installed == st'.installed && WalFits(w, st) && WalFits(w, st')
    ensures st.wal == st'.wal
  {
    hide ValidData, ReadFirst, ScanFrames, CutTail, BodyLength, ValidBatch, FramesAt, ValidBatches;
    if WalContinues(w, st.installed, st.wal) && WalContinues(w, st'.installed, st'.wal) {
      ScanContinues(w, st.installed, st.wal);
      ScanContinues(w, st.installed, st'.wal);
      if st.wal != [] {
        BatchesDetermined(w, 32, st.installed + 1, st.wal, st'.wal, |st.wal|);
      }
      assert st.wal[..|st.wal|] == st.wal && st'.wal[..|st'.wal|] == st'.wal;
    } else if WalContinues(w, st.installed, st.wal) {
      RepeatsExclude(w, st.installed, st.wal);
    } else if WalContinues(w, st'.installed, st'.wal) {
      RepeatsExclude(w, st'.installed, st'.wal);
    }
  }

  /** A WAL cannot both continue the installed data and repeat it. */
  lemma {:induction false} RepeatsExclude(w: bytes, installed: nat, batches: seq<Batch>)
    requires WalContinues(w, installed, batches)
    ensures !exists first, repeated :: WalRepeats(w, installed, first, repeated)
  {
    hide ReadFirst;
    FirstOfContinuing(w, installed, batches);
    forall first, repeated | WalRepeats(w, installed, first, repeated)
      ensures false
    {
      FirstOfFrames(w, first, repeated, installed);
    }
  }

  /** Reopen is the identity: the bytes of a pair determine the store, the
      manifest and with them every value of the handle. */
  lemma {:induction false} PairDetermines(d: bytes, w: bytes, m: Manifest, st: Store, m': Manifest, st': Store)
    requires Openable(d, w, m, st) && Openable(d, w, m', st')
    ensures m == m' && st == st'
  {
    hide WalFits, Satisfies;
    DataDetermined(d, m, st, m', st');
    WalDetermined(w, st, st');
  }

  // --- what open computes --------------------------------------------------

  /** The handle open fills in from its decision, after finishing a retention. */
  function OpenedHandle(o: Opening, revision: nat, end: nat, tail: nat): Handle
  {
    Handle(o.walEnd, o.sequence, end, o.installed, o.generation, revision, o.live, o.enabled,
           o.lastTime, o.installedTime, o.times, tail, o.spanStart, o.legacy)
  }

  lemma {:induction false} SizeAccounted(size: nat, m: Manifest, wal: seq<Batch>)
    requires SizeOk(size, m, BodyLength(wal))
    ensures Accounted(size, m, wal != [])
  {
  }

  /** Open accepts every coherent pair, and what it derives is the store: the
      values of the handle are those the operations maintain incrementally. */
  lemma {:induction false} OpeningReflects(d: bytes, w: bytes, m: Manifest, st: Store)
    requires Openable(d, w, m, st)
    ensures ValidSegments(st.segs) && m.time >= 0
    ensures var r := Recover(d, w);
            && r.Some?
            && r.value.phase == PhaseOf(m) && r.value.revision == RevisionOf(m) && r.value.enabled == m.Retain?
            && r.value.root == RootOf(m) && r.value.end == m.end
            && r.value.tail == LinkTo(RootOf(m), st.segs, |st.segs|) && r.value.generation == |st.segs|
            && r.value.installed == st.installed && r.value.installedTime == st.floor && !r.value.legacy
            && r.value.walEnd == 32 + BodyLength(st.wal)
            && Reflects(OpenedHandle(r.value, st.revision, DATA_START + ChainLength(st.segs),
                                     LinkTo(DATA_START, st.segs, |st.segs|)), st)
  {
    hide Holds, SizeOk, WalContinues, WalRepeats, ValidData, Times, Summary, Recover, SpanStart, LiveCount, Located,
      LastTime, BodyLength;
    var r := GoalFor(m, st).r;
    DescribedBy(d, r);
    RootTime(d, m, st);
    SizeAccounted(|d|, m, st.wal);
    if WalContinues(w, st.installed, st.wal) {
      RecoversContinuing(d, w, r, st.wal);
    } else {
      var first, batches :| WalRepeats(w, st.installed, first, batches);
      RecoversRepeating(d, w, r, first, batches);
    }
    NoBody();
    EmptyOrdered();
  }

  lemma {:induction false} EmptyOrdered()
    ensures Summary(Times([])).ordered
  {
  }

  lemma {:induction false} RootTime(d: bytes, m: Manifest, st: Store)
    requires DbFits(d, m, st)
    ensures m.time >= 0 && ValidSegments(st.segs)
  {
  }
}
