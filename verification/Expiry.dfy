/** The parts of an expiration: the pre-scan, the stages of its script, and the
    relocation of the read cursor. */
module Expiry {
  import opened Bytes
  import opened Checksum
  import opened Segments
  import opened SkipLinks
  import opened ChainCheck
  import opened Manifests
  import opened Storage
  import opened Recovery
  import opened Stores
  import opened Scripts
  import opened CrashSafety
  import opened Calls
  import opened Cursors
  import opened Queries
  import opened Ranges
  import opened Transparency
  import opened Device
  import opened Relocation
  import opened Retention
  import opened Maintenance

  // --- pre-scan ------------------------------------------------------------

  /** What the first n segments leave: bytes, segments and batches. */
  ghost predicate Counted(segs: seq<Segment>, cutoff: int, n: nat, size: nat, segments: nat, live: nat)
    requires ValidSegments(segs)
  {
    n <= |segs| && ValidSegments(segs[..n]) &&
    var kept := Kept(segs[..n], cutoff);
    size == ChainLength(kept) && segments == |kept| && live == LiveCount(kept)
  }

  lemma {:induction false} CountedNext(segs: seq<Segment>, cutoff: int, n: nat, size: nat, segments: nat, live: nat)
    requires ValidSegments(segs) && Counted(segs, cutoff, n, size, segments, live) && n < |segs|
    requires ValidSegment(segs[n])
    ensures if Expires(segs[n], cutoff) then Counted(segs, cutoff, n + 1, size, segments, live)
            else Counted(segs, cutoff, n + 1, size + SegmentSize(segs[n]), segments + 1, live + |segs[n].batches|)
  {
    hide ChainLength, LiveCount, Expires, SegmentSize, ValidSegment, Kept;
    SelectedNext(segs, true, cutoff, n);
    var front := Kept(segs[..n], cutoff);
    assert front + [] == front;
    if !Expires(segs[n], cutoff) {
      ChainSnoc(DATA_START, front, segs[n]);
      LiveSnoc(front, segs[n]);
    }
  }

  /** The pre-scan of `timelite_batches_expire_before`: how much will be retained. */
  method Prescan(d: bytes, w: bytes, h: Handle, cutoff: int, ghost st: Store)
    returns (size: nat, segments: nat, live: nat)
    requires Readable(d, w, h, st) && U64(cutoff)
    ensures ValidSegments(st.segs)
    ensures var kept := Kept(st.segs, cutoff);
            size == ChainLength(kept) && segments == |kept| && live == LiveCount(kept)
  {
    hide Readable, ReadSegment, SegmentBytes, FramesAt, LowBit, LinkTo, ChainLength, BodyLength, OffsetOf, Lowest,
      Highest, ValidBatches, Times, Sorted, Expires, Source, Counted;
    var offset: nat := DATA_START;
    size, segments, live := 0, 0, 0;
    ghost var n := 0;
    PrescanBegins(d, w, h, cutoff, st);
    ghost var disk := Disk(File(d, []), File(w, []));
    while offset < h.dataEnd
      invariant n <= |st.segs| && offset == OffsetOf(DATA_START, st.segs, n)
      invariant Counted(st.segs, cutoff, n, size, segments, live)
      decreases |st.segs| - n
    {
      SourceSegment(disk, DATA_START, h.dataEnd, h.dataEnd, st.segs, n);
      ghost var p, k := LinkTo(DATA_START, st.segs, n), LinkTo(DATA_START, st.segs, n + 1 - LowBit(n + 1));
      InfoLinks(st.segs[n], p, k);
      CountedNext(st.segs, cutoff, n, size, segments, live);
      var i := ReadSegment(d, offset, h.dataEnd).value;
      var expires := SegmentExpires(d, offset, i, cutoff, true, st.segs[n]);
      if !expires.value {
        size := size + i.headerSize + i.body;
        segments := segments + 1;
        live := live + (i.last - i.first + 1);
      }
      offset := offset + i.headerSize + i.body;
      n := n + 1;
    }
    PrescanEnds(h.dataEnd, cutoff, st.segs, n, size, segments, live);
  }

  lemma {:induction false} PrescanBegins(d: bytes, w: bytes, h: Handle, cutoff: int, st: Store)
    requires Readable(d, w, h, st)
    ensures ValidSegments(st.segs) && Counted(st.segs, cutoff, 0, 0, 0, 0)
    ensures OffsetOf(DATA_START, st.segs, 0) == DATA_START && OffsetOf(DATA_START, st.segs, |st.segs|) == h.dataEnd
    ensures h.dataEnd == DATA_START + ChainLength(st.segs) <= DATABASE_CAPACITY
    ensures var disk := Disk(File(d, []), File(w, []));
            Source(disk, DATA_START, h.dataEnd, h.dataEnd, st.segs) && Volatile(disk.db) == d
  {
    hide Located, WalExact, Sequenced;
    assert st.segs[..0] == [] && st.segs[..|st.segs|] == st.segs;
  }

  lemma {:induction false} PrescanEnds(end: nat, cutoff: int, segs: seq<Segment>, n: nat, size: nat, segments: nat,
                                       live: nat)
    requires ValidSegments(segs) && Counted(segs, cutoff, n, size, segments, live)
    requires end == DATA_START + ChainLength(segs) && OffsetOf(DATA_START, segs, n) >= end
    ensures var kept := Kept(segs, cutoff);
            size == ChainLength(kept) && segments == |kept| && live == LiveCount(kept)
  {
    hide Kept, LiveCount, ValidSegment;
    assert segs[..|segs|] == segs;
    if n < |segs| {
      OffsetIncreases(DATA_START, segs, n, |segs|);
    }
  }

  // --- stages --------------------------------------------------------------

  /** Between its publications an expiration finds what it needs: the source of
      the copy under PREPARE, the tail copy under TAIL. */
  lemma {:induction false} ExpireStages(disk: Disk, m: Manifest, st: Store, cutoff: int)
    requires Ready(disk, m, st) && ValidStore(st) && ValidSegments(st.segs) && ExpireAllowed(st, cutoff)
    requires st.floor >= 0
    requires TearsDetected(disk, ExpireOps(st, cutoff))
    ensures var end, kept := DATA_START + ChainLength(st.segs), Kept(st.segs, cutoff);
            var d1 := Execute(disk, PublishOps(PrepareManifest(st)));
            var d3 := Execute(Execute(d1, CopyOps(end, kept) + [SyncDb]), PublishOps(TailManifest(st, cutoff)));
            && Source(d1, DATA_START, end, end, st.segs)
            && InProgress(d3, TailManifest(st, cutoff), kept)
  {
    hide Standing, SafeDuring, Execute, TearsDetected, CopyOps, PublishOps, FinishOps, Located, ChainLength, Kept,
      Source, InProgress, Ready, ValidStore;
    var S := {st, Prepared(st), Expired(st, cutoff)};
    var p, t, kept := PrepareManifest(st), TailManifest(st, cutoff), Kept(st.segs, cutoff);
    var o1, o2, o3, o4 := PublishOps(p), CopyOps(DATA_START + ChainLength(st.segs),
                                     kept) + [SyncDb], PublishOps(t), FinishOps(t, kept);
    assert ExpireOps(st, cutoff) == o1 + (o2 + (o3 + o4));
    TearsSplit(disk, o1, o2 + (o3 + o4));
    PreparePiece(disk, m, st, S);
    var d1 := Execute(disk, o1);
    PreparedSource(d1, st);
    TearsSplit(d1, o2, o3 + o4);
    TailPiece(d1, st, cutoff, S);
    var d2 := Execute(d1, o2);
    TearsSplit(d2, o3, o4);
    SwitchPiece(d2, st, cutoff, S);
    StandingInProgress(Execute(d2, o3), t, Expired(st, cutoff));
  }

  lemma {:induction false} PreparedSource(disk: Disk, st: Store)
    requires Standing(disk, PrepareManifest(st), Prepared(st))
    ensures var end := DATA_START + ChainLength(st.segs); Source(disk, DATA_START, end, end, st.segs)
  {
    hide ChainLength, Located, ManifestBytes, ValidSegment, Standing, ValidData, GoodManifest, Outranks, Volatile,
      ValidBatches, WithinBudget, LinkTo;
    StandingVolatile(disk, PrepareManifest(st), Prepared(st));
    StandingWal(disk, PrepareManifest(st), Prepared(st));
  }

  lemma {:induction false} ExpireParts(st: Store, cutoff: int)
    requires ValidSegments(st.segs) && st.floor >= 0
    ensures var end, kept := DATA_START + ChainLength(st.segs), Kept(st.segs, cutoff);
            ExpireOps(st, cutoff)
            == PublishOps(PrepareManifest(st))
               + ((CopyOps(end, kept) + [SyncDb])
                  + (PublishOps(TailManifest(st, cutoff)) + FinishOps(TailManifest(st, cutoff), kept)))
  {
    hide CopyOps, PublishOps, FinishOps, Kept, ChainLength;
  }

  lemma {:induction false} FinalRevision(st: Store, cutoff: int)
    requires ValidSegments(st.segs)
    ensures RevisionOf(FinalManifest(TailManifest(st, cutoff), Kept(st.segs, cutoff))) == st.revision + 4
  {
    hide Kept, ChainLength, LinkTo;
  }

  /** The file operations of an expiration, up to the NORMAL manifest. */
  method Replace(files: Files, h: Handle, cutoff: int, segments: nat, ghost m: Manifest, ghost st: Store)
    returns (status: Status, state: RetentionState, end: nat, tail: nat)
    requires Ready(files.disk, m, st) && ValidStore(st) && ValidSegments(st.segs) && Reflects(h, st)
    requires U64(cutoff) && ExpireAllowed(st, cutoff) && segments == |Kept(st.segs, cutoff)| && st.floor >= 0
    requires TearsDetected(files.disk, ExpireOps(st, cutoff))
    modifies files
    ensures status == Success || status == IoError
    ensures status == Success ==>
              var kept := Kept(st.segs, cutoff);
              && files.disk == Execute(old(files.disk), ExpireOps(st, cutoff))
              && state == RetentionState(st.revision + 4, DATA_START, NORMAL, true)
              && end == DATA_START + ChainLength(kept) && tail == LinkTo(DATA_START, kept, |kept|)
    ensures status == IoError ==> StoppedIn(old(files.disk), ExpireOps(st, cutoff), files.disk)
  {
    hide Ready, Execute, StoppedIn, ValidStore, TearsDetected, Kept, ExpireOps, ChainLength, CopyOps, PublishOps,
      FinishOps, LinkTo, Source, InProgress, SpanStart, LiveCount, BodyLength, FinalManifest, Times, Summary,
      ValidSegment;
    ghost var before := files.disk;
    ExpireStages(before, m, st, cutoff);
    ExpireParts(st, cutoff);
    FinalRevision(st, cutoff);
    Capacity(st);
    ghost var kept := Kept(st.segs, cutoff);
    ghost var p, t := PrepareManifest(st), TailManifest(st, cutoff);
    ghost var o1, o2, o3, o4 := PublishOps(p), CopyOps(h.dataEnd, kept) + [SyncDb], PublishOps(t), FinishOps(t, kept);
    state, end, tail := RetentionState(h.revision, DATA_START, NORMAL, h.retention), 0, 0;
    status, state := PublishRetention(files, state, h.generation, h.dataEnd, h.installed, h.installedTime,
                                      h.lastSegment, DATA_START, PREPARE);
    if status != Success {
      StoppedEarlier(before, o1, o2 + (o3 + o4), files.disk);
      return;
    }
    ExecuteConcat(before, o1, o2 + (o3 + o4));
    ghost var d1 := files.disk;
    SourceBounds(d1, DATA_START, h.dataEnd, h.dataEnd, st.segs);
    status, end, tail := CopySegments(files, DATA_START, h.dataEnd, h.dataEnd, true, cutoff, true, st.segs);
    if status != Success {
      StoppedEarlier(d1, o2, o3 + o4, files.disk);
      StoppedLater(before, o1, o2 + (o3 + o4), files.disk);
      return;
    }
    ExecuteConcat(d1, o2, o3 + o4);
    ghost var d2 := files.disk;
    status, state := PublishRetention(files, state, segments, end, h.installed, h.installedTime, tail, h.dataEnd, TAIL);
    if status != Success {
      StoppedEarlier(d2, o3, o4, files.disk);
      StoppedLater(d1, o2, o3 + o4, files.disk);
      StoppedLater(before, o1, o2 + (o3 + o4), files.disk);
      return;
    }
    ExecuteConcat(d2, o3, o4);
    ghost var d3 := files.disk;
    TailBounds(d3, t, kept);
    status, state, end, tail := FinishRetention(files, state, segments, end, h.installed, h.installedTime, tail, true,
                                                t, kept);
    if status != Success {
      StoppedLater(d2, o3, o4, files.disk);
      StoppedLater(d1, o2, o3 + o4, files.disk);
      StoppedLater(before, o1, o2 + (o3 + o4), files.disk);
    }
  }

  lemma {:induction false} Capacity(st: Store)
    requires ValidStore(st)
    ensures DATA_START + ChainLength(st.segs) <= DATABASE_CAPACITY
  {
  }

  lemma {:induction false} SourceBounds(disk: Disk, root: nat, end: nat, destination: nat, segs: seq<Segment>)
    requires Source(disk, root, end, destination, segs)
    ensures end <= |Volatile(disk.db)|
  {
  }

  lemma {:induction false} TailBounds(disk: Disk, m: Manifest, segs: seq<Segment>)
    requires InProgress(disk, m, segs)
    ensures m.end <= DATABASE_CAPACITY && DATA_START <= m.root <= m.end <= |Volatile(disk.db)| && RevisionOf(m) < TWO64
    ensures if m.phase == TAIL then m.end - m.root <= m.root - DATA_START else m.root == DATA_START
  {
  }

  /** What check_segments is asked after the last publication, and its answer. */
  lemma {:induction false} RecheckAccepts(disk: Disk, m: Manifest, st: Store, installed: nat, time: int, end: nat,
                                          tail: nat)
    requires Ready(disk, m, st) && ValidSegments(st.segs) && m.Retain? && st.installed == installed && st.floor == time
    requires end == DATA_START + ChainLength(st.segs) && tail == LinkTo(DATA_START, st.segs, |st.segs|)
    ensures |st.segs| < Pow2(TABLE_SIZE)
    ensures CheckChain(disk.db.stable, Claim(|st.segs|, end, installed, time, tail, true, true, DATA_START))
         == Some(ChainInfo(tail, time, SpanStart(st.segs), LiveCount(st.segs)))
  {
    hide CheckChain, SpanStart, LiveCount, Located, ManifestBytes, Outranks, ChainLength, Pow2, LinkTo;
    var r := GoalFor(m, st).r;
    ChecksRoot(disk.db.stable, r);
  }

  /** Relocation preserves meaning: the chain rebuilt at any place holds exactly
      the batches of the segments that do not expire, in order, and its links,
      tail, span start and live count pass `check_segments`. */
  lemma {:induction false} RelocationAccepted(disk: Disk, st: Store, cutoff: int, destination: nat)
    requires ValidStore(st) && ValidSegments(st.segs)
    requires DATA_START <= destination <= |Volatile(disk.db)| <= DATABASE_CAPACITY
    ensures var kept := Kept(st.segs, cutoff);
            var d, tail := Volatile(Execute(disk, CopyOps(destination, kept)).db), LinkTo(destination, kept, |kept|);
            && |kept| < Pow2(TABLE_SIZE) && Located(d, destination, kept)
            && CheckChain(d, Claim(|kept|, destination + ChainLength(kept), st.installed, st.floor, tail, true, true,
                                   destination))
               == Some(ChainInfo(tail, st.floor, SpanStart(kept), LiveCount(kept)))
            && SegmentEntries(kept) == Surviving(SegmentEntries(st.segs), Visible(Expired(st, cutoff)))
  {
    hide Kept, ChainBytes, Located, CheckChain, Pow2, LinkTo, SpanStart, LiveCount, CopyOps, Execute, Volatile,
      Splice, ValidSegment, SegmentEntries, Surviving, Entries, ChainLength, Sequenced, SequenceAfter;
    var kept := Kept(st.segs, cutoff);
    CopyOpsAmount(disk, destination, kept);
    SplicedLocated(Volatile(disk.db), destination, kept);
    KeptSubset(st.segs, cutoff);
    KeptSequenced(st.segs, cutoff, st.retained);
    ChainLengthBound(kept);
    FewSegments(|kept|);
    SurvivingSegments(st, cutoff, |st.segs|);
    assert st.segs[..|st.segs|] == st.segs;
    var d, tail := Volatile(Execute(disk, CopyOps(destination, kept)).db), LinkTo(destination, kept, |kept|);
    ChainAccepted(d,
                  Claim(|kept|, destination + ChainLength(kept), st.installed, st.floor, tail, true, true, destination),
                  kept, st.floor);
  }

  // --- the cursor ----------------------------------------------------------

  /** The relocation loop: from the start, the first batch at or past `wanted`. */
  method Relocate(d: bytes, w: bytes, h: Handle, wanted: nat, ghost st: Store) returns (c: Cursor, ghost k: nat)
    requires Readable(d, w, h, st) && U64(wanted)
    ensures Positioned(st, c, k) && FirstFrom(Visible(st), if wanted == 0 then TWO64 else wanted, k)
  {
    hide ReadCursor, Readable, Visible, CursorAt, Positioned;
    c, k := ResetCursor(), 0;
    StartPlace(st);
    PositionWithin(d, w, h, st, c, k);
    VisibleRising(st);
    SequencesBounded(d, w, h, st);
    var ended := wanted == 0;
    while !ended
      invariant k <= |Visible(st)| && Positioned(st, c, k)
      invariant wanted != 0 ==> forall i :: 0 <= i < k ==> Visible(st)[i].sequence < wanted
      invariant !ended ==> wanted != 0
      invariant ended ==> wanted == 0 || k == |Visible(st)|
      decreases |Visible(st)| - k, if ended then 0 else 1
    {
      ReadAt(d, w, h, st, c, k);
      match ReadCursor(d, w, h, c) {
        case Batch(e, after) =>
          if e.sequence >= wanted {
            assert forall i :: k < i < |Visible(st)| ==> Visible(st)[k].sequence < Visible(st)[i].sequence;
            return;
          }
          c, k := after, k + 1;
        case _ =>
          ended := true;
      }
    }
    c := Cursor(h.end, c.segmentEnd, true, (h.sequence + 1) % TWO64);
    k := |Visible(st)|;
    EndPlace(d, w, h, st, c);
  }

  lemma {:induction false} SequencesBounded(d: bytes, w: bytes, h: Handle, st: Store)
    requires Readable(d, w, h, st)
    ensures forall i :: 0 <= i < |Visible(st)| ==> Visible(st)[i].sequence < TWO64
  {
    hide Visible;
    LastVisible(st);
  }

  /** The relocated cursor's future is the old one without the expired batches. */
  lemma {:induction false} RelocatedFuture(st: Store, cutoff: int, c: Cursor, k: nat, k': nat)
    requires ValidStore(st) && ValidSegments(st.segs) && Positioned(st, c, k)
    requires FirstFrom(Visible(Expired(st, cutoff)), if c.readSequence == 0 then TWO64 else c.readSequence, k')
    ensures k <= |Visible(st)| && k' <= |Visible(Expired(st, cutoff))|
    ensures Visible(Expired(st, cutoff))[k'..] == Surviving(Visible(st)[k..], Visible(Expired(st, cutoff)))
  {
    hide Visible, ValidStore, ValidSegment, Expired, CursorAt, Index, FirstFrom;
    var p :| PlaceAt(st, c, p, k);
    PlaceOfCursor(st, c, p);
    PlaceSplits(st, p);
    ExpectedSequence(st, c, p);
    AtLeastOne(st, p);
    FirstFromBound(Visible(Expired(st, cutoff)), if c.readSequence == 0 then TWO64 else c.readSequence, k');
    FutureAfterExpire(st, cutoff, p, k');
  }

  lemma {:induction false} FirstFromBound(entries: seq<Entry>, wanted: nat, k: nat)
    requires FirstFrom(entries, wanted, k)
    ensures k <= |entries|
  {
  }

  lemma {:induction false} AtLeastOne(st: Store, p: Place)
    requires ValidStore(st) && PlaceOk(st, p)
    ensures NextSequenceAt(st, p) >= 1
  {
    if p.InSegment? {
      assert ValidSegment(st.segs[p.i]);
    }
  }
}
