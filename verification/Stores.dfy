/** The logical contents of a pair, and what each operation does to them. */
module Stores {
  import opened Bytes
  import opened Frames
  import opened Segments
  import opened ChainCheck
  import opened Recovery

  /** Installed segments, the sequence and time high-water marks that outlive
      expired data, the batches of the WAL, and the metadata revision. */
  datatype Store = Store(segs: seq<Segment>, installed: nat, floor: int, retained: bool,
                         wal: seq<Batch>, revision: nat)

  ghost predicate ValidStore(st: Store)
  {
    && ValidData(st.segs, st.installed, st.floor, st.retained)
    && ValidBatches(st.wal)
    && U64(st.installed + |st.wal|)
    && 32 + BodyLength(st.wal) <= WAL_CAPACITY
    && (!st.retained ==> st.revision == |st.segs|)
    && (st.retained ==> 1 <= st.revision < TWO64)
  }

  /** A batch with its sequence number. */
  datatype Entry = Entry(sequence: nat, batch: Batch)

  function Entries(first: nat, batches: seq<Batch>): (e: seq<Entry>)
    ensures |e| == |batches|
  {
    seq(|batches|, j requires 0 <= j < |batches| => Entry(first + j, batches[j]))
  }

  function SegmentEntries(segs: seq<Segment>): seq<Entry>
  {
    if segs == [] then []
    else SegmentEntries(segs[..|segs| - 1]) + Entries(segs[|segs| - 1].first, segs[|segs| - 1].batches)
  }

  /** Every committed batch, in the order the cursor returns them. */
  function Visible(st: Store): seq<Entry>
  {
    SegmentEntries(st.segs) + Entries(st.installed + 1, st.wal)
  }

  // --- operations ----------------------------------------------------------

  predicate AppendAllowed(st: Store, b: Batch)
  {
    && ValidBatch(b)
    && Sorted(BatchTimes(b))
    && (st.installed + |st.wal| != 0 ==> LastTime(st.floor, st.wal) <= b[0].time)
    && FrameLength(b) <= WAL_CAPACITY - 32 - BodyLength(st.wal)
    && st.installed + |st.wal| < TWO64 - 1
  }

  function Appended(st: Store, b: Batch): Store { st.(wal := st.wal + [b]) }

  function NewSegment(st: Store): Segment
  {
    Segment(if Sorted(Times(st.wal)) then Span else Unordered, st.installed + 1, st.wal)
  }

  predicate CheckpointAllowed(st: Store)
  {
    && st.wal != []
    && st.revision < TWO64 - 1
    && 64 + BodyLength(st.wal) <= DATABASE_CAPACITY - (DATA_START + ChainLength(st.segs))
  }

  function Checkpointed(st: Store): Store
    requires st.wal != []
  {
    Store(st.segs + [NewSegment(st)], st.installed + |st.wal|, LastTime(st.floor, st.wal), st.retained, [],
          st.revision + 1)
  }

  predicate Expires(s: Segment, cutoff: int)
    requires ValidSegment(s)
  {
    Highest(s) < cutoff
  }

  function Kept(segs: seq<Segment>, cutoff: int): (kept: seq<Segment>)
    requires ValidSegments(segs)
    ensures ValidSegments(kept) && |kept| <= |segs|
  {
    if segs == [] then []
    else
      var front := Kept(segs[..|segs| - 1], cutoff);
      if Expires(segs[|segs| - 1], cutoff) then front else front + [segs[|segs| - 1]]
  }

  ghost predicate ExpireAllowed(st: Store, cutoff: int)
    requires ValidSegments(st.segs)
  {
    && |Kept(st.segs, cutoff)| != |st.segs|
    && ChainLength(Kept(st.segs, cutoff)) <= DATABASE_CAPACITY - (DATA_START + ChainLength(st.segs))
    && st.revision <= TWO64 - 1 - 5
  }

  /** The same batches under the retention encoding: what an expiration that was
      interrupted before it took effect leaves. */
  function Prepared(st: Store): Store { st.(retained := true, revision := st.revision + 2) }

  function Expired(st: Store, cutoff: int): Store
    requires ValidSegments(st.segs)
  {
    st.(segs := Kept(st.segs, cutoff), retained := true, revision := st.revision + 4)
  }

  // --- what they keep ------------------------------------------------------

  lemma {:induction false} AppendedValid(st: Store, b: Batch)
    requires ValidStore(st) && AppendAllowed(st, b)
    ensures ValidStore(Appended(st, b))
    ensures Visible(Appended(st, b)) == Visible(st) + [Entry(st.installed + |st.wal| + 1, b)]
  {
    AppendedData(st, b);
    AppendedVisible(st, b);
  }

  lemma {:induction false} AppendedData(st: Store, b: Batch)
    requires ValidStore(st) && AppendAllowed(st, b)
    ensures ValidStore(Appended(st, b))
  {
    hide ValidData, BodyLength, LastTime, Sorted, BatchTimes, ValidBatch, ValidBatches;
    BodySnoc(1, st.wal, b);
  }

  lemma {:induction false} AppendedVisible(st: Store, b: Batch)
    ensures Visible(Appended(st, b)) == Visible(st) + [Entry(st.installed + |st.wal| + 1, b)]
  {
    EntriesSnoc(st.installed + 1, st.wal, b);
  }

  lemma {:induction false} EntriesSnoc(first: nat, batches: seq<Batch>, b: Batch)
    ensures Entries(first, batches + [b]) == Entries(first, batches) + [Entry(first + |batches|, b)]
  {
  }

  lemma {:induction false} NewSegmentValid(st: Store)
    requires ValidStore(st) && st.wal != []
    ensures ValidSegment(NewSegment(st))
  {
  }

  lemma {:induction false} SequencedSnoc(segs: seq<Segment>, s: Segment, gaps: bool)
    requires Sequenced(segs, gaps) && s.first > SequenceAfter(segs, |segs|)
    requires !gaps ==> s.first == SequenceAfter(segs, |segs|) + 1
    ensures Sequenced(segs + [s], gaps)
  {
    var all := segs + [s];
    forall i | 0 <= i < |all|
      ensures FollowsAt(all, i, gaps)
    {
      if i < |segs| {
        assert FollowsAt(segs, i, gaps);
        assert i > 0 ==> all[i - 1] == segs[i - 1];
        assert SequenceAfter(all, i) == SequenceAfter(segs, i);
        assert all[i] == segs[i];
      } else {
        assert i > 0 ==> all[i - 1] == segs[i - 1];
        assert SequenceAfter(all, i) == SequenceAfter(segs, |segs|);
      }
    }
  }

  /** A checkpoint moves batches between files; what is visible does not change. */
  lemma {:induction false} CheckpointedValid(st: Store)
    requires ValidStore(st) && CheckpointAllowed(st)
    ensures ValidStore(Checkpointed(st))
    ensures Visible(Checkpointed(st)) == Visible(st)
  {
    NoBody();
    CheckpointedData(st);
    VisibleMoves(st);
  }

  lemma {:induction false} CheckpointedData(st: Store)
    requires ValidStore(st) && CheckpointAllowed(st)
    ensures var after := Checkpointed(st); ValidData(after.segs, after.installed, after.floor, after.retained)
  {
    hide BodyLength, Times, Sorted, Sequenced, ChainLength;
    var after, s := Checkpointed(st), NewSegment(st);
    NewSegmentValid(st);
    ChainSnoc(DATA_START, st.segs, s);
    SequencedSnoc(st.segs, s, st.retained);
    assert after.segs[|st.segs|] == s;
    assert ValidBatch(st.wal[|st.wal| - 1]);
  }

  lemma {:induction false} VisibleMoves(st: Store)
    requires st.wal != []
    ensures Visible(Checkpointed(st)) == Visible(st)
  {
    hide Sorted, Times;
    var after := Checkpointed(st);
    assert after.segs[..|st.segs|] == st.segs;
    assert after.segs[|st.segs|] == NewSegment(st);
    assert Entries(after.installed + 1, []) == [];
  }

  lemma {:induction false} NoBody()
    ensures BodyLength([]) == 0
  {
  }

  lemma {:induction false} KeptSubset(segs: seq<Segment>, cutoff: int)
    requires ValidSegments(segs)
    ensures ChainLength(Kept(segs, cutoff)) <= ChainLength(segs)
    ensures forall s :: s in Kept(segs, cutoff) <==> s in segs && !(ValidSegment(s) && Expires(s, cutoff))
  {
    hide SegmentSize, ValidSegment, Expires;
    if segs != [] {
      var front, last := segs[..|segs| - 1], segs[|segs| - 1];
      KeptSubset(front, cutoff);
      assert forall s :: s in segs <==> s in front || s == last;
      assert ValidSegment(last);
      if !Expires(last, cutoff) {
        var kept := Kept(segs, cutoff);
        assert kept[..|kept| - 1] == Kept(front, cutoff);
      }
    }
  }

  lemma {:induction false} KeptSequenced(segs: seq<Segment>, cutoff: int, gaps: bool)
    requires ValidSegments(segs) && Sequenced(segs, gaps)
    ensures Sequenced(Kept(segs, cutoff), true)
    ensures SequenceAfter(Kept(segs, cutoff), |Kept(segs, cutoff)|) <= SequenceAfter(segs, |segs|)
  {
    hide ValidBatches, BodyLength, Times, Sorted, Highest;
    if segs != [] {
      var front, last := segs[..|segs| - 1], segs[|segs| - 1];
      SequencedPrefix(segs, gaps, |segs| - 1);
      KeptSequenced(front, cutoff, gaps);
      assert FollowsAt(segs, |segs| - 1, gaps);
      assert ValidSegment(last);
      assert SequenceAfter(front, |front|) == SequenceAfter(segs, |front|);
      if !Expires(last, cutoff) {
        SequencedSnoc(Kept(front, cutoff), last, true);
      }
    }
  }

  lemma {:induction false} SequencedPrefix(segs: seq<Segment>, gaps: bool, n: nat)
    requires Sequenced(segs, gaps) && n <= |segs|
    ensures Sequenced(segs[..n], gaps)
  {
    forall i | 0 <= i < n
      ensures FollowsAt(segs[..n], i, gaps)
    {
      assert FollowsAt(segs, i, gaps);
    }
  }

  lemma {:induction false} SequencedWeaken(segs: seq<Segment>, gaps: bool)
    requires Sequenced(segs, gaps)
    ensures Sequenced(segs, true)
  {
    forall i | 0 <= i < |segs|
      ensures FollowsAt(segs, i, true)
    {
      assert FollowsAt(segs, i, gaps);
    }
  }

  lemma {:induction false} PreparedValid(st: Store)
    requires ValidStore(st) && st.revision + 2 < TWO64
    ensures ValidStore(Prepared(st)) && Visible(Prepared(st)) == Visible(st)
  {
    SequencedWeaken(st.segs, st.retained);
  }

  lemma {:induction false} ExpiredValid(st: Store, cutoff: int)
    requires ValidStore(st) && ExpireAllowed(st, cutoff)
    ensures ValidStore(Expired(st, cutoff))
  {
    hide Kept, Sequenced, ValidSegment, ValidBatches, BodyLength, SequenceAfter;
    KeptSubset(st.segs, cutoff);
    KeptSequenced(st.segs, cutoff, st.retained);
  }
}
