/** What the read cursor will still return, before and after each operation. */
module Transparency {
  import opened Frames
  import opened Segments
  import opened ChainCheck
  import opened Recovery
  import opened Stores
  import opened Cursors
  import opened Queries
  import opened Ranges

  // --- append --------------------------------------------------------------

  /** An append leaves the cursor where it is; the new batch comes last. */
  lemma {:induction false} AppendKeepsPlace(st: Store, b: Batch, c: Cursor, k: nat)
    requires Positioned(st, c, k)
    ensures Positioned(Appended(st, b), c, k)
  {
    hide SegmentEntries;
    var p :| PlaceAt(st, c, p, k);
    if p.InWal? {
      assert (st.wal + [b])[..p.j] == st.wal[..p.j];
    }
    assert PlaceAt(Appended(st, b), c, p, k);
  }

  // --- checkpoint ----------------------------------------------------------

  /** A cursor in the WAL moves with its frame into the new segment. */
  function MoveCursor(c: Cursor, dataEnd: nat, newEnd: nat): Cursor
    requires c.inWal ==> c.position >= 32
  {
    if c.inWal then Cursor(dataEnd + 64 + c.position - 32, newEnd, false, c.readSequence) else c
  }

  /** Checkpoint is invisible to the cursor. */
  lemma {:induction false} CheckpointKeepsPlace(st: Store, c: Cursor, k: nat)
    requires st.wal != [] && Positioned(st, c, k)
    ensures c.inWal ==> c.position >= 32
    ensures Positioned(Checkpointed(st),
                       MoveCursor(c, DATA_START + ChainLength(st.segs),
                                  DATA_START + ChainLength(Checkpointed(st).segs)), k)
  {
    hide SegmentEntries, Times, Sorted, BodyLength, ChainLength, LastTime;
    var p :| PlaceAt(st, c, p, k);
    var after, s := Checkpointed(st), NewSegment(st);
    var n := |st.segs|;
    assert after.segs[..n] == st.segs;
    NewChainLength(st);
    var moved := MoveCursor(c, DATA_START + ChainLength(st.segs), DATA_START + ChainLength(after.segs));
    match p
    case InWal(j) =>
      assert PlaceAt(after, moved, InSegment(n, j), k);
    case InSegment(i, j) =>
      assert after.segs[..i] == st.segs[..i];
      assert PlaceAt(after, moved, p, k);
    case AtStart =>
      assert PlaceAt(after, moved, p, k);
  }

  lemma {:induction false} NewChainLength(st: Store)
    requires st.wal != []
    ensures ChainLength(Checkpointed(st).segs) == ChainLength(st.segs) + 64 + BodyLength(st.wal)
    ensures SegmentSize(NewSegment(st)) == 64 + BodyLength(st.wal) && HeaderSize(NewSegment(st)) == 64
  {
    assert Checkpointed(st).segs[..|st.segs|] == st.segs;
  }

  // --- retention -----------------------------------------------------------

  /** The entries of a list that are among the kept ones, in order. */
  function Surviving(entries: seq<Entry>, kept: seq<Entry>): seq<Entry>
  {
    if entries == [] then []
    else
      var front, e := Surviving(entries[..|entries| - 1], kept), entries[|entries| - 1];
      if e in kept then front + [e] else front
  }

  lemma {:induction false} SurvivingConcat(a: seq<Entry>, b: seq<Entry>, kept: seq<Entry>)
    ensures Surviving(a + b, kept) == Surviving(a, kept) + Surviving(b, kept)
  {
    if b == [] {
      assert a + b == a;
    } else {
      SurvivingConcat(a, b[..|b| - 1], kept);
      assert (a + b)[..|a + b| - 1] == a + b[..|b| - 1];
    }
  }

  lemma {:induction false} AllSurvive(a: seq<Entry>, kept: seq<Entry>)
    ensures (forall e :: e in a ==> e in kept) ==> Surviving(a, kept) == a
    ensures (forall e :: e in a ==> e !in kept) ==> Surviving(a, kept) == []
  {
    if a != [] {
      AllSurvive(a[..|a| - 1], kept);
      assert a[|a| - 1] in a;
      assert forall e :: e in a[..|a| - 1] ==> e in a;
      assert a == a[..|a| - 1] + [a[|a| - 1]];
    }
  }

  lemma {:induction false} MemberOf(segs: seq<Segment>, e: Entry) returns (i: nat, j: nat)
    requires e in SegmentEntries(segs)
    ensures i < |segs| && j < |segs[i].batches| && e == Entry(segs[i].first + j, segs[i].batches[j])
  {
    var front, s := segs[..|segs| - 1], segs[|segs| - 1];
    if e in SegmentEntries(front) {
      i, j := MemberOf(front, e);
    } else {
      var x :| 0 <= x < |Entries(s.first, s.batches)| && Entries(s.first, s.batches)[x] == e;
      i, j := |segs| - 1, x;
    }
  }

  lemma {:induction false} MemberIn(segs: seq<Segment>, i: nat, j: nat)
    requires i < |segs| && j < |segs[i].batches|
    ensures Entry(segs[i].first + j, segs[i].batches[j]) in SegmentEntries(segs)
    decreases |segs|
  {
    var front, s := segs[..|segs| - 1], segs[|segs| - 1];
    if i < |front| {
      MemberIn(front, i, j);
    } else {
      assert Entries(s.first, s.batches)[j] == Entry(s.first + j, s.batches[j]);
    }
  }

  lemma {:induction false} KeptWhole(st: Store, cutoff: int, i: nat)
    requires ValidStore(st) && ValidSegments(st.segs) && i < |st.segs| && !Expires(st.segs[i], cutoff)
    ensures forall e :: e in Entries(st.segs[i].first, st.segs[i].batches) ==> e in Visible(Expired(st, cutoff))
  {
    hide Expires, ValidSegment, SegmentEntries, Kept, ValidStore;
    var s := st.segs[i];
    var kept := Kept(st.segs, cutoff);
    KeptSubset(st.segs, cutoff);
    assert s in st.segs && ValidSegment(s);
    var n :| 0 <= n < |kept| && kept[n] == s;
    forall e | e in Entries(s.first, s.batches)
      ensures e in Visible(Expired(st, cutoff))
    {
      var j :| 0 <= j < |s.batches| && Entries(s.first, s.batches)[j] == e;
      MemberIn(kept, n, j);
      assert e in SegmentEntries(kept);
    }
  }

  lemma {:induction false} GoneWhole(st: Store, cutoff: int, i: nat)
    requires ValidStore(st) && ValidSegments(st.segs) && i < |st.segs| && Expires(st.segs[i], cutoff)
    ensures forall e :: e in Entries(st.segs[i].first, st.segs[i].batches) ==> e !in Visible(Expired(st, cutoff))
  {
    hide Expires, ValidBatches, SegmentEntries, Sequenced, BodyLength, Times, Sorted;
    var s := st.segs[i];
    StoreSequenced(st);
    assert ValidSegment(s);
    SequenceAtMost(st.segs, st.retained, i);
    forall e | e in Entries(s.first, s.batches)
      ensures e !in Visible(Expired(st, cutoff))
    {
      if e in SegmentEntries(Kept(st.segs, cutoff)) {
        ForeignEntry(st, cutoff, i, e);
      }
    }
  }

  lemma {:induction false} ForeignEntry(st: Store, cutoff: int, i: nat, e: Entry)
    requires ValidStore(st) && ValidSegments(st.segs) && i < |st.segs| && Expires(st.segs[i], cutoff)
    requires e in SegmentEntries(Kept(st.segs, cutoff))
    ensures e !in Entries(st.segs[i].first, st.segs[i].batches)
  {
    hide Expires, ValidBatches, SegmentEntries, Sequenced, BodyLength, Times, Sorted, Kept, ValidStore;
    var kept := Kept(st.segs, cutoff);
    var n, j := MemberOf(kept, e);
    KeptSubset(st.segs, cutoff);
    assert kept[n] in kept && ValidSegment(kept[n]);
    assert kept[n] in st.segs && !Expires(kept[n], cutoff);
    var m :| 0 <= m < |st.segs| && st.segs[m] == kept[n];
    StoreSequenced(st);
    assert ValidSegment(st.segs[i]) && ValidSegment(st.segs[m]);
    if m < i {
      SegmentBeforeOrdered(st.segs, st.retained, m, i);
    } else if i < m {
      SegmentBeforeOrdered(st.segs, st.retained, i, m);
    }
  }

  lemma {:induction false} SurvivingSegments(st: Store, cutoff: int, n: nat)
    requires ValidStore(st) && ValidSegments(st.segs) && n <= |st.segs|
    ensures ValidSegments(st.segs[..n])
    ensures Surviving(SegmentEntries(st.segs[..n]), Visible(Expired(st, cutoff)))
              == SegmentEntries(Kept(st.segs[..n], cutoff))
  {
    hide Expires, ValidSegment, Visible, ValidStore, Entries, SegmentEntries, Kept, Surviving, Expired;
    if n == 0 {
      assert st.segs[..0] == [];
      NoneSurvive(cutoff, Visible(Expired(st, cutoff)));
    } else {
      SurvivingSegments(st, cutoff, n - 1);
      var s, kept := st.segs[n - 1], Visible(Expired(st, cutoff));
      EntriesPrefix(st.segs, n - 1);
      SurvivingConcat(SegmentEntries(st.segs[..n - 1]), Entries(s.first, s.batches), kept);
      AllSurvive(Entries(s.first, s.batches), kept);
      KeptNext(st.segs, cutoff, n - 1);
      if Expires(s, cutoff) {
        GoneWhole(st, cutoff, n - 1);
      } else {
        KeptWhole(st, cutoff, n - 1);
      }
    }
  }

  lemma {:induction false} NoneSurvive(cutoff: int, kept: seq<Entry>)
    ensures Surviving(SegmentEntries([]), kept) == SegmentEntries(Kept([], cutoff))
  {
  }

  lemma {:induction false} KeptNext(segs: seq<Segment>, cutoff: int, i: nat)
    requires ValidSegments(segs) && i < |segs|
    ensures ValidSegments(segs[..i]) && ValidSegments(segs[..i + 1]) && ValidSegment(segs[i])
    ensures SegmentEntries(Kept(segs[..i + 1], cutoff))
         == SegmentEntries(Kept(segs[..i], cutoff))
            + if Expires(segs[i], cutoff) then [] else Entries(segs[i].first, segs[i].batches)
  {
    hide Expires, ValidSegment, Entries;
    var s, front := segs[i], Kept(segs[..i], cutoff);
    assert segs[..i + 1][..i] == segs[..i];
    if !Expires(s, cutoff) {
      assert (front + [s])[..|front|] == front;
    }
  }

  /** Retention removes exactly the expired segments' batches and keeps the order. */
  lemma {:induction false} SurvivingVisible(st: Store, cutoff: int)
    requires ValidStore(st) && ValidSegments(st.segs)
    ensures Surviving(Visible(st), Visible(Expired(st, cutoff))) == Visible(Expired(st, cutoff))
  {
    hide Kept, ValidSegment, SegmentEntries, Surviving, Entries, ValidStore;
    var kept := Visible(Expired(st, cutoff));
    SurvivingSegments(st, cutoff, |st.segs|);
    assert st.segs[..|st.segs|] == st.segs;
    SurvivingConcat(SegmentEntries(st.segs), Entries(st.installed + 1, st.wal), kept);
    AllSurvive(Entries(st.installed + 1, st.wal), kept);
  }

  lemma {:induction false} RecordOfTime(batches: seq<Batch>, n: nat) returns (j: nat, x: nat)
    requires n < |Times(batches)|
    ensures j < |batches| && x < |batches[j]| && batches[j][x].time == Times(batches)[n]
    decreases |batches|
  {
    var front := batches[..|batches| - 1];
    if n < |Times(front)| {
      j, x := RecordOfTime(front, n);
    } else {
      j, x := |batches| - 1, n - |Times(front)|;
    }
  }

  /** Some record of the segment is at or past the cutoff. */
  ghost predicate StillNeeded(s: Segment, cutoff: int)
  {
    exists j, x :: 0 <= j < |s.batches| && 0 <= x < |s.batches[j]| && s.batches[j][x].time >= cutoff
  }

  lemma {:induction false} NeededKept(s: Segment, cutoff: int)
    requires ValidSegment(s)
    ensures Expires(s, cutoff) <==> !StillNeeded(s, cutoff)
  {
    hide ValidBatches, Times, Sorted, BodyLength;
    TimesOf(s.batches);
    Extremes(Times(s.batches));
    if Expires(s, cutoff) {
      forall j, x | 0 <= j < |s.batches| && 0 <= x < |s.batches[j]|
        ensures s.batches[j][x].time < cutoff
      {
        var n := TimeAt(s.batches, j, x);
      }
    } else {
      var n :| 0 <= n < |Times(s.batches)| && Times(s.batches)[n] == Highest(s);
      var j, x := RecordOfTime(s.batches, n);
    }
  }

  /** Retention keeps an installed batch exactly when some record of its segment is
      at or past the cutoff, and every batch that is not installed yet. */
  lemma {:induction false} ExpireExactly(st: Store, cutoff: int, e: Entry)
    requires ValidStore(st) && ValidSegments(st.segs)
    ensures forall i :: 0 <= i < |st.segs| && e in Entries(st.segs[i].first, st.segs[i].batches) ==>
              (e in Visible(Expired(st, cutoff)) <==> StillNeeded(st.segs[i], cutoff))
    ensures e in Entries(st.installed + 1, st.wal) ==> e in Visible(Expired(st, cutoff))
  {
    hide Entries, SegmentEntries, Kept, ValidStore, StillNeeded, Expires, ValidSegment;
    forall i | 0 <= i < |st.segs| && e in Entries(st.segs[i].first, st.segs[i].batches)
      ensures e in Visible(Expired(st, cutoff)) <==> StillNeeded(st.segs[i], cutoff)
    {
      assert ValidSegment(st.segs[i]);
      NeededKept(st.segs[i], cutoff);
      if Expires(st.segs[i], cutoff) {
        GoneWhole(st, cutoff, i);
      } else {
        KeptWhole(st, cutoff, i);
      }
    }
  }

  /** The index the relocated cursor goes to: the first surviving batch at or past `wanted`. */
  ghost predicate FirstFrom(entries: seq<Entry>, wanted: nat, k: nat)
  {
    && k <= |entries|
    && (forall i :: 0 <= i < k ==> entries[i].sequence < wanted)
    && (forall i :: k <= i < |entries| ==> entries[i].sequence >= wanted)
  }

  lemma {:induction false} SurvivingBound(a: seq<Entry>, kept: seq<Entry>, bound: nat)
    ensures Below(a, bound) ==> Below(Surviving(a, kept), bound)
    ensures AtLeast(a, bound) ==> AtLeast(Surviving(a, kept), bound)
  {
    if a != [] {
      SurvivingBound(a[..|a| - 1], kept, bound);
    }
  }

  /** The future of the cursor after retention is its old future without the
      expired batches. */
  lemma {:induction false} FutureAfterExpire(st: Store, cutoff: int, p: Place, k': nat)
    requires ValidStore(st) && ValidSegments(st.segs) && PlaceOk(st, p)
    requires FirstFrom(Visible(Expired(st, cutoff)), NextSequenceAt(st, p), k')
    ensures Index(st, p) <= |Visible(st)|
    ensures Visible(Expired(st, cutoff))[k'..] == Surviving(Visible(st)[Index(st, p)..], Visible(Expired(st, cutoff)))
  {
    hide Visible, ValidStore, ValidSegment, Expired;
    PlaceSplits(st, p);
    var v, kept, k, bound := Visible(st), Visible(Expired(st, cutoff)), Index(st, p), NextSequenceAt(st, p);
    SurvivingVisible(st, cutoff);
    SurvivingConcat(v[..k], v[k..], kept);
    assert v == v[..k] + v[k..];
    SurvivingBound(v[..k], kept, bound);
    SurvivingBound(v[k..], kept, bound);
    SplitAt(Surviving(v[..k], kept), Surviving(v[k..], kept), bound, k');
  }

  lemma {:induction false} SplitAt(a: seq<Entry>, b: seq<Entry>, bound: nat, k: nat)
    requires Below(a, bound) && AtLeast(b, bound) && FirstFrom(a + b, bound, k)
    ensures (a + b)[k..] == b
  {
    FirstFromCount(a + b, bound, k);
    FirstFromCount(a + b, bound, |a|);
  }

  function CountBelow(entries: seq<Entry>, bound: nat): nat
  {
    if entries == [] then 0
    else CountBelow(entries[..|entries| - 1], bound) + if entries[|entries| - 1].sequence < bound then 1 else 0
  }

  lemma {:induction false} FirstFromCount(entries: seq<Entry>, bound: nat, k: nat)
    requires FirstFrom(entries, bound, k)
    ensures k == CountBelow(entries, bound)
  {
    if entries != [] {
      var front := entries[..|entries| - 1];
      FirstFromCount(front, bound, if k == |entries| then k - 1 else k);
    }
  }
}
