/** One authoritative manifest at a time: which writes leave it untouched, and
    how publishing the next one hands authority over. */
module Authority {
  import opened Bytes
  import opened Frames
  import opened Segments
  import opened Manifests
  import opened Storage
  import opened Recovery

  /** Bytes a phase-0 database may have past its data: an interrupted checkpoint
      wrote no more than a header and the WAL's frames. */
  predicate SizeOk(size: nat, m: Manifest, slack: nat)
  {
    || PhaseOf(m) != NORMAL
    || size == m.end
    || (m.Retain? && m.count == 0 && size == MARKER_SIZE)
    || (slack > 0 && size <= m.end + 64 + slack)
  }

  /** A root together with the bytes of the WAL frames that may have leaked past it. */
  datatype Goal = Goal(r: Root, slack: nat)

  ghost predicate Satisfies(x: bytes, g: Goal)
  {
    Holds(x, g.r) && SizeOk(|x|, g.r.m, g.slack)
  }

  /** Whatever a crash leaves of the file, one of the two roots is intact in it. */
  ghost predicate DbSafe(f: File, g: Goal, h: Goal)
  {
    forall x :: CrashImage(f, x) ==> Satisfies(x, g) || Satisfies(x, h)
  }

  // --- writes outside the authoritative extent -----------------------------

  /** [lo, hi) meets neither the slots nor the extent of g. */
  ghost predicate FreeRegion(g: Goal, lo: nat, hi: nat)
  {
    && DATA_START <= lo <= hi
    && (hi <= RootOf(g.r.m) || g.r.m.end <= lo)
    && (PhaseOf(g.r.m) == NORMAL ==> g.slack > 0 && hi <= g.r.m.end + 64 + g.slack)
  }

  lemma {:induction false} KeepsRoot(x: bytes, y: bytes, g: Goal)
    requires Satisfies(x, g)
    requires |y| >= DATA_START && |y| >= g.r.m.end
    requires y[..DATA_START] == x[..DATA_START]
    requires RootOf(g.r.m) <= g.r.m.end && y[RootOf(g.r.m)..g.r.m.end] == x[RootOf(g.r.m)..g.r.m.end]
    requires SizeOk(|y|, g.r.m, g.slack)
    ensures Satisfies(y, g)
  {
    hide ManifestBytes, ChainBytes, ValidData, GoodManifest, Un;
    forall i | 0 <= i < 2
      ensures SlotBytes(y, i) == SlotBytes(x, i)
    {
      SubSlice(x, 0, DATA_START, SlotStart(i), SlotStart(i) + 64);
      SubSlice(y, 0, DATA_START, SlotStart(i), SlotStart(i) + 64);
    }
  }

  lemma {:induction false} FreeWrite(x: bytes, g: Goal, offset: nat, data: bytes)
    requires Satisfies(x, g) && FreeRegion(g, offset, offset + |data|)
    ensures Satisfies(Splice(x, offset, data), g)
  {
    hide Holds, Splice;
    DescribedBy(x, g.r);
    HeldSize(x, g);
    SpliceKeeps(x, offset, data, 0, DATA_START);
    SpliceKeeps(x, offset, data, RootOf(g.r.m), g.r.m.end);
    KeepsRoot(x, Splice(x, offset, data), g);
  }

  lemma {:induction false} HeldSize(x: bytes, g: Goal)
    requires Satisfies(x, g)
    ensures |x| >= DATA_START && |x| >= g.r.m.end >= DATA_START
  {
    RootBounds(g.r);
  }

  lemma {:induction false} FreeWriteStep(f: File, g: Goal, offset: nat, data: bytes)
    requires DbSafe(f, g, g) && FreeRegion(g, offset, offset + |data|)
    ensures DbSafe(Issue(f, Write(offset, data)), g, g)
  {
    hide Satisfies, FreeRegion, CrashImage, Splice, Volatile;
    VolatileIsImage(f);
    forall x | CrashImage(Issue(f, Write(offset, data)), x)
      ensures Satisfies(x, g)
    {
      IssueImage(f, Write(offset, data), x);
      if !CrashImage(f, x) {
        var part :| Part(Write(offset, data), part) && x == Apply(Volatile(f), part);
        FreeNarrow(g, offset, |data|, |part.data|);
        FreeWrite(Volatile(f), g, offset, part.data);
      }
    }
  }

  lemma {:induction false} FreeNarrow(g: Goal, offset: nat, n: nat, k: nat)
    requires FreeRegion(g, offset, offset + n) && k <= n
    ensures FreeRegion(g, offset, offset + k)
  {
  }

  /** Truncation during a retention cuts only what lies past the extent. */
  lemma {:induction false} FreeTruncate(x: bytes, g: Goal, size: nat)
    requires Satisfies(x, g) && PhaseOf(g.r.m) != NORMAL && size >= DATA_START && size >= g.r.m.end
    ensures Satisfies(Resize(x, size), g)
  {
    hide Holds;
    DescribedBy(x, g.r);
    HeldSize(x, g);
    KeepsRoot(x, Resize(x, size), g);
  }

  lemma {:induction false} TruncateStep(f: File, g: Goal, size: nat)
    requires DbSafe(f, g, g) && PhaseOf(g.r.m) != NORMAL && size >= DATA_START && size >= g.r.m.end
    ensures DbSafe(Issue(f, Truncate(size)), g, g)
  {
    hide Satisfies;
    VolatileIsImage(f);
    forall x | CrashImage(Issue(f, Truncate(size)), x)
      ensures Satisfies(x, g)
    {
      IssueImage(f, Truncate(size), x);
      if !CrashImage(f, x) {
        FreeTruncate(Volatile(f), g, size);
      }
    }
  }

  // --- handing over --------------------------------------------------------

  /** g's file is ready for h's manifest: next revision, extent in place. */
  ghost predicate Successor(v: bytes, g: Goal, h: Goal)
  {
    && Satisfies(v, g)
    && ValidRoot(h.r)
    && RevisionOf(h.r.m) == RevisionOf(g.r.m) + 1
    && |v| >= h.r.m.end
    && Located(v, RootOf(h.r.m), h.r.segs)
    && SizeOk(|v|, h.r.m, h.slack)
    && TearDetected(SlotBytes(v, RevisionOf(h.r.m) % 2), ManifestBytes(h.r.m))
  }

  function SlotWrite(m: Manifest): Op
    requires m.time >= 0
  {
    Write(SlotStart(RevisionOf(m) % 2), ManifestBytes(m))
  }

  /** The file with the first k bytes of the new slot written. */
  lemma {:induction false} PartialSlot(v: bytes, m: Manifest, k: nat)
    requires |v| >= DATA_START && m.time >= 0 && k <= 64
    ensures var x := Splice(v, SlotStart(RevisionOf(m) % 2), ManifestBytes(m)[..k]);
            && |x| == |v|
            && SlotBytes(x, RevisionOf(m) % 2) == Torn(SlotBytes(v, RevisionOf(m) % 2), ManifestBytes(m), k)
            && SlotBytes(x, 1 - RevisionOf(m) % 2) == SlotBytes(v, 1 - RevisionOf(m) % 2)
            && x[DATA_START..] == v[DATA_START..]
            && (SlotBytes(x, RevisionOf(m) % 2) == SlotBytes(v, RevisionOf(m) % 2) ==> x == v)
  {
    hide ManifestBytes, Splice, SlotBytes, Torn, SlotStart;
    TornSplice(v, RevisionOf(m) % 2, ManifestBytes(m), k);
  }

  lemma {:induction false} TornSplice(v: bytes, i: nat, s: bytes, k: nat)
    requires |v| >= DATA_START && i < 2 && |s| == 64 && k <= 64
    ensures var x := Splice(v, SlotStart(i), s[..k]);
            && |x| == |v|
            && SlotBytes(x, i) == Torn(SlotBytes(v, i), s, k)
            && SlotBytes(x, 1 - i) == SlotBytes(v, 1 - i)
            && x[DATA_START..] == v[DATA_START..]
            && (SlotBytes(x, i) == SlotBytes(v, i) ==> x == v)
  {
    hide Splice;
    var o := SlotStart(i);
    var data := s[..k];
    var x := Splice(v, o, data);
    SpliceKeeps(v, o, data, DATA_START, |v|);
    SpliceKeeps(v, o, data, SlotStart(1 - i), SlotStart(1 - i) + 64);
    TornPart(v, o, s, k);
    assert x[DATA_START..] == x[DATA_START..|v|] && v[DATA_START..] == v[DATA_START..|v|];
    assert SlotBytes(v, i)[k..] == v[o + k..o + 64];
    if SlotBytes(x, i) == SlotBytes(v, i) {
      SpliceKeeps(v, o, data, 0, o);
      SpliceKeeps(v, o, data, o + 64, |v|);
      SameThirds(x, v, o);
    }
  }

  lemma {:induction false} TornPart(v: bytes, o: nat, s: bytes, k: nat)
    requires o + 64 <= |v| && |s| == 64 && k <= 64
    ensures |Splice(v, o, s[..k])| == |v|
    ensures Splice(v, o, s[..k])[o..o + 64] == s[..k] + v[o + k..o + 64]
  {
    hide Splice;
    var x := Splice(v, o, s[..k]);
    SpliceKeeps(v, o, s[..k], o + k, o + 64);
    if k > 0 {
      SpliceHits(v, o, s[..k]);
    }
    assert x[o..o + 64] == x[o..o + k] + x[o + k..o + 64];
  }

  lemma {:induction false} SameThirds(x: bytes, v: bytes, o: nat)
    requires |x| == |v| >= o + 64 && x[0..o] == v[0..o] && x[o..o + 64] == v[o..o + 64]
    requires x[o + 64..|v|] == v[o + 64..|v|]
    ensures x == v
  {
    assert x == x[0..o] + x[o..o + 64] + x[o + 64..|v|];
    assert v == v[0..o] + v[o..o + 64] + v[o + 64..|v|];
  }

  /** However much of the new slot is written, either the old root or, with the
      whole slot, the new one is authoritative. */
  lemma {:induction false} HandOver(v: bytes, g: Goal, h: Goal, k: nat)
    requires Successor(v, g, h) && k <= 64
    ensures var x := Splice(v, SlotStart(RevisionOf(h.r.m) % 2), ManifestBytes(h.r.m)[..k]);
            Satisfies(x, g) || Satisfies(x, h)
    ensures k == 64 ==> Satisfies(Splice(v, SlotStart(RevisionOf(h.r.m) % 2), ManifestBytes(h.r.m)), h)
  {
    hide Satisfies, Successor, Splice, ManifestBytes, Torn, SlotBytes;
    SuccessorTime(v, g, h);
    var s := ManifestBytes(h.r.m);
    var i := RevisionOf(h.r.m) % 2;
    var x := Splice(v, SlotStart(i), s[..k]);
    PartialSlot(v, h.r.m, k);
    WholeSlot(SlotBytes(v, i), s);
    if k == 64 {
      assert s[..k] == s;
      assert SlotBytes(x, i) == s;
      NewAuthority(v, x, g, h);
    } else if SlotBytes(x, i) == s {
      NewAuthority(v, x, g, h);
    } else if SlotBytes(x, i) != SlotBytes(v, i) {
      OldAuthority(v, x, g, h);
    }
  }

  lemma {:induction false} ParityFlips(m: Manifest, m': Manifest)
    requires RevisionOf(m') == RevisionOf(m) + 1
    ensures RevisionOf(m) % 2 == 1 - RevisionOf(m') % 2
  {
  }

  lemma {:induction false} SameExtent(v: bytes, x: bytes, r: Root)
    requires ValidRoot(r) && |x| == |v| && |v| >= DATA_START && x[DATA_START..] == v[DATA_START..]
    requires Located(v, RootOf(r.m), r.segs)
    ensures Located(x, RootOf(r.m), r.segs)
  {
    hide ChainBytes, ValidData;
    RootBounds(r);
    var a, b := RootOf(r.m), RootOf(r.m) + ChainLength(r.segs);
    SubSlice(x, DATA_START, |x|, a - DATA_START, b - DATA_START);
    SubSlice(v, DATA_START, |v|, a - DATA_START, b - DATA_START);
  }

  lemma {:induction false} NewAuthority(v: bytes, x: bytes, g: Goal, h: Goal)
    requires Successor(v, g, h) && |x| == |v|
    requires var i := RevisionOf(h.r.m) % 2;
             SlotBytes(x, i) == ManifestBytes(h.r.m) && SlotBytes(x, 1 - i) == SlotBytes(v, 1 - i)
    requires x[DATA_START..] == v[DATA_START..]
    ensures Satisfies(x, h)
  {
    hide ManifestBytes, Located, ValidData, GoodManifest, TearDetected, Un, Describes;
    ParityFlips(g.r.m, h.r.m);
    ManifestRoundTrip(g.r.m, g.r.m.end);
    SameExtent(v, x, h.r);
  }

  lemma {:induction false} OldAuthority(v: bytes, x: bytes, g: Goal, h: Goal)
    requires Successor(v, g, h) && |x| == |v|
    requires var i := RevisionOf(h.r.m) % 2;
             && SlotBytes(x, 1 - i) == SlotBytes(v, 1 - i)
             && SlotBytes(x, i) != SlotBytes(v, i) && SlotBytes(x, i) != ManifestBytes(h.r.m)
             && exists k :: 0 <= k <= 64 && SlotBytes(x, i) == Torn(SlotBytes(v, i), ManifestBytes(h.r.m), k)
    requires x[DATA_START..] == v[DATA_START..]
    ensures Satisfies(x, g)
  {
    hide ManifestBytes, Located, ValidData, GoodManifest, Un, Describes, Sealed;
    ParityFlips(g.r.m, h.r.m);
    SameExtent(v, x, g.r);
  }

  /** Publishing: after the write either root can survive a crash, and the file
      as read holds the new one. */
  lemma {:induction false} PublishStep(f: File, g: Goal, h: Goal)
    requires DbSafe(f, g, g) && Successor(Volatile(f), g, h)
    ensures DbSafe(Issue(f, SlotWrite(h.r.m)), g, h)
    ensures Satisfies(Volatile(Issue(f, SlotWrite(h.r.m))), h)
  {
    hide Satisfies, Successor, ManifestBytes;
    SuccessorTime(Volatile(f), g, h);
    var op := SlotWrite(h.r.m);
    var s := ManifestBytes(h.r.m);
    forall x | CrashImage(Issue(f, op), x)
      ensures Satisfies(x, g) || Satisfies(x, h)
    {
      IssueImage(f, op, x);
      if !CrashImage(f, x) {
        var part :| Part(op, part) && x == Apply(Volatile(f), part);
        assert part.data == s[..|part.data|];
        HandOver(Volatile(f), g, h, |part.data|);
      }
    }
    IssueVolatile(f, op);
    HandOver(Volatile(f), g, h, 64);
  }

  lemma {:induction false} SuccessorTime(v: bytes, g: Goal, h: Goal)
    requires Successor(v, g, h)
    ensures h.r.m.time >= 0 && Satisfies(v, g) && |v| >= DATA_START
  {
  }

  lemma {:induction false} WholeSlot(was: bytes, now: bytes)
    requires |was| == |now| == 64
    ensures Torn(was, now, 64) == now
  {
  }

  lemma {:induction false} SyncStep(f: File, g: Goal, h: Goal)
    requires DbSafe(f, g, h)
    ensures DbSafe(Sync(f), g, h)
    ensures Satisfies(Volatile(f), h) ==> DbSafe(Sync(f), h, h)
  {
    hide Satisfies;
    VolatileIsImage(f);
    forall x | CrashImage(Sync(f), x)
      ensures x == Volatile(f)
    {
      SyncedImage(Sync(f), x);
    }
  }

  lemma {:induction false} CleanSafe(x: bytes, g: Goal)
    requires Satisfies(x, g)
    ensures DbSafe(File(x, []), g, g)
  {
    hide Satisfies;
    forall y | CrashImage(File(x, []), y)
      ensures y == x
    {
      SyncedImage(File(x, []), y);
    }
  }
}
