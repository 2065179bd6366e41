/** The persistent index: ordinal arithmetic, the lookup that follows the links,
    and the 24-entry table from which links are rebuilt and re-validated. */
module SkipLinks {
  import opened Bytes
  import opened Checksum
  import opened Segments

  const TABLE_SIZE: nat := 24

  // --- ordinals ------------------------------------------------------------

  /** The exponent of the lowest set bit. */
  function BitOf(n: nat): nat
    requires n > 0
  {
    if n % 2 == 1 then 0 else 1 + BitOf(n / 2)
  }

  lemma {:induction false} LowBitPower(n: nat)
    requires n > 0
    ensures LowBit(n) == Pow2(BitOf(n))
  {
    if n % 2 == 0 {
      LowBitPower(n / 2);
    }
  }

  lemma {:induction false} BitOfBound(n: nat, k: nat)
    requires 0 < n < Pow2(k)
    ensures BitOf(n) < k
  {
    if n % 2 == 0 && k > 0 {
      BitOfBound(n / 2, k - 1);
    }
  }

  lemma {:induction false} EvenMod(n: nat, m: nat)
    requires m > 0
    ensures (2 * n) % (2 * m) == 2 * (n % m)
    ensures (2 * n + 1) % (2 * m) == 2 * (n % m) + 1
  {
    var q, r := n / m, n % m;
    assert n == m * q + r;
    assert 2 * n == (2 * m) * q + 2 * r;
    ModUnique(2 * n, 2 * m, q, 2 * r);
    ModUnique(2 * n + 1, 2 * m, q, 2 * r + 1);
  }

  lemma {:induction false} ModUnique(n: nat, m: nat, q: nat, r: nat)
    requires m > 0 && n == m * q + r && r < m
    ensures n % m == r
  {
    var d := n / m - q;
    assert n == m * (n / m) + n % m;
    assert m * d == r - n % m;
    SmallMultiple(m, d);
  }

  lemma {:induction false} SmallMultiple(m: int, d: int)
    requires -m < m * d < m
    ensures d == 0
  {
  }

  lemma {:induction false} ModAtMost(n: nat, m: nat)
    requires m > 0
    ensures n % m <= n
  {
    assert n == m * (n / m) + n % m;
  }

  lemma {:induction false} NextMod(n: nat, m: nat)
    requires m > 0
    ensures (n + 1) % m == if n % m == m - 1 then 0 else n % m + 1
  {
    var q, r := n / m, n % m;
    assert n == m * q + r;
    if r == m - 1 {
      assert n + 1 == m * (q + 1) + 0;
      ModUnique(n + 1, m, q + 1, 0);
    } else {
      ModUnique(n + 1, m, q, r + 1);
    }
  }

  /** Exactly the powers up to the lowest set bit divide n. */
  lemma {:induction false} PowersDividing(n: nat, j: nat)
    requires n > 0
    ensures n % Pow2(j) == 0 <==> j <= BitOf(n)
  {
    if j > 0 {
      EvenMod(n / 2, Pow2(j - 1));
      if n % 2 == 0 {
        PowersDividing(n / 2, j - 1);
      }
    }
  }

  /** The largest multiple of 2^j that is at most n. */
  function LastMultiple(n: nat, j: nat): (m: nat)
    ensures m <= n
  {
    ModAtMost(n, Pow2(j));
    n - n % Pow2(j)
  }

  /** Moving on by one ordinal: entries up to the new low bit now name it, the
      others keep theirs, and the entry at the low bit named n - lowbit(n). */
  lemma {:induction false} TableStep(n: nat, j: nat)
    ensures var bit := BitOf(n + 1);
            LastMultiple(n + 1, j) == if j <= bit then n + 1 else LastMultiple(n, j)
    ensures LastMultiple(n, BitOf(n + 1)) == n + 1 - LowBit(n + 1)
  {
    NextMod(n, Pow2(j));
    PowersDividing(n + 1, j);
    var bit := BitOf(n + 1);
    LowBitPower(n + 1);
    NextMod(n, Pow2(bit));
    PowersDividing(n + 1, bit);
  }

  // --- cost of a lookup ----------------------------------------------------

  /** Headers read by a lookup of ordinal t from ordinal n when every header has links. */
  function LookupCost(n: nat, t: nat): nat
    requires 1 <= t <= n
  {
    if n == t then 1
    else if n - LowBit(n) >= t then 1 + LookupCost(n - LowBit(n), t)
    else 1 + LookupCost(n - 1, t)
  }

  function BitCount(n: nat): nat
  {
    if n == 0 then 0 else n % 2 + BitCount(n / 2)
  }

  lemma {:induction false} BitCountBound(n: nat, k: nat)
    requires n < Pow2(k)
    ensures BitCount(n) <= k
  {
    if n > 0 {
      BitCountBound(n / 2, k - 1);
    }
  }

  lemma {:induction false} ClearLowBit(n: nat)
    requires n > 0
    ensures BitCount(n - LowBit(n)) == BitCount(n) - 1
  {
    if n % 2 == 1 {
      assert (n - 1) / 2 == n / 2;
    } else {
      ClearLowBit(n / 2);
      assert (n - LowBit(n)) / 2 == n / 2 - LowBit(n / 2);
      assert (n - LowBit(n)) % 2 == 0;
    }
  }

  lemma {:induction false} LowBitAbove(n: nat, k: nat)
    requires 0 < n < Pow2(k)
    ensures LowBit(Pow2(k) + n) == LowBit(n)
  {
    if n % 2 == 0 {
      LowBitAbove(n / 2, k - 1);
      assert (Pow2(k) + n) / 2 == Pow2(k - 1) + n / 2;
    }
  }

  lemma {:induction false} LowBitOfPower(k: nat)
    ensures LowBit(Pow2(k)) == Pow2(k)
  {
    if k > 0 {
      LowBitOfPower(k - 1);
    }
  }

  /** Clearing the bits below the top one costs one header each. */
  lemma {:induction false} Descend(k: nat, n: nat, t: nat)
    requires n < Pow2(k) && 1 <= t <= Pow2(k)
    ensures LookupCost(Pow2(k) + n, t) == BitCount(n) + LookupCost(Pow2(k), t)
    decreases n
  {
    if n > 0 {
      LowBitAbove(n, k);
      ClearLowBit(n);
      Descend(k, n - LowBit(n), t);
    }
  }

  /** Below a shared top bit the lookup is the lookup of the remainders. */
  lemma {:induction false} DropTop(k: nat, n: nat, t: nat)
    requires 1 <= t <= n < Pow2(k)
    ensures LookupCost(Pow2(k) + n, Pow2(k) + t) == LookupCost(n, t)
    decreases n
  {
    if n > t {
      LowBitAbove(n, k);
      DropTop(k, if n - LowBit(n) >= t then n - LowBit(n) else n - 1, t);
    }
  }

  /** Logarithmic lookup: below ordinal 2^k at most k(k+1)/2 headers are read. */
  lemma {:induction false} LookupBound(k: nat, n: nat, t: nat)
    requires 1 <= t <= n < Pow2(k)
    ensures 2 * LookupCost(n, t) <= k * (k + 1)
  {
    LookupTriangular(k, n, t);
    TriangularIs(k);
  }

  function Triangular(k: nat): nat
  {
    if k == 0 then 0 else k + Triangular(k - 1)
  }

  lemma {:induction false} TriangularIs(k: nat)
    ensures 2 * Triangular(k) == k * (k + 1)
  {
    if k > 0 {
      TriangularIs(k - 1);
    }
  }

  lemma {:induction false} LookupTriangular(k: nat, n: nat, t: nat)
    requires 1 <= t <= n < Pow2(k)
    ensures LookupCost(n, t) <= Triangular(k)
  {
    hide LowBit, BitCount;
    var top := Pow2(k - 1);
    if n < top {
      LookupTriangular(k - 1, n, t);
    } else if t > top {
      DropTop(k - 1, n - top, t - top);
      LookupTriangular(k - 1, n - top, t - top);
    } else {
      Descend(k - 1, n - top, t);
      BitCountBound(n - top, k - 1);
      if t < top {
        FromTop(k - 1, t);
        LookupTriangular(k - 1, top - 1, t);
      }
    }
  }

  lemma {:induction false} FromTop(k: nat, t: nat)
    requires 1 <= t < Pow2(k)
    ensures LookupCost(Pow2(k), t) == 1 + LookupCost(Pow2(k) - 1, t)
  {
    LowBitOfPower(k);
  }

  // --- installed chains ----------------------------------------------------

  /** What a handle knows about an installed chain at DATA_START. */
  ghost predicate Installed(d: bytes, end: nat, generation: nat, tail: nat, segs: seq<Segment>)
  {
    && ValidSegments(segs)
    && Located(d, DATA_START, segs)
    && end == DATA_START + ChainLength(segs)
    && U64(end)
    && generation == |segs|
    && tail == LinkTo(DATA_START, segs, |segs|)
  }

  ghost function InfoAt(root: nat, segs: seq<Segment>, i: nat): SegmentInfo
    requires ValidSegments(segs) && i < |segs|
  {
    InfoOf(segs[i], LinkTo(root, segs, i), LinkTo(root, segs, i + 1 - LowBit(i + 1)))
  }

  /** What a lookup step at ordinal n of an installed chain reads. */
  lemma {:induction false} HeaderAt(d: bytes, end: nat, generation: nat, tail: nat, segs: seq<Segment>, n: nat)
    requires Installed(d, end, generation, tail, segs) && 1 <= n <= |segs|
    ensures ReadSegment(d, OffsetOf(DATA_START, segs, n - 1), end) == Some(InfoAt(DATA_START, segs, n - 1))
    ensures OffsetOf(DATA_START, segs, n - 1) == LinkTo(DATA_START, segs, n)
    ensures var i := InfoAt(DATA_START, segs, n - 1);
            && (i.headerSize == 32 <==> segs[n - 1].kind == Plain)
            && (i.headerSize != 32 ==> i.previous == LinkTo(DATA_START, segs, n - 1))
            && (i.headerSize != 32 ==> i.skip == LinkTo(DATA_START, segs, n - LowBit(n)))
            && OffsetOf(DATA_START, segs, n) == OffsetOf(DATA_START, segs, n - 1) + i.headerSize + i.body
  {
    hide ReadSegment, ChainLength, Located, ValidSegment;
    ReadChain(d, DATA_START, segs, n - 1);
    OffsetIncreases(DATA_START, segs, n - 1, n);
  }

  // --- chains of headers ---------------------------------------------------

  /** The offset of the n-th header, 0 standing for "none". */
  ghost function Ordinal(offs: seq<nat>, n: nat): nat
    requires n <= |offs|
  {
    if n == 0 then 0 else offs[n - 1]
  }

  /** The n-th header is in place: it reads, links back to n - 1 and n - lowbit(n)
      if it has links, and the next one follows its body. Frames are not looked at. */
  ghost predicate HeaderInPlace(d: bytes, end: nat, offs: seq<nat>, n: nat)
    requires 1 <= n <= |offs|
  {
    var r := ReadSegment(d, offs[n - 1], end);
    && r.Some?
    && (r.value.headerSize != 32 ==>
          r.value.previous == Ordinal(offs, n - 1) && r.value.skip == Ordinal(offs, n - LowBit(n)))
    && (n < |offs| ==> offs[n] == offs[n - 1] + r.value.headerSize + r.value.body)
  }

  /** `generation` headers from DATA_START to `tail`, whatever their bodies hold. */
  ghost predicate Indexed(d: bytes, end: nat, generation: nat, tail: nat, offs: seq<nat>)
  {
    && |offs| == generation
    && (generation > 0 ==> offs[0] == DATA_START && tail == offs[generation - 1])
    && forall n :: 1 <= n <= generation ==> HeaderInPlace(d, end, offs, n)
  }

  ghost predicate AllLinked(d: bytes, end: nat, offs: seq<nat>)
  {
    forall n :: 1 <= n <= |offs| ==> LinkedAt(d, end, offs, n)
  }

  ghost predicate LinkedAt(d: bytes, end: nat, offs: seq<nat>, n: nat)
    requires 1 <= n <= |offs|
  {
    ReadSegment(d, offs[n - 1], end).Some? && ReadSegment(d, offs[n - 1], end).value.headerSize == 64
  }

  ghost function Offsets(segs: seq<Segment>): (offs: seq<nat>)
    ensures |offs| == |segs|
  {
    seq(|segs|, i requires 0 <= i < |segs| => OffsetOf(DATA_START, segs, i))
  }

  /** An installed chain is such a chain of headers. */
  lemma {:induction false} InstalledIndexed(d: bytes, end: nat, generation: nat, tail: nat, segs: seq<Segment>)
    requires Installed(d, end, generation, tail, segs)
    ensures Indexed(d, end, generation, tail, Offsets(segs))
  {
    hide ReadSegment, Installed, InfoAt, LowBit, OffsetOf, LinkTo;
    InstalledNames(d, end, generation, tail, segs);
    FrontOffset(segs);
    var offs := Offsets(segs);
    forall n | 1 <= n <= generation
      ensures HeaderInPlace(d, end, offs, n) && offs[n - 1] == LinkTo(DATA_START, segs, n)
    {
      HeaderAt(d, end, generation, tail, segs, n);
      NoLink(segs);
      if n > 1 {
        HeaderAt(d, end, generation, tail, segs, n - 1);
      }
      if n - LowBit(n) >= 1 {
        HeaderAt(d, end, generation, tail, segs, n - LowBit(n));
      }
    }
  }

  lemma {:induction false} NoLink(segs: seq<Segment>)
    ensures LinkTo(DATA_START, segs, 0) == 0
  {
  }

  /** What a lookup in an installed chain answers, in terms of its segments. */
  lemma {:induction false} LookupIn(d: bytes, end: nat, generation: nat, tail: nat, segs: seq<Segment>, target: nat)
    requires Installed(d, end, generation, tail, segs) && 1 <= target <= generation
    ensures generation == |segs| && Indexed(d, end, generation, tail, Offsets(segs)) && ValidSegments(segs)
    ensures var o := Offsets(segs)[target - 1];
            && o == OffsetOf(DATA_START, segs, target - 1) == LinkTo(DATA_START, segs, target)
            && ReadSegment(d, o, end) == Some(InfoAt(DATA_START, segs, target - 1))
  {
    hide ReadSegment, Installed, InfoAt, OffsetOf, LinkTo, Indexed;
    InstalledNames(d, end, generation, tail, segs);
    InstalledIndexed(d, end, generation, tail, segs);
    HeaderAt(d, end, generation, tail, segs, target);
  }

  // --- lookup --------------------------------------------------------------

  /** `segment_at`: the true n-th header, through links or, past a header without
      links, by walking from the front. */
  method SegmentAt(d: bytes, end: nat, generation: nat, tail: nat, target: nat, ghost offs: seq<nat>)
    returns (r: Option<(nat, SegmentInfo)>, cost: nat)
    ensures Indexed(d, end, generation, tail, offs) && 1 <= target <= generation ==>
              && ReadSegment(d, offs[target - 1], end).Some?
              && r == Some((offs[target - 1], ReadSegment(d, offs[target - 1], end).value))
    ensures Indexed(d, end, generation, tail, offs) && 1 <= target <= generation && AllLinked(d, end, offs) ==>
              cost == LookupCost(generation, target)
  {
    hide ReadSegment, LowBit;
    var n: nat, current: nat := generation, tail;
    ghost var good := Indexed(d, end, generation, tail, offs) && 1 <= target <= generation;
    cost := 0;
    while n != 0
      invariant good ==> target <= n <= |offs| && current == Ordinal(offs, n)
      invariant good && AllLinked(d, end, offs) ==> cost + LookupCost(n, target) == LookupCost(generation, target)
      decreases n
    {
      var segment := ReadSegment(d, current, end);
      cost := cost + 1;
      if good {
        assert HeaderInPlace(d, end, offs, n);
        assert AllLinked(d, end, offs) ==> LinkedAt(d, end, offs, n);
      }
      if segment == None {
        return None, cost;
      }
      if n == target {
        return Some((current, segment.value)), cost;
      }
      if segment.value.headerSize == 32 {
        r, cost := WalkFromFront(d, end, target, cost, good, offs);
        return;
      }
      var step := LowBit(n);
      if n - step >= target {
        current, n := segment.value.skip, n - step;
      } else {
        current, n := segment.value.previous, n - 1;
      }
    }
    r := None;
  }

  lemma {:induction false} InstalledNames(d: bytes, end: nat, generation: nat, tail: nat, segs: seq<Segment>)
    ensures Installed(d, end, generation, tail, segs) ==>
              && generation == |segs| && tail == LinkTo(DATA_START, segs, |segs|) && ValidSegments(segs)
  {
  }

  lemma {:induction false} FrontOffset(segs: seq<Segment>)
    ensures OffsetOf(DATA_START, segs, 0) == DATA_START
  {
  }

  method WalkFromFront(d: bytes, end: nat, target: nat, costBefore: nat, ghost good: bool, ghost offs: seq<nat>)
    returns (r: Option<(nat, SegmentInfo)>, cost: nat)
    requires good ==> 1 <= target <= |offs| && Indexed(d, end, |offs|, offs[|offs| - 1], offs)
    ensures good ==> && ReadSegment(d, offs[target - 1], end).Some?
                     && r == Some((offs[target - 1], ReadSegment(d, offs[target - 1], end).value))
  {
    hide ReadSegment, LowBit;
    var current: nat, n: nat := DATA_START, 1;
    cost := costBefore;
    while n < target
      invariant 1 <= n
      invariant good ==> n <= target && current == offs[n - 1]
    {
      if good {
        assert HeaderInPlace(d, end, offs, n);
      }
      var segment := ReadSegment(d, current, end);
      cost := cost + 1;
      if segment == None {
        return None, cost;
      }
      current := current + segment.value.headerSize + segment.value.body;
      n := n + 1;
    }
    if good {
      assert HeaderInPlace(d, end, offs, target);
    }
    var segment := ReadSegment(d, current, end);
    cost := cost + 1;
    r := if segment == None then None else Some((current, segment.value));
  }

  /** The skip link checkpoint asks the lookup for is the link of the chain. */
  lemma {:induction false} SkipTarget(segs: seq<Segment>)
    ensures var n := |segs| + 1;
            n - LowBit(n) <= |segs| && SkipLink(DATA_START, segs) == LinkTo(DATA_START, segs, n - LowBit(n))
  {
  }
}
