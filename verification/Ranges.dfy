/** Range reads with an early stop, and aggregation. */
module Ranges {
  import opened Bytes
  import opened Frames
  import opened Segments
  import opened SkipLinks
  import opened ChainCheck
  import opened Recovery
  import opened Stores
  import opened Calls
  import opened Cursors
  import opened Queries

  /** Half-open interval, optionally one series. */
  datatype Range = Range(from: int, until: int, series: int, filter: bool)

  predicate Matches(r: Record, g: Range)
  {
    g.from <= r.time < g.until && (!g.filter || r.series == g.series)
  }

  function Matching(b: Batch, g: Range): (m: seq<Record>)
    ensures |m| <= |b|
  {
    if b == [] then []
    else
      var front := Matching(b[..|b| - 1], g);
      if Matches(b[|b| - 1], g) then front + [b[|b| - 1]] else front
  }

  /** All matching records of a list of batches, in order. */
  function AllMatching(entries: seq<Entry>, g: Range): seq<Record>
  {
    if entries == [] then []
    else AllMatching(entries[..|entries| - 1], g) + Matching(entries[|entries| - 1].batch, g)
  }

  /** The condition of a range read, on one record of a batch. */
  ghost predicate Asked(b: Batch, g: Range, x: nat)
    requires x < |b|
  {
    g.from <= b[x].time && b[x].time < g.until && (g.filter ==> b[x].series == g.series)
  }

  /** m is what a range read must return of b: the records whose time lies in the
      half-open interval and, with a filter, whose series is the one asked for; each
      once, in the order of the batch. */
  ghost predicate Filtered(b: Batch, g: Range, m: seq<Record>)
  {
    exists picked: seq<nat> :: Picks(b, g, m, picked)
  }

  ghost predicate Increasing(s: seq<nat>)
  {
    forall i, j :: 0 <= i < j < |s| ==> s[i] < s[j]
  }

  ghost predicate Picks(b: Batch, g: Range, m: seq<Record>, picked: seq<nat>)
  {
    && |picked| == |m|
    && (forall i :: 0 <= i < |m| ==> picked[i] < |b| && m[i] == b[picked[i]])
    && Increasing(picked)
    && (forall x :: 0 <= x < |b| ==> (x in picked <==> Asked(b, g, x)))
  }

  lemma {:induction false} PickLast(b: Batch, g: Range, m: seq<Record>, picked: seq<nat>)
    requires b != [] && Picks(b[..|b| - 1], g, m, picked)
    ensures Asked(b, g, |b| - 1) ==> Picks(b, g, m + [b[|b| - 1]], picked + [|b| - 1])
    ensures !Asked(b, g, |b| - 1) ==> Picks(b, g, m, picked)
  {
    hide Asked;
    var last := |b| - 1;
    assert forall i :: 0 <= i < |picked| ==> picked[i] < last;
    assert last !in picked;
    forall x | 0 <= x < last
      ensures Asked(b[..last], g, x) == Asked(b, g, x)
    {
      AskedHere(b, g, last, x);
    }
    assert forall x :: x in picked + [last] <==> x in picked || x == last;
  }

  lemma {:induction false} AskedHere(b: Batch, g: Range, n: nat, x: nat)
    requires x < n <= |b|
    ensures Asked(b[..n], g, x) == Asked(b, g, x)
  {
  }

  lemma {:induction false} PickNone(g: Range)
    ensures Picks([], g, [], [])
  {
  }

  lemma {:induction false} MatchingPicks(b: Batch, g: Range) returns (picked: seq<nat>)
    ensures Picks(b, g, Matching(b, g), picked)
  {
    hide Picks;
    if b == [] {
      picked := [];
      PickNone(g);
    } else {
      var last := |b| - 1;
      picked := MatchingPicks(b[..last], g);
      PickLast(b, g, Matching(b[..last], g), picked);
      if Matches(b[last], g) {
        picked := picked + [last];
      }
    }
  }

  lemma {:induction false} SomeMember(s: seq<nat>)
    ensures s == [] || exists x :: x in s
  {
    if s != [] {
      assert s[0] in s;
    }
  }

  lemma {:induction false} IncreasingUnique(s: seq<nat>, t: seq<nat>)
    requires Increasing(s) && Increasing(t) && forall x :: x in s <==> x in t
    ensures s == t
    decreases |s|
  {
    if s == [] {
      SomeMember(t);
    } else {
      var m, n := |s| - 1, |t| - 1;
      assert s[m] in s && s[0] in t;
      assert t[n] in t;
      assert s[m] == t[n];
      forall x
        ensures x in s[..m] <==> x in t[..n]
      {
        DropLast(s, x);
        DropLast(t, x);
      }
      IncreasingUnique(s[..m], t[..n]);
    }
  }

  lemma {:induction false} DropLast(s: seq<nat>, x: nat)
    requires s != [] && Increasing(s)
    ensures x in s[..|s| - 1] <==> x in s && x != s[|s| - 1]
  {
  }

  /** A range read returns exactly those records. */
  lemma {:induction false} MatchingFiltered(b: Batch, g: Range, m: seq<Record>)
    ensures Filtered(b, g, m) <==> m == Matching(b, g)
  {
    hide Matching, Asked;
    var own := MatchingPicks(b, g);
    if Filtered(b, g, m) {
      var picked :| Picks(b, g, m, picked);
      forall x: nat
        ensures x in own <==> x in picked
      {
        assert x in own ==> x < |b|;
      }
      IncreasingUnique(own, picked);
    }
  }

  lemma {:induction false} NoMatchLate(b: Batch, g: Range)
    requires forall x :: 0 <= x < |b| ==> b[x].time >= g.until
    ensures Matching(b, g) == []
  {
    if b != [] {
      NoMatchLate(b[..|b| - 1], g);
    }
  }

  // --- where a visible batch lies ------------------------------------------

  ghost predicate Holding(st: Store, p: Place)
  {
    || (p.InSegment? && p.i < |st.segs| && p.j < |st.segs[p.i].batches|)
    || (p.InWal? && p.j < |st.wal|)
  }

  lemma {:induction false} LocateIn(st: Store, n: nat, k: nat) returns (p: Place)
    requires n <= |st.segs| && k < |SegmentEntries(st.segs[..n])|
    ensures p.InSegment? && Holding(st, p) && PlaceOk(st, p) && Index(st, p) == k
    decreases n
  {
    assert st.segs[..0] == [];
    EntriesPrefix(st.segs, n - 1);
    var lo := |SegmentEntries(st.segs[..n - 1])|;
    if k < lo {
      p := LocateIn(st, n - 1, k);
    } else {
      p := InSegment(n - 1, k - lo);
    }
  }

  /** Every visible index is some batch of some segment, or of the WAL. */
  lemma {:induction false} Locate(st: Store, k: nat) returns (p: Place)
    requires k < |Visible(st)|
    ensures Holding(st, p) && PlaceOk(st, p) && Index(st, p) == k
  {
    assert st.segs[..|st.segs|] == st.segs;
    if k < |SegmentEntries(st.segs)| {
      p := LocateIn(st, |st.segs|, k);
    } else {
      p := InWal(k - |SegmentEntries(st.segs)|);
    }
  }

  ghost function BatchAt(st: Store, p: Place): Batch
    requires Holding(st, p)
  {
    if p.InSegment? then st.segs[p.i].batches[p.j] else st.wal[p.j]
  }

  /** Places are ordered like the indices they stand for. */
  lemma {:induction false} PlaceOrder(st: Store, p: Place, q: Place)
    requires Holding(st, p) && Holding(st, q) && Index(st, p) < Index(st, q)
    ensures p.InWal? ==> q.InWal? && p.j < q.j
    ensures p.InSegment? && q.InSegment? ==> p.i < q.i || (p.i == q.i && p.j < q.j)
  {
    if p.InWal? && q.InSegment? {
      SegmentSlice(st, q.i);
      EntriesPrefix(st.segs, q.i + 1);
    }
    if p.InSegment? && q.InSegment? && q.i < p.i {
      SegmentSlice(st, q.i);
      assert st.segs[..p.i][..q.i + 1] == st.segs[..q.i + 1];
      EntriesPrefix(st.segs[..p.i], q.i + 1);
    }
  }

  // --- the early stop ------------------------------------------------------

  /** From which sequence on times never decrease: the unordered part and an
      out-of-order WAL excluded. */
  ghost function OrderedSequence(st: Store): nat
    requires ValidSegments(st.segs) && ValidBatches(st.wal)
  {
    var k := SpanStart(st.segs);
    if k <= |st.segs| && (st.wal == [] || st.wal[0][0].time >= Highest(st.segs[|st.segs| - 1]))
      then st.segs[k - 1].first
    else st.installed + 1
  }

  lemma {:induction false} WalAfter(st: Store, j: nat)
    requires ValidBatches(st.wal) && Sorted(Times(st.wal)) && j < |st.wal|
    ensures forall y :: 0 <= y < |st.wal[j]| ==> st.wal[0][0].time <= st.wal[j][y].time
  {
    forall y | 0 <= y < |st.wal[j]|
      ensures st.wal[0][0].time <= st.wal[j][y].time
    {
      var n := TimeAt(st.wal, j, y);
      TimesOf(st.wal);
    }
  }

  lemma {:induction false} SegmentBeforeOrdered(segs: seq<Segment>, gaps: bool, a: nat, k: nat)
    requires ValidSegments(segs) && Sequenced(segs, gaps) && a < k < |segs|
    ensures LastOf(segs[a]) < segs[k].first
    decreases k
  {
    hide ValidBatches, BodyLength, Times, Sorted;
    assert FollowsAt(segs, k, gaps);
    if a < k - 1 {
      SegmentBeforeOrdered(segs, gaps, a, k - 1);
      assert ValidSegment(segs[k - 1]);
    }
  }

  /** From the ordered sequence on, no later batch holds an earlier time. */
  lemma {:induction false} LaterNotBefore(st: Store, p: Place, q: Place)
    requires ValidStore(st) && Sorted(Times(st.wal)) && ValidSegments(st.segs)
    requires Holding(st, p) && Holding(st, q) && Index(st, p) < Index(st, q)
    requires NextSequenceAt(st, p) >= OrderedSequence(st)
    ensures NotBefore(BatchAt(st, p), BatchAt(st, q))
  {
    hide ValidBatch, BodyLength, Highest, Lowest, SegmentEntries, Times, Sorted, Sequenced, NotBefore, WithinTimes,
      SpanStart;
    PlaceOrder(st, p, q);
    if p.InWal? {
      SortedBatches(st.wal, p.j, q.j);
    } else {
      OrderedSegment(st, p);
      var k, a := SpanStart(st.segs), st.segs[p.i];
      SpanStartIsLeast(st.segs, k);
      assert a.kind == Span;
      assert ValidSegment(a);
      WithinSegment(a, p.j);
      if q.InWal? {
        if p.i < |st.segs| - 1 {
          SpansRise(st.segs, k, p.i, |st.segs| - 1);
        }
        BatchNotEmpty(st.wal, 0);
        WalAfter(st, q.j);
        Separated(BatchAt(st, p), BatchAt(st, q), Lowest(a), Highest(a), st.wal[0][0].time);
      } else if p.i == q.i {
        SortedBatches(a.batches, p.j, q.j);
      } else {
        var b := st.segs[q.i];
        assert ValidSegment(b);
        SpansRise(st.segs, k, p.i, q.i);
        WithinSegment(b, q.j);
        Apart(BatchAt(st, p), BatchAt(st, q), Lowest(a), Highest(a), Lowest(b), Highest(b));
      }
    }
  }

  lemma {:induction false} Separated(x: Batch, y: Batch, lo: int, hi: int, from: int)
    requires WithinTimes(x, lo, hi) && hi <= from && forall i :: 0 <= i < |y| ==> from <= y[i].time
    ensures NotBefore(x, y)
  {
  }

  lemma {:induction false} Apart(x: Batch, y: Batch, lo: int, hi: int, lo': int, hi': int)
    requires WithinTimes(x, lo, hi) && WithinTimes(y, lo', hi') && hi <= lo'
    ensures NotBefore(x, y)
  {
  }

  /** An installed batch at or past the ordered sequence lies in the ordered
      suffix, and the WAL then does not start below the suffix's end. */
  lemma {:induction false} OrderedSegment(st: Store, p: Place)
    requires ValidStore(st) && ValidSegments(st.segs) && p.InSegment? && Holding(st, p)
    requires NextSequenceAt(st, p) >= OrderedSequence(st)
    ensures SpanStart(st.segs) <= p.i + 1
    ensures st.wal != [] ==> st.wal[0][0].time >= Highest(st.segs[|st.segs| - 1])
  {
    hide ValidBatches, BodyLength, Highest, Lowest, Times, Sorted, SpanStart;
    StoreSequenced(st);
    assert ValidSegment(st.segs[p.i]);
    SequenceAtMost(st.segs, st.retained, p.i);
    var k := SpanStart(st.segs);
    if k <= |st.segs| && p.i < k - 1 {
      SegmentBeforeOrdered(st.segs, st.retained, p.i, k - 1);
    }
  }

  lemma {:induction false} SequenceAtMost(segs: seq<Segment>, gaps: bool, i: nat)
    requires ValidSegments(segs) && Sequenced(segs, gaps) && i < |segs|
    ensures LastOf(segs[i]) <= SequenceAfter(segs, |segs|)
  {
    hide ValidBatches, BodyLength, Times, Sorted;
    if i < |segs| - 1 {
      SegmentBeforeOrdered(segs, gaps, i, |segs| - 1);
      assert ValidSegment(segs[|segs| - 1]);
    }
  }

  lemma {:induction false} EntryOfPlace(st: Store, p: Place)
    requires Holding(st, p)
    ensures PlaceOk(st, p) && Index(st, p) < |Visible(st)|
    ensures Visible(st)[Index(st, p)] == Entry(NextSequenceAt(st, p), BatchAt(st, p))
  {
    VisibleAt(st, p);
  }

  /** The stop is sound: past it nothing matches. */
  lemma {:induction false} StopSound(st: Store, i: nat, g: Range)
    requires ValidStore(st) && ValidSegments(st.segs) && Sorted(Times(st.wal)) && i < |Visible(st)|
    requires Visible(st)[i].sequence >= OrderedSequence(st)
    requires Visible(st)[i].batch != [] && Visible(st)[i].batch[0].time >= g.until
    ensures forall j :: i < j < |Visible(st)| ==> Matching(Visible(st)[j].batch, g) == []
  {
    hide Visible, OrderedSequence, Index, Matching, ValidStore, Sorted;
    var p := Locate(st, i);
    EntryOfPlace(st, p);
    forall j | i < j < |Visible(st)|
      ensures Matching(Visible(st)[j].batch, g) == []
    {
      var q := Locate(st, j);
      EntryOfPlace(st, q);
      LaterNotBefore(st, p, q);
      NoMatchLate(Visible(st)[j].batch, g);
    }
  }

  // --- next_range ----------------------------------------------------------

  datatype RangeOutcome = RangeFound | RangeEnd | RangeTooSmall | RangeInvalid | RangeDamaged

  /** The sequence from which an upper bound permits stopping. */
  method FindOrdered(d: bytes, w: bytes, h: Handle, ghost st: Store) returns (ordered: nat)
    requires Readable(d, w, h, st)
    ensures ValidStore(st) && ValidSegments(st.segs) && ValidBatches(st.wal)
    ensures h.times.ordered ==> ordered == OrderedSequence(st) && Sorted(Times(st.wal))
  {
    hide Readable, ReadSegment, Positioned, Installed, OffsetOf, InfoAt, ValidStore, SpanStart, ChainLength,
      BodyLength, HeaderSize, LookupCost, AllLinked, Indexed, Offsets, LinkTo, Highest, SegmentIndex, Sorted, Times;
    SeekSetup(d, w, h, st);
    WalReflected(d, w, h, st);
    ordered := h.sequence;
    if h.times.ordered {
      ordered := h.installed + 1;
      if h.spanStart <= h.generation {
        LookupIn(d, h.dataEnd, h.generation, h.lastSegment, st.segs, h.spanStart);
        var at, _ := SegmentAt(d, h.dataEnd, h.generation, h.lastSegment, h.spanStart, Offsets(st.segs));
        SegmentPlace(d, w, h, st, h.spanStart);
        var segment := at.value.1;
        var first := segment.first;
        TailSegment(d, w, h, st);
        if h.retention && h.end != 32 {
          segment := ReadSegment(d, h.lastSegment, h.dataEnd).value;
        }
        if h.end == 32 || h.times.first >= (if h.retention then segment.highest else h.installedTime) {
          ordered := first;
        }
      }
    }
  }

  lemma {:induction false} WalReflected(d: bytes, w: bytes, h: Handle, st: Store)
    requires Readable(d, w, h, st)
    ensures ValidBatches(st.wal) && h.installed == st.installed
    ensures h.end == 32 <==> st.wal == []
    ensures st.wal != [] ==> h.times.first == st.wal[0][0].time && h.times.ordered == Sorted(Times(st.wal))
    ensures st.wal == [] ==> h.times.ordered && Sorted(Times(st.wal))
  {
    hide Located, WalExact, ValidData;
    if st.wal != [] {
      SomeBody(st.wal);
      TimesOf(st.wal);
      SummaryMeans(Times(st.wal));
    }
  }

  /** What the last header says when the chain ends in an ordered span. */
  lemma {:induction false} TailSegment(d: bytes, w: bytes, h: Handle, st: Store)
    requires Readable(d, w, h, st) && SpanStart(st.segs) <= |st.segs|
    ensures st.segs != []
    ensures var r := ReadSegment(d, h.lastSegment, h.dataEnd);
            r.Some? && r.value.highest == Highest(st.segs[|st.segs| - 1])
    ensures !h.retention ==> h.installedTime == Highest(st.segs[|st.segs| - 1])
  {
    hide Located, WalExact, ReadSegment, Highest, Lowest, BodyLength, Times, Summary, OffsetOf, SpanStart, Sequenced,
      Sorted;
    SegmentPlace(d, w, h, st, |st.segs|);
    SpanStartIsLeast(st.segs, SpanStart(st.segs));
    var s := st.segs[|st.segs| - 1];
    assert s.kind == Span && ValidSegment(s);
    LastInSpan(s);
  }

  /** `timelite_batches_next_range`: the matching records of the next batch that
      has any, or END exactly when no remaining batch has one. END and errors
      leave the cursor where it was. */
  method NextRange(d: bytes, w: bytes, h: Handle, start: Cursor, g: Range, capacity: nat, ghost st: Store, ghost k: nat)
    returns (r: RangeOutcome, records: seq<Record>, sequence: nat, c: Cursor, ghost n: nat)
    requires Readable(d, w, h, st) && Positioned(st, start, k)
    ensures r != RangeDamaged
    ensures r == RangeInvalid <==> g.from > g.until
    ensures k <= n <= |Visible(st)|
    ensures r != RangeInvalid ==> forall i :: k <= i < n ==> Filtered(Visible(st)[i].batch, g, [])
    ensures r == RangeFound ==>
              && n < |Visible(st)| && Filtered(Visible(st)[n].batch, g, records) && 0 < |records| <= capacity
              && sequence == Visible(st)[n].sequence && Positioned(st, c, n + 1)
    ensures r == RangeTooSmall ==>
              n < |Visible(st)| && exists m :: Filtered(Visible(st)[n].batch, g, m) && |m| > capacity
    ensures r == RangeEnd ==> n == |Visible(st)|
    ensures r != RangeFound ==> c == start && records == []
  {
    hide ReadCursor, Readable, Visible, CursorAt, Matching, OrderedSequence, ValidStore, Sorted, Times, Filtered;
    r, records, sequence, c, n := RangeEnd, [], 0, start, k;
    PositionWithin(d, w, h, st, start, k);
    if g.from > g.until {
      r := RangeInvalid;
      return;
    }
    if g.from == g.until {
      n := |Visible(st)|;
      EmptyInterval(Visible(st), g);
      NoneFiltered(Visible(st), g);
      return;
    }
    var ordered := FindOrdered(d, w, h, st);
    var cursor := start;
    while true
      invariant k <= n <= |Visible(st)| && Positioned(st, cursor, n)
      invariant forall i :: k <= i < n ==> Filtered(Visible(st)[i].batch, g, [])
      invariant r == RangeEnd && c == start && records == []
      decreases |Visible(st)| - n
    {
      ReadAt(d, w, h, st, cursor, n);
      match ReadCursor(d, w, h, cursor)
      case Invalid =>
        r := RangeDamaged;
        return;
      case End =>
        return;
      case Batch(e, after) =>
        var matches := Collect(e.batch, g);
        MatchingFiltered(e.batch, g, matches);
        if |matches| != 0 {
          if |matches| > capacity {
            r := RangeTooSmall;
            return;
          }
          r, records, sequence, c := RangeFound, matches, e.sequence, after;
          return;
        }
        ReachesLast(st, n, 0);
        if e.sequence >= ordered && h.times.ordered && e.batch[0].time >= g.until {
          StopSound(st, n, g);
          NoneFiltered(Visible(st), g);
          n := |Visible(st)|;
          return;
        }
        cursor, n := after, n + 1;
    }
  }

  lemma {:induction false} NoneFiltered(entries: seq<Entry>, g: Range)
    ensures forall i :: 0 <= i < |entries| ==>
              (Filtered(entries[i].batch, g, []) <==> Matching(entries[i].batch, g) == [])
  {
    forall i | 0 <= i < |entries|
      ensures Filtered(entries[i].batch, g, []) <==> Matching(entries[i].batch, g) == []
    {
      MatchingFiltered(entries[i].batch, g, []);
    }
  }

  lemma {:induction false} EmptyInterval(entries: seq<Entry>, g: Range)
    requires g.from == g.until
    ensures forall i :: 0 <= i < |entries| ==> Matching(entries[i].batch, g) == []
  {
    forall i | 0 <= i < |entries|
      ensures Matching(entries[i].batch, g) == []
    {
      NothingMatches(entries[i].batch, g);
    }
  }

  lemma {:induction false} NothingMatches(b: Batch, g: Range)
    requires g.from == g.until
    ensures Matching(b, g) == []
  {
    if b != [] {
      NothingMatches(b[..|b| - 1], g);
    }
  }

  /** The record loop of a range read. */
  method Collect(b: Batch, g: Range) returns (m: seq<Record>)
    ensures m == Matching(b, g)
  {
    m := [];
    for i := 0 to |b|
      invariant m == Matching(b[..i], g)
    {
      assert b[..i + 1][..i] == b[..i];
      if Matches(b[i], g) {
        m := m + [b[i]];
      }
    }
    assert b[..|b|] == b;
  }

  // --- aggregation ---------------------------------------------------------

  datatype Aggregate = Aggregate(count: nat, minimum: int, maximum: int)

  function Values(records: seq<Record>): (v: seq<int>)
    ensures |v| == |records|
  {
    seq(|records|, i requires 0 <= i < |records| => records[i].value)
  }

  /** Count, least and greatest value; all zero when nothing matches. */
  function AggregateOf(records: seq<Record>): Aggregate
  {
    if records == [] then Aggregate(0, 0, 0)
    else Aggregate(|records|, LowestOf(Values(records)), HighestOf(Values(records)))
  }

  lemma {:induction false} AggregateSnoc(records: seq<Record>, r: Record)
    ensures var a := AggregateOf(records);
            AggregateOf(records + [r]) == Aggregate(
              a.count + 1,
              if a.count == 0 || r.value < a.minimum then r.value else a.minimum,
              if a.count == 0 || r.value > a.maximum then r.value else a.maximum)
  {
    var v := Values(records + [r]);
    assert v[..|v| - 1] == Values(records);
  }

  method Accumulate(total: Aggregate, records: seq<Record>, ghost before: seq<Record>) returns (a: Aggregate)
    requires total == AggregateOf(before)
    ensures a == AggregateOf(before + records)
  {
    a := total;
    assert before + records[..0] == before;
    for i := 0 to |records|
      invariant a == AggregateOf(before + records[..i])
    {
      AggregateSnoc(before + records[..i], records[i]);
      assert before + records[..i] + [records[i]] == before + records[..i + 1];
      var r := records[i];
      a := Aggregate(a.count + 1,
                     if a.count == 0 || r.value < a.minimum then r.value else a.minimum,
                     if a.count == 0 || r.value > a.maximum then r.value else a.maximum);
    }
    assert before + records[..|records|] == before + records;
  }

  lemma {:induction false} NoneBetween(entries: seq<Entry>, g: Range, k: nat, n: nat)
    requires k <= n <= |entries| && forall i :: k <= i < n ==> Filtered(entries[i].batch, g, [])
    ensures AllMatching(entries[..n], g) == AllMatching(entries[..k], g)
    decreases n
  {
    hide Filtered, Matching;
    if k < n {
      NoneBetween(entries, g, k, n - 1);
      MatchingFiltered(entries[n - 1].batch, g, []);
      assert entries[..n][..n - 1] == entries[..n - 1];
    }
  }

  lemma {:induction false} OneMore(entries: seq<Entry>, g: Range, n: nat)
    requires n < |entries|
    ensures AllMatching(entries[..n + 1], g) == AllMatching(entries[..n], g) + Matching(entries[n].batch, g)
  {
    hide Matching;
    assert entries[..n + 1][..n] == entries[..n];
  }

  /** `timelite_batches_aggregate_range`: the fold over every matching record,
      whatever the read cursor is. None is EINVAL. */
  method AggregateRange(d: bytes, w: bytes, h: Handle, g: Range, ghost st: Store) returns (r: Option<Aggregate>)
    requires Readable(d, w, h, st)
    ensures g.from > g.until ==> r == None
    ensures g.from <= g.until ==> r.Some? && Aggregates(Visible(st), g, r.value)
  {
    hide Readable, Visible, Matching, AllMatching, AggregateOf, ValidBatch, Positioned, Filtered, Aggregates;
    if g.from > g.until {
      return None;
    }
    var cursor, total := ResetCursor(), Aggregate(0, 0, 0);
    ghost var k := 0;
    StartPlace(st);
    PositionWithin(d, w, h, st, cursor, k);
    NoneYet(Visible(st), g);
    while true
      invariant k <= |Visible(st)| && Positioned(st, cursor, k)
      invariant total == AggregateOf(AllMatching(Visible(st)[..k], g))
      decreases |Visible(st)| - k
    {
      var outcome, records, _, after, n := NextRange(d, w, h, cursor, g, MAX_RECORDS, st, k);
      NoneBetween(Visible(st), g, k, n);
      if outcome == RangeEnd {
        assert Visible(st)[..n] == Visible(st);
        AggregateMeans(Visible(st), g);
        return Some(total);
      }
      MatchingFits(d, w, h, st, n, g);
      total := Accumulate(total, records, AllMatching(Visible(st)[..n], g));
      OneMore(Visible(st), g, n);
      cursor, k := after, n + 1;
    }
  }

  lemma {:induction false} StartPlace(st: Store)
    ensures Positioned(st, ResetCursor(), 0)
  {
    assert PlaceAt(st, ResetCursor(), AtStart, 0);
  }

  lemma {:induction false} NoneYet(entries: seq<Entry>, g: Range)
    ensures AggregateOf(AllMatching(entries[..0], g)) == Aggregate(0, 0, 0)
  {
  }

  lemma {:induction false} MatchingFits(d: bytes, w: bytes, h: Handle, st: Store, n: nat, g: Range)
    requires Readable(d, w, h, st) && n < |Visible(st)|
    ensures forall m :: Filtered(Visible(st)[n].batch, g, m) ==>
              m == Matching(Visible(st)[n].batch, g) && |m| <= MAX_RECORDS
  {
    hide Visible, Matching, Filtered;
    VisibleValid(st, n);
    forall m | Filtered(Visible(st)[n].batch, g, m)
      ensures m == Matching(Visible(st)[n].batch, g)
    {
      MatchingFiltered(Visible(st)[n].batch, g, m);
    }
  }

  // --- what an aggregate is ------------------------------------------------

  /** Where the records asked for are: batch and position in it. */
  ghost function MatchSet(entries: seq<Entry>, g: Range): set<(nat, nat)>
  {
    set i: nat, x: nat | i < |entries| && x < |entries[i].batch| && Asked(entries[i].batch, g, x) :: (i, x)
  }

  ghost function ValueAt(entries: seq<Entry>, p: (nat, nat)): int
    requires p.0 < |entries| && p.1 < |entries[p.0].batch|
  {
    entries[p.0].batch[p.1].value
  }

  ghost predicate Within(entries: seq<Entry>, p: (nat, nat))
  {
    p.0 < |entries| && p.1 < |entries[p.0].batch|
  }

  /** The number of those records and their least and greatest value; all zero
      without any. */
  ghost predicate Aggregates(entries: seq<Entry>, g: Range, a: Aggregate)
  {
    var found := MatchSet(entries, g);
    && a.count == |found|
    && (found == {} ==> a.minimum == 0 && a.maximum == 0)
    && (forall p :: p in found ==> Within(entries, p) && a.minimum <= ValueAt(entries, p) <= a.maximum)
    && (found != {} ==> exists p :: p in found && Within(entries, p) && ValueAt(entries, p) == a.minimum)
    && (found != {} ==> exists p :: p in found && Within(entries, p) && ValueAt(entries, p) == a.maximum)
  }

  /** Every record the range reads return lies at exactly one place asked for. */
  ghost predicate Enumerates(entries: seq<Entry>, g: Range, places: seq<(nat, nat)>)
  {
    && |places| == |AllMatching(entries, g)|
    && (forall i :: 0 <= i < |places| ==>
          Within(entries, places[i]) && ValueAt(entries, places[i]) == AllMatching(entries, g)[i].value)
    && (forall i, j :: 0 <= i < j < |places| ==> places[i] != places[j])
    && (forall p :: p in places <==> p in MatchSet(entries, g))
  }

  lemma {:induction false} AllPlaces(entries: seq<Entry>, g: Range) returns (places: seq<(nat, nat)>)
    ensures Enumerates(entries, g, places)
    decreases |entries|
  {
    if entries == [] {
      places := [];
    } else {
      var n := |entries| - 1;
      var front := AllPlaces(entries[..n], g);
      var picked := MatchingPicks(entries[n].batch, g);
      var own := seq(|picked|, i requires 0 <= i < |picked| => (n, picked[i]));
      places := front + own;
      PlacesJoin(entries, g, front, picked, own);
    }
  }

  lemma {:induction false} PlacesJoin(entries: seq<Entry>, g: Range, front: seq<(nat, nat)>, picked: seq<nat>,
                                      own: seq<(nat, nat)>)
    requires entries != [] && Enumerates(entries[..|entries| - 1], g, front)
    requires var b := entries[|entries| - 1].batch; Picks(b, g, Matching(b, g), picked)
    requires |own| == |picked| && forall i :: 0 <= i < |own| ==> own[i] == (|entries| - 1, picked[i])
    ensures Enumerates(entries, g, front + own)
  {
    hide Matching;
    var n := |entries| - 1;
    var before, b, places := entries[..n], entries[n].batch, front + own;
    assert forall i :: 0 <= i < n ==> before[i] == entries[i];
    forall i | 0 <= i < |places|
      ensures Within(entries, places[i]) && ValueAt(entries, places[i]) == AllMatching(entries, g)[i].value
    {
      if i < |front| {
        assert Within(before, front[i]);
      }
    }
    forall i, j | 0 <= i < j < |places|
      ensures places[i] != places[j]
    {
      if i < |front| <= j {
        assert Within(before, front[i]);
      }
    }
    forall p: (nat, nat)
      ensures p in places <==> p in MatchSet(entries, g)
    {
      assert p in places <==> p in front || p in own;
      if p.0 == n {
        assert p in front ==> p in MatchSet(before, g);
        assert p in own <==> p.1 in picked by {
          if p.1 in picked {
            var i :| 0 <= i < |picked| && picked[i] == p.1;
            assert own[i] == p;
          }
        }
      } else {
        assert p !in own;
        assert p in MatchSet(before, g) <==> p in MatchSet(entries, g);
      }
    }
  }

  lemma {:induction false} DistinctCount<T>(s: seq<T>, found: set<T>)
    requires forall i, j :: 0 <= i < j < |s| ==> s[i] != s[j]
    requires forall x :: x in s <==> x in found
    ensures |found| == |s|
    decreases |s|
  {
    if s == [] {
      assert found == {};
    } else {
      var front, last := s[..|s| - 1], s[|s| - 1];
      assert last in s && last !in front;
      forall x
        ensures x in front <==> x in found - {last}
      {
        assert x in s <==> x in front || x == last;
      }
      DistinctCount(front, found - {last});
    }
  }

  /** The fold of the aggregate is that number and those extremes. */
  lemma {:induction false} AggregateMeans(entries: seq<Entry>, g: Range)
    ensures Aggregates(entries, g, AggregateOf(AllMatching(entries, g)))
  {
    hide AllMatching, MatchSet;
    var places := AllPlaces(entries, g);
    var found, records := MatchSet(entries, g), AllMatching(entries, g);
    DistinctCount(places, found);
    if records != [] {
      var v := Values(records);
      Extremes(v);
      forall p | p in found
        ensures Within(entries, p) && LowestOf(v) <= ValueAt(entries, p) <= HighestOf(v)
      {
        assert p in places;
        var i :| 0 <= i < |places| && places[i] == p;
        assert v[i] == ValueAt(entries, p);
      }
      var low :| 0 <= low < |v| && v[low] == LowestOf(v);
      var high :| 0 <= high < |v| && v[high] == HighestOf(v);
      assert places[low] in places && places[high] in places;
      assert places[low] in found && places[high] in found;
    } else {
      assert places == [];
    }
  }
}
