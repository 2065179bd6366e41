/** Copying a chain: which segments expire, patched headers, rebuilt links. */
module Relocation {
  import opened Bytes
  import opened Checksum
  import opened Frames
  import opened Segments
  import opened SkipLinks
  import opened ChainCheck
  import opened Storage
  import opened Recovery
  import opened Stores
  import opened Scripts
  import opened Device

  // --- expiry of one segment -----------------------------------------------

  ghost predicate AllBelow(t: seq<int>, cutoff: int)
  {
    forall i :: 0 <= i < |t| ==> t[i] < cutoff
  }

  lemma {:induction false} ExpiresMeans(s: Segment, cutoff: int)
    requires ValidSegment(s)
    ensures Expires(s, cutoff) <==> AllBelow(Times(s.batches), cutoff)
  {
    TimesOf(s.batches);
    Extremes(Times(s.batches));
  }

  lemma {:induction false} TimesNext(batches: seq<Batch>, j: nat)
    requires j < |batches|
    ensures Times(batches[..j + 1]) == Times(batches[..j]) + BatchTimes(batches[j])
  {
    assert batches[..j + 1][..j] == batches[..j];
  }

  lemma {:induction false} BelowConcat(a: seq<int>, b: seq<int>, cutoff: int)
    ensures AllBelow(a + b, cutoff) <==> AllBelow(a, cutoff) && AllBelow(b, cutoff)
  {
    if AllBelow(a + b, cutoff) {
      assert forall i :: 0 <= i < |a| ==> a[i] == (a + b)[i];
      assert forall i :: 0 <= i < |b| ==> b[i] == (a + b)[|a| + i];
    }
  }

  method BatchBelow(b: Batch, cutoff: int, soFar: bool) returns (below: bool)
    ensures below == (soFar && AllBelow(BatchTimes(b), cutoff))
  {
    below := soFar;
    for i := 0 to |b|
      invariant below == (soFar && forall x :: 0 <= x < i ==> BatchTimes(b)[x] < cutoff)
    {
      assert BatchTimes(b)[i] == b[i].time;
      if b[i].time >= cutoff {
        below := false;
      }
    }
  }

  /** The segment whose header was read at `offset` of d is s. */
  ghost predicate SegmentAtOffset(d: bytes, offset: nat, i: SegmentInfo, s: Segment)
  {
    && ValidSegment(s)
    && i == InfoOf(s, i.previous, i.skip)
    && FramesAt(d, offset + HeaderSize(s), s.first, s.batches)
  }

  /** `segment_expires`: whether every record time lies below the cutoff. Old
      headers carry no maximum, so their frames are read. */
  method SegmentExpires(d: bytes, offset: nat, i: SegmentInfo, cutoff: int, ghost good: bool, ghost s: Segment)
    returns (r: Option<bool>)
    requires U64(cutoff) && (good ==> SegmentAtOffset(d, offset, i, s))
    ensures good ==> r == Some(Expires(s, cutoff))
  {
    if i.headerSize == 64 || cutoff == 0 {
      return Some(i.highest < cutoff);
    }
    r := ScanExpires(d, offset + i.headerSize, i.body, i.first, i.last, cutoff, good, s.batches);
    if good {
      assert BodyLength(s.batches) == i.body;
      ExpiresMeans(s, cutoff);
    }
  }

  method ScanExpires(d: bytes, base: nat, body: nat, first: nat, last: nat, cutoff: int, ghost good: bool,
                     ghost batches: seq<Batch>)
    returns (r: Option<bool>)
    requires good ==> && ValidBatches(batches) && batches != [] && FramesAt(d, base, first, batches)
                      && BodyLength(batches) == body
                      && last == first + |batches| - 1 && U64(last)
    ensures good ==> r == Some(AllBelow(Times(batches), cutoff))
  {
    hide ReadFrame, FramesAt, BodyLength, Records, AllBelow, ValidBatch, BatchTimes, Frame;
    var position: nat, end, sequence: nat := base, base + body, first;
    var expires := true;
    ghost var j := 0;
    if good {
      NoneBelow(batches, cutoff);
      NoFrames(batches);
      NextSequence(first);
    }
    while position < end
      invariant good ==> j <= |batches| && position == base + BodyLength(batches[..j])
      invariant good ==> sequence == (first + j) % TWO64 && expires == AllBelow(Times(batches[..j]), cutoff)
      decreases end - position
    {
      if good {
        assert batches[..|batches|] == batches;
        ReadFrameAt(d, base, first, batches, j, end);
        BodyLengthPrefix(batches, j);
        TimesNext(batches, j);
        BelowConcat(Times(batches[..j]), BatchTimes(batches[j]), cutoff);
        FrameSize(first + j, batches[j]);
        NextSequence(first + j);
      }
      match ReadFrame(d, position, end, sequence) {
        case Complete(data, count) =>
          expires := BatchBelow(Records(data, count), cutoff, expires);
          position := position + |data|;
          sequence := (sequence + 1) % TWO64;
          j := j + 1;
        case _ =>
          return None;
      }
    }
    if good {
      WholeBody(batches, j);
      assert batches[..j] == batches;
      LastSequence(first + |batches|);
    }
    r := if (sequence + TWO64 - 1) % TWO64 == last then Some(expires) else None;
  }

  lemma {:induction false} NoneBelow(batches: seq<Batch>, cutoff: int)
    ensures AllBelow(Times(batches[..0]), cutoff)
  {
  }

  lemma {:induction false} LastSequence(n: nat)
    requires 1 <= n <= TWO64
    ensures (n % TWO64 + TWO64 - 1) % TWO64 == n - 1
  {
  }

  // --- headers -------------------------------------------------------------

  /** A 64-byte header with new links and a new checksum. */
  function Patch(h: bytes, previous: nat, skip: nat): (r: bytes)
    requires |h| == 64
    ensures |r| == 64
  {
    Seal(h[..44] + Le(previous, 8) + Le(skip, 8))
  }

  /** Patching the links of a segment's header gives the header of that segment
      at its new place; nothing else changes. */
  lemma {:induction false} PatchLinks(s: Segment, p: nat, k: nat, p': nat, k': nat)
    requires ValidSegment(s) && s.kind != Plain
    ensures Patch(HeaderBytes(s, p, k), p', k') == HeaderBytes(s, p', k')
  {
    hide Le, Seal, ShortFields, BodyLength, Lowest, Highest, ValidBatches, Times, Sorted;
    var short := ShortFields(s.kind, s.first, LastOf(s), BodyLength(s.batches));
    var lo, hi := Le(Lowest(s), 8), Le(Highest(s), 8);
    var fields := short + lo + hi + Le(p, 8) + Le(k, 8);
    SliceOfSeal(fields, 0, 44);
    var h := HeaderBytes(s, p, k);
    assert h == Seal(fields);
    assert h[..44] == h[0..44] == fields[0..44] == short + lo + hi;
  }

  // --- one segment ---------------------------------------------------------

  /** The bytes from lo to hi are the same in both. */
  ghost predicate SameBytes(x: bytes, y: bytes, lo: nat, hi: nat)
  {
    lo <= hi <= |x| && hi <= |y| && x[lo..hi] == y[lo..hi]
  }

  ghost predicate Apart(lo: nat, hi: nat, a: nat, b: nat)
  {
    hi <= a || b <= lo
  }

  lemma {:induction false} WriteKeeps(disk: Disk, v: bytes, lo: nat, hi: nat, offset: nat, data: bytes)
    requires SameBytes(Volatile(disk.db), v, lo, hi) && Apart(lo, hi, offset, offset + |data|)
    ensures SameBytes(Volatile(Perform(disk, Db(Write(offset, data))).db), v, lo, hi)
  {
    IssueVolatile(disk.db, Write(offset, data));
    SpliceKeeps(Volatile(disk.db), offset, data, lo, hi);
  }

  lemma {:induction false} FrameOpsNext(base: nat, first: nat, batches: seq<Batch>, j: nat)
    requires ValidBatches(batches) && j < |batches|
    ensures ValidBatches(batches[..j]) && ValidBatches(batches[..j + 1]) && ValidBatch(batches[j])
    ensures FrameOps(base, first, batches[..j + 1])
         == FrameOps(base, first, batches[..j])
           + [Db(Write(base + BodyLength(batches[..j]), Frame(first + j, batches[j])))]
  {
    hide Frame, BodyLength, ValidBatch;
    assert batches[..j + 1][..j] == batches[..j];
  }

  lemma {:induction false} FrameOpsPrefix(base: nat, first: nat, batches: seq<Batch>, j: nat)
    requires ValidBatches(batches) && j <= |batches|
    ensures ValidBatches(batches[..j])
    ensures FrameOps(base, first, batches[..j]) <= FrameOps(base, first, batches)
    decreases |batches| - j
  {
    hide Frame, ValidBatch;
    if j == |batches| {
      assert batches[..j] == batches;
    } else {
      FrameOpsNext(base, first, batches, j);
      FrameOpsPrefix(base, first, batches, j + 1);
    }
  }

  /** A stop after `done`, in the middle of `io`, is a stop in any script that continues so. */
  lemma {:induction false} StoppedInside(disk: Disk, done: seq<Io>, io: Io, script: seq<Io>, after: Disk)
    requires done + [io] <= script && StoppedIn(Execute(disk, done), [io], after)
    ensures StoppedIn(disk, script, after)
  {
    hide StoppedIn, Execute;
    StoppedLater(disk, done, [io], after);
    var rest := script[|done + [io]|..];
    assert script == done + [io] + rest;
    StoppedEarlier(disk, done + [io], rest, after);
  }

  lemma {:induction false} ExecuteSnoc(disk: Disk, done: seq<Io>, io: Io)
    ensures Execute(disk, done + [io]) == Perform(Execute(disk, done), io)
  {
    assert (done + [io])[..|done|] == done;
  }

  // --- reading on any image ------------------------------------------------

  /** The frames of this extent all read, and are as many as the sequences say. */
  predicate FramesReadable(d: bytes, base: nat, body: nat, first: nat, last: nat)
  {
    var run := RunOfFrames(d, base, base + body, first, 0);
    run.whole && run.count == last - first + 1
  }

  /** Every header and every frame from offset to end reads. */
  predicate ChainReadable(d: bytes, offset: nat, end: nat)
    decreases end - offset
  {
    offset >= end
    || match ReadSegment(d, offset, end)
       case None => false
       case Some(i) =>
         && FramesReadable(d, offset + i.headerSize, i.body, i.first, i.last)
         && ChainReadable(d, offset + i.headerSize + i.body, end)
  }

  lemma {:induction false} SameFrameRead(x: bytes, y: bytes, lo: nat, hi: nat, offset: nat, end: nat, sequence: nat)
    requires SameBytes(x, y, lo, hi) && lo <= offset <= end <= hi
    ensures ReadFrame(x, offset, end, sequence) == ReadFrame(y, offset, end, sequence)
  {
    hide CheckFrameHeader, CheckCommit, Un;
    if end - offset >= 32 {
      SameSlice(x, y, lo, hi, offset, offset + 32);
      var length := 32 + Un(x[offset..offset + 32][16..20]) * 20;
      if length + 32 <= end - offset {
        SameSlice(x, y, lo, hi, offset, offset + length + 32);
      }
    }
  }

  lemma {:induction false} SameSlice(x: bytes, y: bytes, lo: nat, hi: nat, a: nat, b: nat)
    requires SameBytes(x, y, lo, hi) && lo <= a <= b <= hi
    ensures x[a..b] == y[a..b]
  {
    SubSlice(x, lo, hi, a - lo, b - lo);
    SubSlice(y, lo, hi, a - lo, b - lo);
  }

  lemma {:induction false} SameSegmentRead(x: bytes, y: bytes, lo: nat, hi: nat, offset: nat)
    requires SameBytes(x, y, lo, hi) && lo <= offset
    ensures ReadSegment(x, offset, hi) == ReadSegment(y, offset, hi)
  {
    hide Sealed, LongInfo, ShortInfo, SegmentInRange;
    if offset + 32 <= hi {
      SameSlice(x, y, lo, hi, offset, offset + 8);
      SameSlice(x, y, lo, hi, offset, offset + 32);
      if offset + 64 <= hi {
        SameSlice(x, y, lo, hi, offset, offset + 64);
      }
    }
  }

  /** One less, as a 64-bit counter. */
  function Before(sequence: nat): nat { (sequence + TWO64 - 1) % TWO64 }

  /** Whether a 64-bit counter that started at `first` has arrived behind `last`. */
  lemma {:induction false} CounterArrived(first: nat, last: nat, count: nat)
    requires 1 <= first <= last < TWO64 && count <= TWO64 / 2
    ensures Before((first + count) % TWO64) == last <==> count == last - first + 1
  {
    if first + count < TWO64 {
      assert (first + count) % TWO64 == first + count;
      LastSequence(first + count);
    } else {
      assert (first + count) % TWO64 == first + count - TWO64;
      if first + count == TWO64 {
        LastSequence(TWO64);
      } else {
        LastSequence(first + count - TWO64);
      }
    }
  }

  /** The run seen from frame j on, and the whole run. */
  ghost predicate RunFrom(d: bytes, base: nat, end: nat, first: nat, j: nat, position: nat, sequence: nat, time: int)
  {
    var rest := RunOfFrames(d, position, end, sequence, time);
    RunOfFrames(d, base, end, first, 0) == rest.(count := rest.count + j)
  }

  /** The writes of the frame loop on any image: one per frame that reads. */
  function FrameCopyOps(d: bytes, position: nat, end: nat, sequence: nat, destination: nat): seq<Io>
    decreases end - position
  {
    if position >= end then []
    else
      match ReadFrame(d, position, end, sequence)
      case Complete(data, _) =>
        [Db(Write(destination, data))]
        + FrameCopyOps(d, position + |data|, end, (sequence + 1) % TWO64, destination + |data|)
      case _ => []
  }

  /** They stay within the copied extent. */
  lemma {:induction false} FrameCopyKeeps(disk: Disk, d: bytes, position: nat, end: nat, sequence: nat,
                                          destination: nat, lo: nat, hi: nat)
    requires position <= end && lo <= hi <= |Volatile(disk.db)|
    requires Apart(lo, hi, destination, destination + (end - position))
    ensures SameBytes(Volatile(Execute(disk, FrameCopyOps(d, position, end, sequence, destination)).db),
                      Volatile(disk.db), lo, hi)
    decreases end - position
  {
    hide ReadFrame, Volatile, Execute;
    ExecuteNothing(disk);
    if position < end && ReadFrame(d, position, end, sequence).Complete? {
      var data := ReadFrame(d, position, end, sequence).data;
      var io, rest := Db(Write(destination, data)), FrameCopyOps(d, position + |data|, end, (sequence + 1) % TWO64,
                         destination + |data|);
      ExecuteOne(disk, io);
      ExecuteConcat(disk, [io], rest);
      WriteKeeps(disk, Volatile(disk.db), lo, hi, destination, data);
      FrameCopyKeeps(Execute(disk, [io]), d, position + |data|, end, (sequence + 1) % TWO64, destination + |data|, lo,
                     hi);
    }
  }

  /** On a run of whole frames they are the writes of those frames, and all read. */
  lemma {:induction false} FrameCopyOf(d: bytes, base: nat, first: nat, batches: seq<Batch>, j: nat, destination: nat)
    requires ValidBatches(batches) && FramesAt(d, base, first, batches) && j <= |batches| && batches != []
    requires U64(first + |batches| - 1)
    ensures ValidBatches(batches[..j])
    ensures FrameOps(destination, first, batches)
         == FrameOps(destination, first, batches[..j])
            + FrameCopyOps(d, base + BodyLength(batches[..j]), base + BodyLength(batches), (first + j) % TWO64,
                           destination + BodyLength(batches[..j]))
    decreases |batches| - j
  {
    hide ReadFrame, FramesAt, BodyLength, ValidBatch, FrameOps, Frame, FrameLength, FrameCopyOps;
    var end := base + BodyLength(batches);
    if j == |batches| {
      assert batches[..j] == batches;
      FrameCopyNext(d, end, end, (first + j) % TWO64, destination + BodyLength(batches));
    } else {
      ReadFrameAt(d, base, first, batches, j, end);
      BodyLengthPrefix(batches, j);
      assert ValidBatch(batches[j]);
      FrameSize(first + j, batches[j]);
      NextSequence(first + j);
      FrameOpsNext(destination, first, batches, j);
      FrameCopyOf(d, base, first, batches, j + 1, destination);
      var f := Frame(first + j, batches[j]);
      var io := Db(Write(destination + BodyLength(batches[..j]), f));
      var rest := FrameCopyOps(d, base + BodyLength(batches[..j + 1]), end, (first + (j + 1)) % TWO64,
                               destination + BodyLength(batches[..j + 1]));
      FrameCopyNext(d, base + BodyLength(batches[..j]), end, first + j, destination + BodyLength(batches[..j]));
      var done := FrameOps(destination, first, batches[..j]);
      assert (done + [io]) + rest == done + ([io] + rest);
    }
  }

  lemma {:induction false} FramesCopied(d: bytes, base: nat, first: nat, batches: seq<Batch>, destination: nat)
    requires ValidBatches(batches) && FramesAt(d, base, first, batches) && batches != [] && U64(first + |batches| - 1)
    ensures FrameCopyOps(d, base, base + BodyLength(batches), first, destination)
              == FrameOps(destination, first, batches)
    ensures FramesReadable(d, base, BodyLength(batches), first, first + |batches| - 1)
  {
    hide RunOfFrames, FramesAt, BodyLength, ValidBatch, FrameCopyOps, Frame;
    NoFrames(batches);
    NextSequence(first);
    FrameCopyOf(d, base, first, batches, 0, destination);
    RunAccepts(d, base, first, batches, 0, 0);
    assert batches[..0] == [];
  }

  /** The frame loop shared by copy and checkpoint, on any image whose source the
      copy does not touch: frames re-read from one place and written, one by one,
      to another, until the first that does not read. */
  method CopyFrames(files: Files, fromWal: bool, source: nat, body: nat, first: nat, last: nat, destination: nat)
    returns (status: Status, next: nat)
    requires 1 <= first <= last < TWO64 && body <= WAL_CAPACITY
    requires fromWal || (&& source + body <= |Volatile(files.disk.db)|
                         && Apart(source, source + body, destination, destination + body))
    modifies files
    ensures status == Success || status == IoError || status == InvalidDatabase
    ensures var d := old(if fromWal then Volatile(files.disk.wal) else Volatile(files.disk.db));
            var ops := FrameCopyOps(d, source, source + body, first, destination);
            && (status == Success ==>
                  FramesReadable(d, source, body, first, last) && files.disk == Execute(old(files.disk), ops)
                    && next == destination + body)
            && (status == InvalidDatabase ==>
                  !FramesReadable(d, source, body, first, last) && files.disk == Execute(old(files.disk), ops))
            && (status == IoError ==> StoppedIn(old(files.disk), ops, files.disk))
  {
    hide ReadFrame, FrameCopyOps, Execute, Volatile, StoppedIn, SameBytes, RunFrom, Records, LastTimeOf, RunOfFrames,
      Before, Apart, FramesReadable;
    var position: nat, end, sequence: nat := source, source + body, first;
    next := destination;
    status := Success;
    ghost var start := files.disk;
    ghost var v := if fromWal then Volatile(start.wal) else Volatile(start.db);
    ghost var whole := FrameCopyOps(v, source, end, first, destination);
    ghost var done: seq<Io>, j, time := [], 0, 0;
    RunStart(v, source, end, first);
    ExecuteNothing(start);
    assert [] + whole == whole;
    if !fromWal {
      SelfSame(v, source, end);
    }
    while position < end
      invariant source <= position <= end && next == destination + (position - source) && 84 * j <= position - source
      invariant done + FrameCopyOps(v, position, end, sequence, next) == whole && files.disk == Execute(start, done)
      invariant if fromWal then files.disk.wal == start.wal else SameBytes(Volatile(files.disk.db), v, source, end)
      invariant sequence == (first + j) % TWO64 && RunFrom(v, source, end, first, j, position, sequence, time)
      decreases end - position
    {
      var d := if fromWal then Volatile(files.disk.wal) else Volatile(files.disk.db);
      if !fromWal {
        SameFrameRead(d, v, source, end, position, end, sequence);
      }
      FrameCopyNext(v, position, end, sequence, next);
      RunReads(v, source, end, first, j, position, sequence, time);
      match ReadFrame(d, position, end, sequence) {
        case Complete(data, count) =>
          ghost var before, io := files.disk, Db(Write(next, data));
          ghost var rest := FrameCopyOps(v, position + |data|, end, (sequence + 1) % TWO64, next + |data|);
          assert whole == (done + [io]) + rest;
          var error := files.Issue(Db(Write(next, data)));
          if error {
            StoppedInside(start, done, io, whole, files.disk);
            status := IoError;
            return;
          }
          ExecuteSnoc(start, done, io);
          if !fromWal {
            ApartWithin(source, end, destination, body, next, |data|);
            WriteKeeps(before, v, source, end, next, data);
          }
          done := done + [io];
          position := position + |data|;
          next := next + |data|;
          sequence := (sequence + 1) % TWO64;
          j := j + 1;
          time := LastTimeOf(Records(data, count));
        case _ =>
          assert done + [] == done;
          NotWhole(v, source, body, first, last);
          status := InvalidDatabase;
          return;
      }
    }
    FrameCopyNext(v, position, end, sequence, next);
    assert done + [] == done;
    RunArrives(v, source, body, first, last, j, sequence, time);
    if Before(sequence) != last {
      status := InvalidDatabase;
    }
  }

  lemma {:induction false} ApartWithin(lo: nat, hi: nat, destination: nat, body: nat, next: nat, length: nat)
    requires Apart(lo, hi, destination, destination + body) && destination <= next
    requires next + length <= destination + body
    ensures Apart(lo, hi, next, next + length)
  {
  }

  lemma {:induction false} SelfSame(d: bytes, lo: nat, hi: nat)
    requires lo <= hi <= |d|
    ensures SameBytes(d, d, lo, hi)
  {
  }

  lemma {:induction false} FrameCopyNext(d: bytes, position: nat, end: nat, sequence: nat, destination: nat)
    requires position <= end
    ensures var ops := FrameCopyOps(d, position, end, sequence, destination);
            if position >= end then ops == []
            else
              match ReadFrame(d, position, end, sequence)
              case Complete(data, _) =>
                ops == [Db(Write(destination, data))]
                       + FrameCopyOps(d, position + |data|, end, (sequence + 1) % TWO64, destination + |data|)
              case _ => ops == []
  {
    hide ReadFrame;
  }

  lemma {:induction false} RunStart(d: bytes, base: nat, end: nat, first: nat)
    requires first < TWO64
    ensures RunFrom(d, base, end, first, 0, base, first, 0) && first % TWO64 == first
  {
    hide RunOfFrames;
  }

  lemma {:induction false} RunReads(d: bytes, base: nat, end: nat, first: nat, j: nat, position: nat, sequence: nat,
                                    time: int)
    requires RunFrom(d, base, end, first, j, position, sequence, time) && position < end
    requires sequence == (first + j) % TWO64
    ensures var r := ReadFrame(d, position, end, sequence);
            if r.Complete? then
              && RunFrom(d, base, end, first, j + 1, position + |r.data|, (sequence + 1) % TWO64,
                         LastTimeOf(Records(r.data, r.count)))
              && |r.data| >= 84 && (sequence + 1) % TWO64 == (first + (j + 1)) % TWO64
            else !RunOfFrames(d, base, end, first, 0).whole
  {
    hide ReadFrame, Records, LastTimeOf;
    CountOn(first, j);
  }

  lemma {:induction false} CountOn(first: nat, j: nat)
    ensures ((first + j) % TWO64 + 1) % TWO64 == (first + (j + 1)) % TWO64
  {
    NextMod(first + j, TWO64);
    NextMod((first + j) % TWO64, TWO64);
  }

  lemma {:induction false} NotWhole(d: bytes, base: nat, body: nat, first: nat, last: nat)
    ensures !RunOfFrames(d, base, base + body, first, 0).whole ==> !FramesReadable(d, base, body, first, last)
  {
    hide RunOfFrames;
  }

  /** At the end of the run the counter tells whether the frames were as many as the
      header says. */
  lemma {:induction false} RunArrives(d: bytes, base: nat, body: nat, first: nat, last: nat, j: nat, sequence: nat,
                                      time: int)
    requires RunFrom(d, base, base + body, first, j, base + body, sequence, time)
    requires 1 <= first <= last < TWO64 && j <= TWO64 / 2 && sequence == (first + j) % TWO64
    ensures FramesReadable(d, base, body, first, last) <==> Before(sequence) == last
  {
    hide RunOfFrames, Before, RunFrom;
    RunEnds(d, base, base + body, first, j, base + body, sequence, time);
    CounterArrived(first, last, j);
  }

  lemma {:induction false} RunEnds(d: bytes, base: nat, end: nat, first: nat, j: nat, position: nat, sequence: nat,
                                   time: int)
    requires RunFrom(d, base, end, first, j, position, sequence, time) && position >= end
    ensures RunOfFrames(d, base, end, first, 0) == FrameRun(j, true, time)
  {
    hide ReadFrame;
  }

  // --- the whole chain -----------------------------------------------------

  /** What a copy keeps: all segments, or those that do not expire. */
  ghost function Selected(segs: seq<Segment>, filter: bool, cutoff: int): (kept: seq<Segment>)
    requires ValidSegments(segs)
    ensures ValidSegments(kept) && |kept| <= |segs|
  {
    if filter then Kept(segs, cutoff) else segs
  }

  lemma {:induction false} SelectedNext(segs: seq<Segment>, filter: bool, cutoff: int, i: nat)
    requires ValidSegments(segs) && i < |segs|
    ensures ValidSegments(segs[..i]) && ValidSegments(segs[..i + 1]) && ValidSegment(segs[i])
    ensures Selected(segs[..i + 1], filter, cutoff)
         == Selected(segs[..i], filter, cutoff) + (if filter && Expires(segs[i], cutoff) then [] else [segs[i]])
    ensures |Selected(segs[..i], filter, cutoff)| <= i
  {
    assert segs[..i + 1][..i] == segs[..i];
    assert segs[..i + 1] == segs[..i] + [segs[i]];
  }

  /** What is kept of a prefix is a prefix of what is kept. */
  lemma {:induction false} SelectedPrefix(segs: seq<Segment>, filter: bool, cutoff: int, i: nat)
    requires ValidSegments(segs) && i <= |segs|
    ensures ValidSegments(segs[..i])
    ensures Selected(segs[..i], filter, cutoff) <= Selected(segs, filter, cutoff)
    decreases |segs| - i
  {
    hide ValidSegment, Selected, Expires;
    if i == |segs| {
      assert segs[..i] == segs;
    } else {
      SelectedNext(segs, filter, cutoff, i);
      SelectedPrefix(segs, filter, cutoff, i + 1);
      var more := if filter && Expires(segs[i], cutoff) then [] else [segs[i]];
      StillPrefix(Selected(segs[..i], filter, cutoff), more, Selected(segs, filter, cutoff));
    }
  }

  lemma {:induction false} StillPrefix<T>(a: seq<T>, b: seq<T>, c: seq<T>)
    requires a + b <= c
    ensures a <= c
  {
  }

  lemma {:induction false} SelectedShorter(segs: seq<Segment>, filter: bool, cutoff: int)
    requires ValidSegments(segs)
    ensures ChainLength(Selected(segs, filter, cutoff)) <= ChainLength(segs)
  {
    KeptSubset(segs, cutoff);
  }

  lemma {:induction false} CopyOpsSnoc(destination: nat, segs: seq<Segment>, s: Segment)
    requires ValidSegments(segs) && ValidSegment(s)
    ensures ValidSegments(segs + [s])
    ensures CopyOps(destination, segs + [s])
         == CopyOps(destination, segs)
            + SegmentOps(destination + ChainLength(segs), s, PreviousLink(destination, segs),
                         SkipLink(destination, segs))
    ensures ChainLength(segs + [s]) == ChainLength(segs) + SegmentSize(s)
    ensures LinkTo(destination, segs + [s], |segs| + 1) == destination + ChainLength(segs)
  {
    hide ValidSegment, SegmentOps;
    var all := segs + [s];
    assert all[..|segs|] == segs;
  }

  lemma {:induction false} CopyOpsPrefix(destination: nat, segs: seq<Segment>, front: seq<Segment>)
    requires ValidSegments(segs) && front <= segs
    ensures ValidSegments(front) && CopyOps(destination, front) <= CopyOps(destination, segs)
    decreases |segs|
  {
    hide ValidSegment, SegmentOps;
    if front == segs {
    } else {
      CopyOpsPrefix(destination, segs[..|segs| - 1], front);
    }
  }

  /** The table of the copied chain, seen from the chain with one more segment. */
  lemma {:induction false} TableGrows(table: seq<nat>, root: nat, segs: seq<Segment>, s: Segment)
    requires TableOf(table, root, segs, |segs|)
    ensures TableOf(table, root, segs + [s], |segs|)
  {
    hide ChainLength;
    var all := segs + [s];
    forall j | 0 <= j < TABLE_SIZE
      ensures table[j] == LinkTo(root, all, LastMultiple(|segs|, j))
    {
      var n := LastMultiple(|segs|, j);
      if n > 0 {
        assert all[..n - 1] == segs[..n - 1];
      }
    }
  }

  /** Recording the copied segment: its skip link came from the table. */
  lemma {:induction false} TableAdvances(table: seq<nat>, root: nat, segs: seq<Segment>, s: Segment)
    requires TableOf(table, root, segs, |segs|) && |segs| + 1 < Pow2(TABLE_SIZE)
    ensures BitOf(|segs| + 1) < TABLE_SIZE
    ensures table[BitOf(|segs| + 1)] == SkipLink(root, segs)
    ensures TableOf(Record24(table, BitOf(|segs| + 1), root + ChainLength(segs)), root, segs + [s], |segs| + 1)
  {
    hide TableOf, BitOf, LowBit, ChainLength;
    TableGrows(table, root, segs, s);
    TableKept(table, root, segs + [s], |segs|);
    var all, t := segs + [s], |segs| + 1 - LowBit(|segs| + 1);
    assert all[..|segs|] == segs;
    if t > 0 {
      assert all[..t - 1] == segs[..t - 1];
    }
  }

  ghost predicate Source(disk: Disk, root: nat, end: nat, destination: nat, segs: seq<Segment>)
  {
    && ValidSegments(segs) && Located(Volatile(disk.db), root, segs)
    && root >= DATA_START && end == root + ChainLength(segs)
    && (end <= destination || destination + ChainLength(segs) <= root)
  }

  /** The header a copy writes: patched where it has links. */
  function CopiedHeader(d: bytes, offset: nat, i: SegmentInfo, previous: nat, skip: nat): bytes
    requires (i.headerSize == 32 || i.headerSize == 64) && offset + i.headerSize <= |d|
  {
    var h := d[offset..offset + i.headerSize];
    if i.headerSize == 64 then Patch(h, previous, skip) else h
  }

  /** The writes of one copied segment, on any image. */
  function SegmentCopyOps(d: bytes, offset: nat, i: SegmentInfo, destination: nat, previous: nat, skip: nat): seq<Io>
    requires (i.headerSize == 32 || i.headerSize == 64) && offset + i.headerSize <= |d|
  {
    [Db(Write(destination, CopiedHeader(d, offset, i, previous, skip)))]
    + FrameCopyOps(d, offset + i.headerSize, offset + i.headerSize + i.body, i.first, destination + i.headerSize)
  }

  /** A header as `read_segment` returns it, of a segment that ends within the file. */
  ghost predicate Bounded(d: bytes, offset: nat, i: SegmentInfo)
  {
    && (i.headerSize == 32 || i.headerSize == 64) && offset + i.headerSize + i.body <= |d|
    && 1 <= i.first <= i.last < TWO64 && i.body <= WAL_CAPACITY
  }

  lemma {:induction false} ReadBounded(d: bytes, offset: nat, end: nat)
    requires end <= |d| && ReadSegment(d, offset, end).Some?
    ensures Bounded(d, offset, ReadSegment(d, offset, end).value)
  {
    hide Sealed, Un;
    Un8Range(d[offset..offset + 32][16..24]);
    if offset + 64 <= |d| {
      Un8Range(d[offset..offset + 64][16..24]);
    }
  }

  lemma {:induction false} SegmentCopyKeeps(disk: Disk, d: bytes, offset: nat, i: SegmentInfo, destination: nat,
                                            previous: nat, skip: nat, lo: nat, hi: nat)
    requires Bounded(d, offset, i) && lo <= hi <= |Volatile(disk.db)|
    requires Apart(lo, hi, destination, destination + i.headerSize + i.body)
    ensures SameBytes(Volatile(Execute(disk, SegmentCopyOps(d, offset, i, destination, previous, skip)).db),
                      Volatile(disk.db), lo, hi)
  {
    hide Volatile, Execute, FrameCopyOps, Patch;
    var h := CopiedHeader(d, offset, i, previous, skip);
    var io := Db(Write(destination, h));
    var start, end := offset + i.headerSize, offset + i.headerSize + i.body;
    var rest := FrameCopyOps(d, start, end, i.first, destination + i.headerSize);
    ExecuteOne(disk, io);
    ExecuteConcat(disk, [io], rest);
    SelfSame(Volatile(disk.db), lo, hi);
    WriteKeeps(disk, Volatile(disk.db), lo, hi, destination, h);
    FrameCopyKeeps(Execute(disk, [io]), d, start, end, i.first, destination + i.headerSize, lo, hi);
  }

  /** On a segment of a chain they are the writes of that segment with its new links. */
  lemma {:induction false} SegmentCopied(d: bytes, offset: nat, s: Segment, p: nat, k: nat, destination: nat,
                                         previous: nat, skip: nat)
    requires ValidSegment(s) && offset + SegmentSize(s) <= |d|
    requires d[offset..offset + SegmentSize(s)] == SegmentBytes(s, p, k)
    ensures Bounded(d, offset, InfoOf(s, p, k))
    ensures SegmentCopyOps(d, offset, InfoOf(s, p, k), destination, previous, skip)
              == SegmentOps(destination, s, previous, skip)
    ensures FramesReadable(d, offset + HeaderSize(s), BodyLength(s.batches), s.first, LastOf(s))
  {
    hide Patch, SegmentBytes, HeaderBytes, BodyLength, ValidBatches, Times, Sorted, FramesAt, FrameCopyOps, FrameOps,
      FramesReadable, Lowest, Highest;
    HeaderCopied(d, offset, s, p, k, previous, skip);
    SegmentFrames(d, offset, s, p, k);
    FramesCopied(d, offset + HeaderSize(s), s.first, s.batches, destination + HeaderSize(s));
  }

  /** One segment: patched header, then frames. */
  method CopySegment(files: Files, offset: nat, i: SegmentInfo, destination: nat, previous: nat, skip: nat)
    returns (status: Status, next: nat)
    requires Bounded(Volatile(files.disk.db), offset, i)
    requires Apart(offset, offset + i.headerSize + i.body, destination, destination + i.headerSize + i.body)
    modifies files
    ensures status == Success || status == IoError || status == InvalidDatabase
    ensures var d := old(Volatile(files.disk.db));
            var ops := SegmentCopyOps(d, offset, i, destination, previous, skip);
            && (status == Success ==>
                  && FramesReadable(d, offset + i.headerSize, i.body, i.first, i.last)
                  && files.disk == Execute(old(files.disk), ops) && next == destination + i.headerSize + i.body)
            && (status == InvalidDatabase ==> !FramesReadable(d, offset + i.headerSize, i.body, i.first, i.last))
            && (status == IoError ==> StoppedIn(old(files.disk), ops, files.disk))
  {
    hide FrameCopyOps, Execute, Volatile, StoppedIn, Patch, FramesReadable, SameBytes;
    ghost var start := files.disk;
    var v := Volatile(files.disk.db);
    next := destination;
    var write := Db(Write(destination, CopiedHeader(v, offset, i, previous, skip)));
    var error := files.Issue(write);
    ghost var lo, hi := offset + i.headerSize, offset + i.headerSize + i.body;
    ghost var frames := FrameCopyOps(v, lo, hi, i.first, destination + i.headerSize);
    if error {
      StoppedEarlier(start, [write], frames, files.disk);
      status := IoError;
      return;
    }
    ExecuteOne(start, write);
    ExecuteConcat(start, [write], frames);
    SelfSame(v, lo, hi);
    WriteKeeps(start, v, lo, hi, destination, CopiedHeader(v, offset, i, previous, skip));
    SameCopy(Volatile(files.disk.db), v, lo, i.body, i.first, i.last, destination + i.headerSize);
    status, next := CopyFrames(files, false, offset + i.headerSize, i.body, i.first, i.last,
                               destination + i.headerSize);
    if status == IoError {
      StoppedLater(start, [write], frames, files.disk);
    }
  }

  /** The n-th segment of a copy takes its skip link from the table and enters it. */
  method CopyLinked(files: Files, offsets: array<nat>, n: nat, offset: nat, i: SegmentInfo, destination: nat,
                    previous: nat)
    returns (status: Status, next: nat)
    requires offsets.Length == TABLE_SIZE && n > 0 && BitOf(n) < TABLE_SIZE
    requires Bounded(Volatile(files.disk.db), offset, i)
    requires Apart(offset, offset + i.headerSize + i.body, destination, destination + i.headerSize + i.body)
    modifies files, offsets
    ensures status == Success || status == IoError || status == InvalidDatabase
    ensures var d := old(Volatile(files.disk.db));
            var ops := SegmentCopyOps(d, offset, i, destination, previous, old(offsets[BitOf(n)]));
            && (status == Success ==>
                  && FramesReadable(d, offset + i.headerSize, i.body, i.first, i.last)
                  && files.disk == Execute(old(files.disk), ops) && next == destination + i.headerSize + i.body
                  && offsets[..] == Record24(old(offsets[..]), BitOf(n), destination))
            && (status == InvalidDatabase ==> !FramesReadable(d, offset + i.headerSize, i.body, i.first, i.last))
            && (status == IoError ==> StoppedIn(old(files.disk), ops, files.disk))
  {
    hide Volatile, Execute, StoppedIn, SegmentCopyOps, FramesReadable, BitOf, Record24;
    var bit := FindBit(n);
    status, next := CopySegment(files, offset, i, destination, previous, offsets[bit]);
    if status == Success {
      RecordOffset(offsets, bit, destination);
    }
  }

  /** What a copy of frames does depends on their bytes only. */
  lemma {:induction false} SameCopy(x: bytes, y: bytes, base: nat, body: nat, first: nat, last: nat, destination: nat)
    requires SameBytes(x, y, base, base + body)
    ensures FrameCopyOps(x, base, base + body, first, destination)
              == FrameCopyOps(y, base, base + body, first, destination)
    ensures FramesReadable(x, base, body, first, last) == FramesReadable(y, base, body, first, last)
    ensures base + body <= |x|
  {
    hide FrameCopyOps, RunOfFrames;
    SameRun(x, y, base, base + body, base, first, 0, destination);
  }

  lemma {:induction false} SameRun(x: bytes, y: bytes, lo: nat, hi: nat, position: nat, sequence: nat, time: int,
                                   destination: nat)
    requires SameBytes(x, y, lo, hi) && lo <= position <= hi
    ensures FrameCopyOps(x, position, hi, sequence, destination) == FrameCopyOps(y, position, hi, sequence, destination)
    ensures RunOfFrames(x, position, hi, sequence, time) == RunOfFrames(y, position, hi, sequence, time)
    decreases hi - position
  {
    hide ReadFrame, SameBytes, Records, LastTimeOf;
    SameFrameRead(x, y, lo, hi, position, hi, sequence);
    var r := ReadFrame(x, position, hi, sequence);
    if position < hi && r.Complete? {
      SameRun(x, y, lo, hi, position + |r.data|, (sequence + 1) % TWO64, LastTimeOf(Records(r.data, r.count)),
              destination + |r.data|);
    }
  }

  lemma {:induction false} HeaderCopied(v: bytes, offset: nat, s: Segment, p: nat, k: nat, previous: nat, skip: nat)
    requires ValidSegment(s) && offset + SegmentSize(s) <= |v|
    requires v[offset..offset + SegmentSize(s)] == SegmentBytes(s, p, k)
    ensures v[offset..offset + HeaderSize(s)] == HeaderBytes(s, p, k)
    ensures HeaderBytes(s, previous, skip)
         == if s.kind == Plain then HeaderBytes(s, p, k) else Patch(HeaderBytes(s, p, k), previous, skip)
  {
    hide Patch, ValidSegment, BodyLength, BodyBytes;
    SubSlice(v, offset, offset + SegmentSize(s), 0, HeaderSize(s));
    HeaderFirst(s, p, k);
    if s.kind != Plain {
      PatchLinks(s, p, k, previous, skip);
    }
  }

  lemma {:induction false} HeaderFirst(s: Segment, p: nat, k: nat)
    requires ValidSegment(s)
    ensures SegmentBytes(s, p, k)[0..HeaderSize(s)] == HeaderBytes(s, p, k)
  {
  }

  lemma {:induction false} SegmentFrames(v: bytes, offset: nat, s: Segment, p: nat, k: nat)
    requires ValidSegment(s) && offset + SegmentSize(s) <= |v|
    requires v[offset..offset + SegmentSize(s)] == SegmentBytes(s, p, k)
    ensures FramesAt(v, offset + HeaderSize(s), s.first, s.batches)
  {
    hide SegmentBytes, BodyBytes, BodyLength, ValidSegment;
    SegmentBody(s, p, k);
    SubSlice(v, offset, offset + SegmentSize(s), HeaderSize(s), SegmentSize(s));
  }

  /** Reading segment i of the source, whatever was copied so far. */
  lemma {:induction false} SourceSegment(disk: Disk, root: nat, end: nat, destination: nat, segs: seq<Segment>, i: nat)
    requires Source(disk, root, end, destination, segs) && i < |segs| && end <= DATABASE_CAPACITY
    ensures ValidSegments(segs) && ValidSegment(segs[i])
    ensures var v, o, s := Volatile(disk.db), OffsetOf(root, segs, i), segs[i];
            var p, k := LinkTo(root, segs, i), LinkTo(root, segs, i + 1 - LowBit(i + 1));
            && o < end && o + SegmentSize(s) == OffsetOf(root, segs, i + 1) <= end <= |v|
            && ReadSegment(v, o, end) == Some(InfoOf(s, p, k))
            && v[o..o + SegmentSize(s)] == SegmentBytes(s, p, k)
            && FramesAt(v, o + HeaderSize(s), s.first, s.batches)
  {
    hide ReadSegment, SegmentBytes, InfoOf, FramesAt, LowBit, LinkTo, ChainLength, Located, ValidSegment, BodyLength,
      PreviousLink, SkipLink, Volatile;
    assert ValidSegment(segs[i]);
    SegmentNotEmpty(segs[i]);
    var v := Volatile(disk.db);
    LocatedSegment(v, root, segs, i);
    LinksInRange(root, segs, i);
    ReadChain(v, root, segs, i);
    OffsetIncreases(root, segs, i, i + 1);
    ChainLengthPrefix(segs, i + 1);
  }

  /** The source is still in place after any part of the copy. */
  lemma {:induction false} SourceKept(disk: Disk, root: nat, end: nat, destination: nat, segs: seq<Segment>,
                                      copied: seq<Segment>)
    requires Source(disk, root, end, destination, segs) && ValidSegments(copied)
    requires ChainLength(copied) <= ChainLength(segs)
    ensures Source(Execute(disk, CopyOps(destination, copied)), root, end, destination, segs)
  {
    hide ChainBytes, ChainLength, ValidSegment, CopyOps, Execute, Volatile, Splice;
    CopyOpsAmount(disk, destination, copied);
    ChainSize(destination, copied);
    SpliceKeeps(Volatile(disk.db), destination, ChainBytes(destination, copied), root, end);
    SpliceLength(Volatile(disk.db), destination, ChainBytes(destination, copied));
  }

  lemma {:induction false} SpliceLength(d: bytes, offset: nat, data: bytes)
    ensures |Splice(d, offset, data)| >= |d|
  {
  }

  /** `copy_segments`: rebuilds at `destination` the chain of the segments that
      are kept, with a table of 24 offsets for the links, and syncs. On any image it
      reports damage exactly when some header or frame it copies does not read. */
  method CopySegments(files: Files, root: nat, end: nat, destination: nat, filter: bool, cutoff: int,
                      ghost good: bool, ghost segs: seq<Segment>)
    returns (status: Status, newEnd: nat, newTail: nat)
    requires root <= end <= DATABASE_CAPACITY && U64(cutoff) && end <= |Volatile(files.disk.db)|
    requires end <= destination || destination + (end - root) <= root
    requires good ==> Source(files.disk, root, end, destination, segs)
    modifies files
    ensures status == Success || status == IoError || status == InvalidDatabase
    ensures !filter && status == Success ==>
              ChainReadable(old(Volatile(files.disk.db)), root, end) && newEnd == destination + (end - root)
    ensures !filter && status == InvalidDatabase ==> !ChainReadable(old(Volatile(files.disk.db)), root, end)
    ensures good ==> status != InvalidDatabase && ValidSegments(segs)
    ensures good && status == Success ==>
              var kept := Selected(segs, filter, cutoff);
              && files.disk == Execute(old(files.disk), CopyOps(destination, kept) + [SyncDb])
              && newEnd == destination + ChainLength(kept) && newTail == LinkTo(destination, kept, |kept|)
    ensures good && status == IoError ==>
              StoppedIn(old(files.disk), CopyOps(destination, Selected(segs, filter, cutoff)) + [SyncDb], files.disk)
  {
    hide Source, ReadSegment, SegmentBytes, FramesAt, LowBit, LinkTo, ChainLength, BodyLength, Volatile, Execute,
      StoppedIn, CopyOps, SegmentOps, Selected, TableOf, BitOf, Pow2, SkipLink, OffsetOf, Lowest, Highest,
      ValidBatches, Times, Sorted, Expires, ReadFrame, SegmentCopyOps, FramesReadable, SameBytes, Bounded,
      ValidSegment, InfoOf, PreviousLink, ChainReadable, Record24, HeaderSize, SegmentSize, LastOf, LowestOf, Perform,
      StoppedAt, ValidSegments;
    var offsets := new nat[TABLE_SIZE](_ => 0);
    var offset: nat := root;
    var n: nat := 0;
    newEnd, newTail, status := destination, 0, Success;
    ghost var i := 0;
    ghost var start, v0 := files.disk, Volatile(files.disk.db);
    ghost var kept: seq<Segment> := [];
    SelfSame(v0, root, end);
    if good {
      CopyBegins(start, root, end, destination, segs, filter, cutoff, offsets[..]);
    }
    while offset < end
      invariant root + SEGMENT_MIN * n <= offset <= end && status == Success
      invariant destination <= newEnd <= destination + (offset - root)
      invariant (!filter ==> newEnd == destination + (offset - root))
      invariant SameBytes(Volatile(files.disk.db), v0, root, end)
      invariant !filter ==> ChainReadable(v0, root, end) == ChainReadable(v0, offset, end)
      invariant good ==> Copied(start, root, end, destination, segs, filter, cutoff, i, kept, offset, newEnd,
                                newTail, n, offsets[..])
      invariant good ==> ValidSegments(kept) && files.disk == Execute(start, CopyOps(destination, kept))
      decreases end - offset
    {
      var v := Volatile(files.disk.db);
      var segment := ReadSegment(v, offset, end);
      SameChain(v, v0, root, end, offset);
      ghost var s, p, k := Segment(Plain, 0, []), 0, 0;
      if good {
        CopyAt(start, root, end, destination, segs, filter, cutoff, i, kept, offset, newEnd, newTail, n, offsets[..]);
        s, p, k := segs[i], LinkTo(root, segs, i), LinkTo(root, segs, i + 1 - LowBit(i + 1));
        InfoLinks(s, p, k);
      }
      if segment == None {
        status := InvalidDatabase;
        return;
      }
      var info := segment.value;
      var expires := false;
      if filter {
        var r := SegmentExpires(v, offset, info, cutoff, good, s);
        if r == None {
          status := InvalidDatabase;
          return;
        }
        expires := r.value;
      }
      if !expires {
        n := n + 1;
        FewSegments(n);
        TableIndex(n);
        ghost var skip := offsets[BitOf(n)];
        if good {
          TableAdvances(offsets[..], destination, kept, s);
          CopyOpsSnoc(destination, kept, s);
          SegmentCopied(v, offset, s, p, k, newEnd, newTail, skip);
          LinkBehind(destination, kept, s);
        }
        SegmentCopyKeeps(files.disk, v, offset, info, newEnd, newTail, skip, root, end);
        var next;
        status, next := CopyLinked(files, offsets, n, offset, info, newEnd, newTail);
        if status != Success {
          if good && status == IoError {
            CopyStops(start, destination, segs, filter, cutoff, i, kept, files.disk);
          }
          return;
        }
        SameTwice(Volatile(files.disk.db), v, v0, root, end);
        newEnd, newTail := next, newEnd;
        if good {
          ExecuteConcat(start, CopyOps(destination, kept),
                        SegmentOps(destination + ChainLength(kept), s, PreviousLink(destination, kept),
                                   SkipLink(destination, kept)));
          kept := kept + [s];
        }
      }
      offset := offset + info.headerSize + info.body;
      if good {
        SelectedNext(segs, filter, cutoff, i);
        i := i + 1;
      }
    }
    if good {
      CopyEnds(start, root, end, destination, segs, filter, cutoff, i, kept, offset, newEnd, newTail, n, offsets[..]);
    }
    NothingLeft(v0, offset, end);
    var error := files.Issue(SyncDb);
    if error {
      status := IoError;
      if good {
        StoppedLater(start, CopyOps(destination, kept), [SyncDb], files.disk);
      }
    } else if good {
      ExecuteSnoc(start, CopyOps(destination, kept), SyncDb);
    }
  }

  lemma {:induction false} NothingLeft(d: bytes, offset: nat, end: nat)
    requires offset >= end
    ensures ChainReadable(d, offset, end)
  {
  }

  lemma {:induction false} LinkBehind(destination: nat, kept: seq<Segment>, s: Segment)
    ensures PreviousLink(destination, kept + [s]) == destination + ChainLength(kept)
  {
    assert (kept + [s])[..|kept|] == kept;
  }

  /** Reading the source through an image that agrees with it there. */
  lemma {:induction false} SameChain(v: bytes, v0: bytes, root: nat, end: nat, offset: nat)
    requires SameBytes(v, v0, root, end) && root <= offset < end
    ensures end <= |v|
    ensures var r := ReadSegment(v, offset, end);
            && r == ReadSegment(v0, offset, end)
            && (r == None ==> !ChainReadable(v0, offset, end))
            && (r.Some? ==>
                  var i := r.value;
                  && Bounded(v, offset, i) && i.headerSize + i.body >= SEGMENT_MIN
                  && offset + i.headerSize + i.body <= end
                  && (ChainReadable(v0, offset, end) <==>
                        && FramesReadable(v, offset + i.headerSize, i.body, i.first, i.last)
                        && ChainReadable(v0, offset + i.headerSize + i.body, end)))
  {
    hide ReadSegment, FramesReadable, FrameCopyOps, Bounded;
    SameSegmentRead(v, v0, root, end, offset);
    if ReadSegment(v, offset, end).Some? {
      var i := ReadSegment(v, offset, end).value;
      ReadBounded(v, offset, end);
      SameWithin(v, v0, root, end, offset + i.headerSize, offset + i.headerSize + i.body);
      SameCopy(v, v0, offset + i.headerSize, i.body, i.first, i.last, 0);
    }
  }

  lemma {:induction false} SameWithin(x: bytes, y: bytes, lo: nat, hi: nat, a: nat, b: nat)
    requires SameBytes(x, y, lo, hi) && lo <= a <= b <= hi
    ensures SameBytes(x, y, a, b)
  {
    SameSlice(x, y, lo, hi, a, b);
  }

  lemma {:induction false} SameTwice(x: bytes, y: bytes, z: bytes, lo: nat, hi: nat)
    requires SameBytes(x, y, lo, hi) && SameBytes(y, z, lo, hi)
    ensures SameBytes(x, z, lo, hi)
  {
  }

  /** The state of the copy loop in front of segment i. */
  ghost predicate Copied(start: Disk, root: nat, end: nat, destination: nat, segs: seq<Segment>, filter: bool,
                         cutoff: int, i: nat, kept: seq<Segment>, offset: nat, newEnd: nat, newTail: nat, n: nat,
                         table: seq<nat>)
  {
    && Source(start, root, end, destination, segs)
    && i <= |segs| && ValidSegments(segs[..i]) && kept == Selected(segs[..i], filter, cutoff)
    && offset == OffsetOf(root, segs, i)
    && newEnd == destination + ChainLength(kept) && newTail == PreviousLink(destination, kept)
    && n == |kept| && TableOf(table, destination, kept, |kept|)
  }

  lemma {:induction false} CopyBegins(start: Disk, root: nat, end: nat, destination: nat, segs: seq<Segment>,
                                      filter: bool, cutoff: int, table: seq<nat>)
    requires Source(start, root, end, destination, segs) && table == WalkStart(root).table
    ensures Copied(start, root, end, destination, segs, filter, cutoff, 0, [], root, destination, 0, 0, table)
    ensures CopyOps(destination, []) == [] && Execute(start, []) == start
  {
    hide Located, ValidSegment;
    assert segs[..0] == [];
    TableStart(destination, []);
  }

  /** In front of segment i the header and frames of the source are intact. */
  lemma {:induction false} CopyAt(start: Disk, root: nat, end: nat, destination: nat, segs: seq<Segment>,
                                  filter: bool, cutoff: int,
                                  i: nat, kept: seq<Segment>, offset: nat, newEnd: nat, newTail: nat, n: nat,
                                    table: seq<nat>)
    requires Copied(start, root, end, destination, segs, filter, cutoff, i, kept, offset, newEnd, newTail, n, table)
    requires ValidSegments(kept) && offset < end <= DATABASE_CAPACITY
    ensures i < |segs| && ValidSegments(segs) && ValidSegment(segs[i])
    ensures var v, s := Volatile(Execute(start, CopyOps(destination, kept)).db), segs[i];
            var p, k := LinkTo(root, segs, i), LinkTo(root, segs, i + 1 - LowBit(i + 1));
            && offset + SegmentSize(s) == OffsetOf(root, segs, i + 1) <= end <= |v|
            && ReadSegment(v, offset, end) == Some(InfoOf(s, p, k))
            && v[offset..offset + SegmentSize(s)] == SegmentBytes(s, p, k)
            && FramesAt(v, offset + HeaderSize(s), s.first, s.batches)
            && Apart(offset, offset + SegmentSize(s), newEnd, newEnd + SegmentSize(s))
  {
    hide ReadSegment, SegmentBytes, InfoOf, FramesAt, LowBit, LinkTo, Located, ValidSegment, BodyLength, PreviousLink,
      SkipLink, Volatile, Execute, CopyOps, TableOf, Selected;
    assert segs[..|segs|] == segs;
    SelectedNext(segs, filter, cutoff, i);
    SelectedShorter(segs[..i], filter, cutoff);
    ChainLengthPrefix(segs, i);
    SourceKept(start, root, end, destination, segs, kept);
    SourceSegment(Execute(start, CopyOps(destination, kept)), root, end, destination, segs, i);
  }

  lemma {:induction false} InfoLinks(s: Segment, p: nat, k: nat)
    requires ValidSegment(s)
    ensures var i := InfoOf(s, p, k); i == InfoOf(s, i.previous, i.skip)
    ensures InfoOf(s, p, k).headerSize + InfoOf(s, p, k).body == SegmentSize(s)
    ensures InfoOf(s, p, k).headerSize == HeaderSize(s) && InfoOf(s, p, k).body == BodyLength(s.batches)
    ensures InfoOf(s, p, k).first == s.first && InfoOf(s, p, k).last == LastOf(s)
  {
  }

  lemma {:induction false} FewSegments(n: nat)
    requires SEGMENT_MIN * n <= DATABASE_CAPACITY
    ensures n < Pow2(TABLE_SIZE)
  {
    assert Pow2(8) == 256;
    assert Pow2(16) == 65536;
    assert Pow2(24) == 0x100_0000;
  }

  /** A stop while segment i is copied is a stop in the whole copy. */
  lemma {:induction false} CopyStops(start: Disk, destination: nat, segs: seq<Segment>, filter: bool, cutoff: int,
                                     i: nat, kept: seq<Segment>, after: Disk)
    requires ValidSegments(segs) && i < |segs| && ValidSegments(segs[..i])
    requires kept == Selected(segs[..i], filter, cutoff)
    requires ValidSegments(kept) && ValidSegment(segs[i]) && !(filter && Expires(segs[i], cutoff))
    requires StoppedIn(Execute(start, CopyOps(destination, kept)),
                       SegmentOps(destination + ChainLength(kept), segs[i], PreviousLink(destination, kept),
                                  SkipLink(destination, kept)), after)
    ensures StoppedIn(start, CopyOps(destination, Selected(segs, filter, cutoff)) + [SyncDb], after)
  {
    hide ValidSegment, StoppedIn, Execute, CopyOps, SegmentOps, Selected, ChainLength, Expires, PreviousLink,
      SkipLink;
    var ops := SegmentOps(destination + ChainLength(kept), segs[i], PreviousLink(destination, kept),
                          SkipLink(destination, kept));
    StoppedLater(start, CopyOps(destination, kept), ops, after);
    SelectedNext(segs, filter, cutoff, i);
    SelectedPrefix(segs, filter, cutoff, i + 1);
    CopyOpsSnoc(destination, kept, segs[i]);
    var all := Selected(segs, filter, cutoff);
    CopyOpsPrefix(destination, all, kept + [segs[i]]);
    var whole, part := CopyOps(destination, all) + [SyncDb], CopyOps(destination, kept) + ops;
    assert whole == part + whole[|part|..];
    StoppedEarlier(start, part, whole[|part|..], after);
  }

  lemma {:induction false} CopyEnds(start: Disk, root: nat, end: nat, destination: nat, segs: seq<Segment>,
                                    filter: bool, cutoff: int,
                                    i: nat, kept: seq<Segment>, offset: nat, newEnd: nat, newTail: nat, n: nat,
                                      table: seq<nat>)
    requires Copied(start, root, end, destination, segs, filter, cutoff, i, kept, offset, newEnd, newTail, n, table)
    requires offset >= end
    ensures ValidSegments(segs) && kept == Selected(segs, filter, cutoff)
    ensures newEnd == destination + ChainLength(kept) && newTail == LinkTo(destination, kept, |kept|)
  {
    hide Located, ValidSegment, TableOf, Selected;
    if i < |segs| {
      OffsetIncreases(root, segs, i, |segs|);
    }
    assert segs[..|segs|] == segs;
  }
}
