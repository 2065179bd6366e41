/** The on-disk format by byte positions, and that the readers accept exactly what
    it describes. */
module Layout {
  import opened Bytes
  import opened Checksum
  import opened Frames
  import opened Segments
  import opened Manifests

  // --- records and frames --------------------------------------------------

  lemma {:induction false} PayloadAt(b: Batch, i: nat)
    requires i < |b| && forall j :: 0 <= j < |b| ==> ValidRecord(b[j])
    ensures Payload(b)[20 * i..20 * i + 20] == RecordBytes(b[i])
    decreases |b|
  {
    hide RecordBytes, ValidRecord;
    var front := b[..|b| - 1];
    if i < |front| {
      PayloadAt(front, i);
      SubSlice(Payload(b), 0, 20 * |front|, 20 * i, 20 * i + 20);
      assert Payload(b)[0..20 * |front|] == Payload(front);
    } else {
      assert Payload(b)[20 * |front|..] == RecordBytes(b[i]);
    }
  }

  lemma {:induction false} RecordFields(r: Record)
    requires ValidRecord(r)
    ensures var s := RecordBytes(r);
            && Un(s[0..4]) == r.series && Un(s[4..12]) == r.time
            && r.value == if Un(s[12..20]) < 0x8000_0000_0000_0000 then Un(s[12..20])
                          else Un(s[12..20]) - 0x1_0000_0000_0000_0000
  {
    hide Le, Un;
    var s := RecordBytes(r);
    assert s[0..4] == Le(r.series, 4) && s[4..12] == Le(r.time, 8) && s[12..20] == Le(Unsigned(r.value), 8);
    Un4Le(r.series);
    Un8Le(r.time);
    Un8Le(Unsigned(r.value));
  }

  /** Record i of a frame: series at 32 + 20 i, time at 36 + 20 i, value in two's
      complement at 44 + 20 i. */
  lemma {:induction false} RecordAt(sequence: nat, b: Batch, i: nat)
    requires U64(sequence) && ValidBatch(b) && i < |b|
    ensures var f := Frame(sequence, b);
            && Un(f[32 + 20 * i..36 + 20 * i]) == b[i].series
            && Un(f[36 + 20 * i..44 + 20 * i]) == b[i].time
            && b[i].value == if Un(f[44 + 20 * i..52 + 20 * i]) < 0x8000_0000_0000_0000
                             then Un(f[44 + 20 * i..52 + 20 * i])
                             else Un(f[44 + 20 * i..52 + 20 * i]) - 0x1_0000_0000_0000_0000
  {
    hide Un, RecordBytes, Payload, Seal, Commit, HeadFields;
    var f, o := Frame(sequence, b), 32 + 20 * i;
    PayloadAt(b, i);
    RecordFields(b[i]);
    assert f[32..32 + 20 * |b|] == Payload(b);
    SubSlice(f, 32, 32 + 20 * |b|, 20 * i, 20 * i + 20);
    var r := f[o..o + 20];
    assert r == RecordBytes(b[i]);
    SubSlice(f, o, o + 20, 0, 4);
    SubSlice(f, o, o + 20, 4, 12);
    SubSlice(f, o, o + 20, 12, 20);
  }

  /** The fixed fields of a frame of n records: "TLBATCH!" and its header, and
      "TLCOMMIT" at 32 + 20 n. */
  lemma {:induction false} FrameAt(sequence: nat, b: Batch)
    requires U64(sequence) && ValidBatch(b)
    ensures var f, n, c := Frame(sequence, b), |b|, 32 + 20 * |b|;
            && |f| == 64 + 20 * n
            && f[..8] == [84, 76, 66, 65, 84, 67, 72, 33] && Un(f[8..16]) == sequence && Un(f[16..20]) == n
            && Un(f[20..24]) == 32 + 20 * n && Un(f[24..28]) == 0 && Un(f[28..32]) == Crc(f[..28])
            && f[c..c + 8] == [84, 76, 67, 79, 77, 77, 73, 84] && Un(f[c + 8..c + 16]) == sequence
            && Un(f[c + 16..c + 20]) == n && Un(f[c + 20..c + 24]) == 32 + 20 * n
            && Un(f[c + 24..c + 28]) == Crc(f[..c]) && Un(f[c + 28..c + 32]) == Crc(f[c..c + 28])
  {
    hide Un, Crc, Seal, Payload, Le, Sealed, Commit;
    var f, n, c := Frame(sequence, b), |b|, 32 + 20 * |b|;
    var h := Seal(HeadFields(sequence, n));
    HeadAccepted(sequence, n);
    HeadSeal(h);
    assert f[..32] == h;
    SubSlices(f, 0, 32);
    assert f[0..32] == f[..32];
    CommitAccepted(sequence, b);
    var m := Commit(sequence, b);
    HeadSeal(m);
    assert f[c..c + 32] == m && f[..c] == Body(sequence, b);
    SubSlices(f, c, c + 32);
  }

  lemma {:induction false} HeadSeal(h: bytes)
    requires |h| == 32
    ensures Sealed(h) ==> Crc(h[..28]) == Un(h[28..32])
  {
    assert h[28..] == h[28..32];
  }

  lemma {:induction false} SubSlices(f: bytes, a: nat, b: nat)
    requires a + 32 == b <= |f|
    ensures var h := f[a..b];
            && h[..8] == f[a..a + 8] && h[8..16] == f[a + 8..a + 16] && h[16..20] == f[a + 16..a + 20]
            && h[20..24] == f[a + 20..a + 24] && h[24..28] == f[a + 24..a + 28] && h[28..32] == f[a + 28..a + 32]
            && h[..28] == f[a..a + 28]
  {
    SubSlice(f, a, b, 0, 8);
    SubSlice(f, a, b, 8, 16);
    SubSlice(f, a, b, 16, 20);
    SubSlice(f, a, b, 20, 24);
    SubSlice(f, a, b, 24, 28);
    SubSlice(f, a, b, 28, 32);
    SubSlice(f, a, b, 0, 28);
  }

  /** Four bytes as a number, the first of them the least significant. */
  function WordAt(f: bytes, i: nat): int
    requires i + 4 <= |f|
  {
    (f[i] as int) + 0x100 * (f[i + 1] as int) + 0x1_0000 * (f[i + 2] as int) + 0x100_0000 * (f[i + 3] as int)
  }

  /** One frame, byte by byte: little-endian, the value -1 as eight bytes 255. */
  lemma {:induction false} LiteralFrame()
    ensures ValidBatch([Record(1, 2, -1)])
    ensures var f := Frame(0x0102, [Record(1, 2, -1)]);
            && f[..28] == [84, 76, 66, 65, 84, 67, 72, 33, 2, 1, 0, 0, 0, 0, 0, 0, 1, 0, 0, 0, 52, 0, 0, 0, 0, 0, 0, 0]
            && WordAt(f, 28) == Crc(f[..28])
            && f[32..52] == [1, 0, 0, 0, 2, 0, 0, 0, 0, 0, 0, 0, 255, 255, 255, 255, 255, 255, 255, 255]
            && f[52..76] == [84, 76, 67, 79, 77, 77, 73, 84, 2, 1, 0, 0, 0, 0, 0, 0, 1, 0, 0, 0, 52, 0, 0, 0]
            && WordAt(f, 76) == Crc(f[..52]) && WordAt(f, 80) == Crc(f[52..80])
  {
    hide Crc, Un, Frame, WordAt, ValidRecord;
    var b := [Record(1, 2, -1)];
    LiteralRecord();
    assert ValidBatch(b);
    FrameAt(0x0102, b);
    var f := Frame(0x0102, b);
    LiteralParts(b, f);
    FourBytes(f, 28);
    FourBytes(f, 76);
    FourBytes(f, 80);
  }

  lemma {:induction false} LiteralParts(b: Batch, f: bytes)
    requires b == [Record(1, 2, -1)] && ValidBatch(b) && f == Frame(0x0102, b)
    ensures f[..28] == HeadFields(0x0102, 1) && f[32..52] == RecordBytes(b[0]) && f[52..76] == Commit(0x0102, b)[0..24]
    ensures f[..28] == [84, 76, 66, 65, 84, 67, 72, 33, 2, 1, 0, 0, 0, 0, 0, 0, 1, 0, 0, 0, 52, 0, 0, 0, 0, 0, 0, 0]
    ensures f[32..52] == [1, 0, 0, 0, 2, 0, 0, 0, 0, 0, 0, 0, 255, 255, 255, 255, 255, 255, 255, 255]
    ensures f[52..76] == [84, 76, 67, 79, 77, 77, 73, 84, 2, 1, 0, 0, 0, 0, 0, 0, 1, 0, 0, 0, 52, 0, 0, 0]
  {
    hide Crc, Un, Le, Seal, Payload, RecordBytes, HeadFields, Commit, ValidRecord;
    PayloadAt(b, 0);
    LiteralRecord();
    LiteralHead();
    LiteralCommit(b);
    var h := Seal(HeadFields(0x0102, 1));
    SliceOfSeal(HeadFields(0x0102, 1), 0, 28);
    assert f[..32] == h;
    assert f[..28] == h[0..28] == HeadFields(0x0102, 1)[0..28] == HeadFields(0x0102, 1);
    assert f[32..52] == Payload(b)[0..20];
    assert f[52..84] == Commit(0x0102, b);
    SubSlice(f, 52, 84, 0, 24);
  }

  lemma {:induction false} FourBytes(f: bytes, i: nat)
    requires i + 4 <= |f|
    ensures Un(f[i..i + 4]) == WordAt(f, i)
  {
    var s := f[i..i + 4];
    assert Un(s) == s[0] + 256 * Un(s[1..]);
    assert Un(s[1..]) == s[1] + 256 * Un(s[1..][1..]);
    assert s[1..][1..] == s[2..];
    assert Un(s[2..]) == s[2] + 256 * Un(s[2..][1..]);
    assert s[2..][1..] == s[3..];
    assert Un(s[3..]) == s[3] + 256 * Un(s[3..][1..]);
    assert s[3..][1..] == [];
  }

  lemma {:induction false} LeStep(v: nat, n: nat)
    requires n > 0
    ensures Le(v, n) == [v % 256] + Le(v / 256, n - 1)
  {
  }

  lemma {:induction false} LeZero(n: nat)
    ensures Le(0, n) == Zeros(n)
  {
    if n > 0 {
      LeZero(n - 1);
    }
  }

  /** The little-endian words of the literal frame. */
  lemma {:induction false} LiteralWords()
    ensures Le(0x0102, 8) == [2, 1, 0, 0, 0, 0, 0, 0] && Le(1, 4) == [1, 0, 0, 0] && Le(52, 4) == [52, 0, 0, 0]
    ensures Le(0, 4) == [0, 0, 0, 0] && Le(2, 8) == [2, 0, 0, 0, 0, 0, 0, 0]
  {
    hide Le;
    LeStep(0x0102, 8);
    LeStep(1, 7);
    LeStep(1, 4);
    LeStep(52, 4);
    LeStep(2, 8);
    LeZero(6);
    LeZero(3);
    LeZero(4);
    LeZero(7);
  }

  lemma {:induction false} LiteralRecord()
    ensures ValidRecord(Record(1, 2, -1))
    ensures RecordBytes(Record(1, 2, -1))
              == [1, 0, 0, 0, 2, 0, 0, 0, 0, 0, 0, 0, 255, 255, 255, 255, 255, 255, 255, 255]
  {
    hide Le;
    LiteralWords();
    AllOnes(8);
    Powers();
  }

  lemma {:induction false} AllOnes(n: nat)
    ensures Le(Pow256(n) - 1, n) == seq(n, i => 255)
  {
    if n > 0 {
      AllOnes(n - 1);
      assert (Pow256(n) - 1) % 256 == 255 && (Pow256(n) - 1) / 256 == Pow256(n - 1) - 1;
    }
  }

  lemma {:induction false} LiteralHead()
    ensures HeadFields(0x0102, 1)
         == [84, 76, 66, 65, 84, 67, 72, 33, 2, 1, 0, 0, 0, 0, 0, 0, 1, 0, 0, 0, 52, 0, 0, 0, 0, 0, 0, 0]
  {
    hide Le;
    LiteralWords();
  }

  lemma {:induction false} LiteralCommit(b: Batch)
    requires ValidBatch(b) && |b| == 1
    ensures Commit(0x0102, b)[0..24]
         == [84, 76, 67, 79, 77, 77, 73, 84, 2, 1, 0, 0, 0, 0, 0, 0, 1, 0, 0, 0, 52, 0, 0, 0]
  {
    hide Le, Crc, Seal, Body;
    LiteralWords();
    var s := CommitFields(0x0102, 1, Crc(Body(0x0102, b)));
    SliceOfSeal(s, 0, 24);
  }

  // --- frames: accepted exactly when written -------------------------------

  lemma {:induction false} RecordExact(s: bytes)
    requires |s| == 20
    ensures ValidRecord(DecodeRecord(s)) && RecordBytes(DecodeRecord(s)) == s
  {
    hide Le, Un;
    Un4Range(s[..4]);
    Un8Range(s[4..12]);
    Un8Range(s[12..20]);
    LeUn(s[..4]);
    LeUn(s[4..12]);
    LeUn(s[12..20]);
    assert s == s[..4] + s[4..12] + s[12..20];
  }

  lemma {:induction false} Un4Range(s: bytes)
    requires |s| == 4
    ensures U32(Un(s))
  {
    Powers();
  }

  lemma {:induction false} PayloadExact(s: bytes, count: nat)
    requires |s| == 20 * count
    ensures forall i :: 0 <= i < count ==> ValidRecord(Decode(s, count)[i])
    ensures Payload(Decode(s, count)) == s
  {
    hide RecordBytes, DecodeRecord, ValidRecord;
    if count > 0 {
      var cut := 20 * (count - 1);
      PayloadExact(s[..cut], count - 1);
      RecordExact(s[cut..]);
      var b := Decode(s, count);
      assert b[..count - 1] == Decode(s[..cut], count - 1);
      assert s == s[..cut] + s[cut..];
    }
  }

  lemma {:induction false} SealExact(s: bytes)
    requires |s| >= 4 && Sealed(s)
    ensures s == Seal(s[..|s| - 4])
  {
    hide Crc;
    LeUn(s[|s| - 4..]);
  }

  lemma {:induction false} HeadExact(h: bytes)
    requires |h| == 32 && CheckFrameHeader(h)
    ensures h == Seal(HeadFields(Un(h[8..16]), Un(h[16..20])))
  {
    hide Le, Un, Crc, Seal, Sealed;
    SealExact(h);
    var s := h[..28];
    assert s == h[..8] + h[8..16] + h[16..20] + h[20..24] + h[24..28];
    LeUn(h[8..16]);
    LeUn(h[16..20]);
    LeUn(h[20..24]);
    LeUn(h[24..28]);
  }

  lemma {:induction false} CommitExact(body: bytes, commit: bytes, sequence: nat, count: nat)
    requires |commit| == 32 && |body| == 32 + 20 * count && CheckCommit(body, commit, sequence, count)
    ensures commit == Seal(CommitFields(sequence, count, Crc(body)))
  {
    hide Le, Un, Crc, Seal, Sealed;
    SealExact(commit);
    var s := commit[..28];
    assert s == commit[..8] + commit[8..16] + commit[16..20] + commit[20..24] + commit[24..28];
    LeUn(commit[8..16]);
    LeUn(commit[16..20]);
    LeUn(commit[20..24]);
    LeUn(commit[24..28]);
  }

  /** The bytes at offset are the frame of b, and lie before end. */
  ghost predicate HoldsFrame(file: bytes, offset: nat, end: nat, sequence: nat, b: Batch)
  {
    && ValidBatch(b) && offset + FrameLength(b) <= end && offset + FrameLength(b) <= |file|
    && file[offset..offset + FrameLength(b)] == Frame(sequence, b)
  }

  /** `read_frame` accepts exactly the frames append writes, and its records are
      those of the batch. */
  lemma {:induction false} FrameExact(file: bytes, offset: nat, end: nat, sequence: nat)
    requires offset <= end && U64(sequence)
    ensures var r := ReadFrame(file, offset, end, sequence);
            && (r.Complete? <==> exists b :: HoldsFrame(file, offset, end, sequence, b))
            && (r.Complete? ==> HoldsFrame(file, offset, end, sequence, Records(r.data, r.count)))
  {
    hide ReadFrame, Frame, Records;
    var r := ReadFrame(file, offset, end, sequence);
    if r.Complete? {
      CompleteIsFrame(file, offset, end, sequence);
      assert HoldsFrame(file, offset, end, sequence, Records(r.data, r.count));
    }
    forall b | HoldsFrame(file, offset, end, sequence, b)
      ensures r.Complete?
    {
      FrameRoundTrip(file, offset, end, sequence, b);
    }
  }

  lemma {:induction false} CompleteIsFrame(file: bytes, offset: nat, end: nat, sequence: nat)
    requires offset <= end && U64(sequence) && ReadFrame(file, offset, end, sequence).Complete?
    ensures var r := ReadFrame(file, offset, end, sequence);
            ValidBatch(Records(r.data, r.count)) && r.data == Frame(sequence, Records(r.data, r.count))
  {
    hide Un, Crc, Seal, Payload, Decode, CheckFrameHeader, CheckCommit, HeadFields, CommitFields, ValidRecord;
    var r := ReadFrame(file, offset, end, sequence);
    var h, data, n := file[offset..offset + 32], r.data, r.count;
    var length := 32 + 20 * n;
    var payload := data[32..length];
    assert h == data[..32];
    HeadExact(h);
    PayloadExact(payload, n);
    CommitExact(data[..length], data[length..], sequence, n);
    assert data == data[..32] + payload + data[length..];
    assert data[..length] == data[..32] + payload;
  }

  // --- segment headers -----------------------------------------------------

  /** The header by positions: magic, first, last, body; then with links minimum,
      maximum, previous and skip; the checksum last. */
  lemma {:induction false} HeaderAt(s: Segment, previous: nat, skip: nat)
    requires ValidSegment(s) && U64(previous) && U64(skip)
    ensures var h := HeaderBytes(s, previous, skip);
            && h[..8] == (match s.kind
                          case Span => [84, 76, 83, 80, 65, 78, 48, 55]
                          case Unordered => [84, 76, 85, 78, 79, 82, 48, 55]
                          case Plain => [84, 76, 83, 69, 71, 77, 78, 84])
            && Un(h[8..16]) == s.first && Un(h[16..24]) == LastOf(s) && Un(h[24..28]) == BodyLength(s.batches)
            && (if s.kind == Plain then |h| == 32 && Un(h[28..32]) == Crc(h[..28])
                else && |h| == 64 && Un(h[28..36]) == Lowest(s) && Un(h[36..44]) == Highest(s)
                     && Un(h[44..52]) == previous && Un(h[52..60]) == skip && Un(h[60..64]) == Crc(h[..60]))
  {
    hide Un, Crc, Sealed, Seal, BodyLength, Lowest, Highest, HeaderBytes, ValidSegment, LastOf;
    HeaderDecodes(s, previous, skip);
    var h := HeaderBytes(s, previous, skip);
    SealedEnd(h);
  }

  lemma {:induction false} SealedEnd(h: bytes)
    requires |h| >= 4 && Sealed(h)
    ensures Un(h[|h| - 4..|h|]) == Crc(h[..|h| - 4])
  {
    assert h[|h| - 4..] == h[|h| - 4..|h|];
  }

  /** What `read_segment` demands of the fields, in numbers: at least one frame of 84
      bytes and at most 1344 bytes per frame, a body of at most 64 MiB less 32 bytes,
      links that point backwards, behind byte 160. */
  ghost predicate HeaderSound(i: SegmentInfo, offset: nat, end: nat)
  {
    && 1 <= i.first <= i.last && offset + i.headerSize + i.body <= end && i.body <= 67108832
    && 84 * (i.last - i.first + 1) <= i.body <= 1344 * (i.last - i.first + 1)
    && i.lowest <= i.highest
    && (i.previous == 0 || 160 <= i.previous < offset) && (i.skip == 0 || 160 <= i.skip < offset)
  }

  /** The bytes at offset encode these fields. */
  ghost predicate HoldsHeader(d: bytes, offset: nat, kind: Kind, i: SegmentInfo)
  {
    && offset + i.headerSize <= |d| && U64(i.first) && U64(i.last) && U32(i.body)
    && U64(i.lowest) && U64(i.highest) && U64(i.previous) && U64(i.skip)
    && i.ordered == (kind == Span)
    && if kind == Plain then
         && i.headerSize == 32 && i.lowest == 0 && i.highest == TWO64 - 1 && i.previous == 0 && i.skip == 0
         && d[offset..offset + 32] == Seal(ShortFields(kind, i.first, i.last, i.body))
       else
         && i.headerSize == 64
         && d[offset..offset + 64]
            == Seal(LongFields(kind, i.first, i.last, i.body, i.lowest, i.highest, i.previous, i.skip))
  }

  lemma {:induction false} RangeIsSound(i: SegmentInfo, offset: nat, end: nat)
    requires offset + i.headerSize <= end
    ensures SegmentInRange(i, offset, end) <==> HeaderSound(i, offset, end)
  {
    var n := i.last - i.first + 1;
    if i.first <= i.last {
      DivideBy84(n, i.body);
    }
  }

  lemma {:induction false} DivideBy84(n: nat, body: nat)
    ensures n <= body / 84 <==> 84 * n <= body
  {
  }

  /** `read_segment` accepts exactly the encodings of sound fields, and returns them. */
  lemma {:induction false} HeaderExact(d: bytes, offset: nat, end: nat, i: SegmentInfo)
    ensures ReadSegment(d, offset, end) == Some(i) <==>
              HeaderSound(i, offset, end) && exists kind :: HoldsHeader(d, offset, kind, i)
  {
    hide ReadSegment, HoldsHeader, HeaderSound;
    if ReadSegment(d, offset, end) == Some(i) {
      var kind := ReadIsHeader(d, offset, end);
    }
    forall kind | HoldsHeader(d, offset, kind, i) && HeaderSound(i, offset, end)
      ensures ReadSegment(d, offset, end) == Some(i)
    {
      HeaderIsRead(d, offset, end, kind, i);
    }
  }

  lemma {:induction false} ReadIsHeader(d: bytes, offset: nat, end: nat) returns (kind: Kind)
    requires ReadSegment(d, offset, end).Some?
    ensures var i := ReadSegment(d, offset, end).value;
            HeaderSound(i, offset, end) && HoldsHeader(d, offset, kind, i)
  {
    hide Un, Crc, Seal, Sealed, Le, SegmentInRange, HeaderSound, LongFields, ShortFields;
    var i := ReadSegment(d, offset, end).value;
    RangeIsSound(i, offset, end);
    SpanMagicIsDistinct();
    var magic := d[offset..offset + 8];
    if magic == PLAIN_MAGIC {
      kind := Plain;
      var h := d[offset..offset + 32];
      assert h[..8] == magic;
      ShortExact(h);
    } else {
      kind := if magic == SPAN_MAGIC then Span else Unordered;
      var h := d[offset..offset + 64];
      assert h[..8] == magic;
      LongExact(h, kind);
    }
  }

  lemma {:induction false} ShortExact(h: bytes)
    requires |h| == 32 && Sealed(h) && h[..8] == PLAIN_MAGIC
    ensures h == Seal(ShortFields(Plain, Un(h[8..16]), Un(h[16..24]), Un(h[24..28])))
    ensures U64(Un(h[8..16])) && U64(Un(h[16..24])) && U32(Un(h[24..28]))
  {
    hide Le, Un, Crc, Seal, Sealed;
    SealExact(h);
    assert h[..28] == h[..8] + h[8..16] + h[16..24] + h[24..28];
    LeUn(h[8..16]);
    LeUn(h[16..24]);
    LeUn(h[24..28]);
    Un8Range(h[8..16]);
    Un8Range(h[16..24]);
    Un4Range(h[24..28]);
  }

  lemma {:induction false} LongExact(h: bytes, kind: Kind)
    requires |h| == 64 && Sealed(h) && h[..8] == MagicOf(kind)
    ensures h == Seal(LongFields(kind, Un(h[8..16]), Un(h[16..24]), Un(h[24..28]), Un(h[28..36]), Un(h[36..44]),
                                 Un(h[44..52]), Un(h[52..60])))
    ensures U64(Un(h[8..16])) && U64(Un(h[16..24])) && U32(Un(h[24..28])) && U64(Un(h[28..36]))
    ensures U64(Un(h[36..44])) && U64(Un(h[44..52])) && U64(Un(h[52..60]))
  {
    hide Le, Un, Crc, Seal, Sealed, MagicOf;
    SealExact(h);
    assert h[..60] == h[..8] + h[8..16] + h[16..24] + h[24..28] + h[28..36] + h[36..44] + h[44..52] + h[52..60];
    LeUn(h[8..16]);
    LeUn(h[16..24]);
    LeUn(h[24..28]);
    LeUn(h[28..36]);
    LeUn(h[36..44]);
    LeUn(h[44..52]);
    LeUn(h[52..60]);
    Un8Range(h[8..16]);
    Un8Range(h[16..24]);
    Un4Range(h[24..28]);
    Un8Range(h[28..36]);
    Un8Range(h[36..44]);
    Un8Range(h[44..52]);
    Un8Range(h[52..60]);
  }

  lemma {:induction false} HeaderIsRead(d: bytes, offset: nat, end: nat, kind: Kind, i: SegmentInfo)
    requires HoldsHeader(d, offset, kind, i) && HeaderSound(i, offset, end)
    ensures ReadSegment(d, offset, end) == Some(i)
  {
    hide Un, Crc, Seal, Sealed, Le, SegmentInRange, LongFields, ShortFields, MagicOf;
    RangeIsSound(i, offset, end);
    SpanMagicIsDistinct();
    Un8Le(i.first);
    Un8Le(i.last);
    Un4Le(i.body);
    if kind == Plain {
      ShortDecodes(i, d[offset..offset + 32]);
    } else {
      LongDecodes(kind, i, d[offset..offset + 64]);
    }
    var h := d[offset..offset + i.headerSize];
    assert d[offset..offset + 8] == h[..8];
  }

  lemma {:induction false} ShortDecodes(i: SegmentInfo, h: bytes)
    requires U64(i.first) && U64(i.last) && U32(i.body) && h == Seal(ShortFields(Plain, i.first, i.last, i.body))
    ensures h[..8] == PLAIN_MAGIC && Sealed(h)
    ensures Un(h[8..16]) == i.first && Un(h[16..24]) == i.last && Un(h[24..28]) == i.body
  {
    hide Un, Crc, Seal, Sealed, Le;
    var f := ShortFields(Plain, i.first, i.last, i.body);
    ShortSlices(Plain, i.first, i.last, i.body);
    SealSealed(f);
    SliceOfSeal(f, 0, 8);
    SliceOfSeal(f, 8, 16);
    SliceOfSeal(f, 16, 24);
    SliceOfSeal(f, 24, 28);
    Un8Le(i.first);
    Un8Le(i.last);
    Un4Le(i.body);
  }

  lemma {:induction false} LongDecodes(kind: Kind, i: SegmentInfo, h: bytes)
    requires U64(i.first) && U64(i.last) && U32(i.body) && U64(i.lowest) && U64(i.highest) && U64(i.previous)
    requires U64(i.skip)
    requires h == Seal(LongFields(kind, i.first, i.last, i.body, i.lowest, i.highest, i.previous, i.skip))
    ensures h[..8] == MagicOf(kind) && Sealed(h)
    ensures Un(h[8..16]) == i.first && Un(h[16..24]) == i.last && Un(h[24..28]) == i.body
    ensures Un(h[28..36]) == i.lowest && Un(h[36..44]) == i.highest && Un(h[44..52]) == i.previous
    ensures Un(h[52..60]) == i.skip
  {
    hide Un, Crc, Seal, Sealed, Le, LongFields, MagicOf;
    var f := LongFields(kind, i.first, i.last, i.body, i.lowest, i.highest, i.previous, i.skip);
    LongSlices(kind, i.first, i.last, i.body, i.lowest, i.highest, i.previous, i.skip);
    SealSealed(f);
    SliceOfSeal(f, 0, 8);
    SliceOfSeal(f, 8, 16);
    SliceOfSeal(f, 16, 24);
    SliceOfSeal(f, 24, 28);
    SliceOfSeal(f, 28, 36);
    SliceOfSeal(f, 36, 44);
    SliceOfSeal(f, 44, 52);
    SliceOfSeal(f, 52, 60);
    Un8Le(i.first);
    Un8Le(i.last);
    Un4Le(i.body);
    Un8Le(i.lowest);
    Un8Le(i.highest);
    Un8Le(i.previous);
    Un8Le(i.skip);
  }

  // --- manifests -----------------------------------------------------------

  /** The rules of a slot in numbers, for a file of `size` bytes: an extent between
      byte 160 and 1 GiB within the file, at least 116 bytes per segment, no more
      segments than sequences; a tail in the extent; only phase 2 away from the front,
      and then behind twice its own length. */
  ghost predicate SlotSound(m: Manifest, size: nat)
  {
    && m.time >= 0 && U64(m.time) && U64(m.last) && 160 <= m.end <= size && m.end <= 1073741824
    && match m
       case Install(g, end, last, time, tail, timed) =>
         && U64(tail) && (if timed then g != 0 else time == 0 && tail == 0)
         && if g == 0 then end == 160 && last == 0 else g <= 9256393 && g <= last && 160 + 116 * g <= end
       case Retain(revision, count, end, last, time, tail, root, phase) =>
         && 1 <= revision < TWO64 && phase <= 3 && 160 <= root <= end && 116 * count <= end - root && count <= last
         && (if count == 0 then tail == 0 && root == end else root <= tail < end)
         && (if phase == 2 then end - root <= root - 160 else root == 160)
  }

  lemma {:induction false} GoodIsSound(m: Manifest, size: nat)
    ensures GoodManifest(m, size) <==> SlotSound(m, size)
  {
    assert MOST_SEGMENTS == 9256393;
    if m.Retain? && m.root <= m.end {
      DivideBy116(m.count, m.end - m.root);
    }
  }

  lemma {:induction false} DivideBy116(n: nat, length: nat)
    ensures n <= length / SEGMENT_MIN <==> 116 * n <= length
  {
  }

  /** The slot by positions: magic, revision, end, last sequence, time; then the tail
      and the marker 7, or tail, root, the marker 10, count and phase. */
  lemma {:induction false} ManifestAt(m: Manifest, size: nat)
    requires SlotSound(m, size)
    ensures var s := ManifestBytes(m);
            && |s| == 64 && Un(s[8..16]) == RevisionOf(m) && Un(s[16..24]) == m.end && Un(s[24..32]) == m.last
            && Un(s[32..40]) == m.time && Un(s[60..64]) == Crc(s[..60])
            && (match m
                case Install(_, _, _, _, tail, timed) =>
                  && s[..8] == [84, 76, 73, 78, 83, 84, 65, 76] && Un(s[40..48]) == tail
                  && Un(s[48..52]) == (if timed then 7 else 0) && s[52..60] == [0, 0, 0, 0, 0, 0, 0, 0]
                case Retain(_, count, _, _, _, tail, root, phase) =>
                  && s[..8] == [84, 76, 82, 69, 84, 65, 73, 78] && Un(s[40..44]) == tail && Un(s[44..48]) == root
                  && Un(s[48..52]) == 10 && Un(s[52..56]) == count && Un(s[56..60]) == phase)
  {
    hide Un, Crc, Sealed, ManifestBytes, SlotSound;
    GoodIsSound(m, size);
    ManifestRoundTrip(m, size);
    var s := ManifestBytes(m);
    SealedEnd(s);
    SlotFields(s, size, m);
  }

  /** What an accepted slot holds at each position. */
  lemma {:induction false} SlotFields(s: bytes, size: nat, m: Manifest)
    requires |s| == 64 && ParseSlot(s, size) == Some(m)
    ensures Un(s[8..16]) == RevisionOf(m) && Un(s[16..24]) == m.end && Un(s[24..32]) == m.last
    ensures Un(s[32..40]) == m.time
    ensures match m
            case Install(_, _, _, _, tail, timed) =>
              && s[..8] == [84, 76, 73, 78, 83, 84, 65, 76] && Un(s[40..48]) == tail
              && Un(s[48..52]) == (if timed then 7 else 0) && s[52..60] == [0, 0, 0, 0, 0, 0, 0, 0]
            case Retain(_, count, _, _, _, tail, root, phase) =>
              && s[..8] == [84, 76, 82, 69, 84, 65, 73, 78] && Un(s[40..44]) == tail && Un(s[44..48]) == root
              && Un(s[48..52]) == 10 && Un(s[52..56]) == count && Un(s[56..60]) == phase
  {
    hide Un, Crc, Sealed, InstallInRange, RetainInRange;
    assert Zeros(8) == [0, 0, 0, 0, 0, 0, 0, 0];
    if m.Install? && s[32..60] == Zeros(28) {
      SubSlice(s, 32, 60, 16, 20);
      SubSlice(s, 32, 60, 20, 28);
      assert Zeros(28)[16..20] == Zeros(4) && Zeros(28)[20..28] == Zeros(8);
      ZeroFields();
    }
  }

  lemma {:induction false} SlotIsManifest(s: bytes, size: nat)
    requires |s| == 64 && ParseSlot(s, size).Some?
    ensures var m := ParseSlot(s, size).value; m.time >= 0 && GoodManifest(m, size) && s == ManifestBytes(m)
  {
    hide Un, Crc, Sealed, Le, Seal, InstallInRange, RetainInRange, CommonFields, TimedFields, RetainFields;
    var m := ParseSlot(s, size).value;
    SlotFields(s, size, m);
    SealExact(s);
    Un8Range(s[8..16]);
    Un8Range(s[24..32]);
    Un8Range(s[32..40]);
    Un8Range(s[40..48]);
    var x, y := s[..32], s[32..60];
    assert s[..60] == x + y;
    CommonExact(s);
    if m.Retain? {
      RetainExact(s);
    } else {
      if s[32..60] == Zeros(28) {
        UntimedExact(s);
      }
      if m.timed {
        TimedExact(s);
      }
    }
  }

  lemma {:induction false} CommonExact(s: bytes)
    requires |s| == 64
    ensures s[..32] == CommonFields(s[..8], Un(s[8..16]), Un(s[16..24]), Un(s[24..32]))
  {
    hide Le, Un;
    LeUn(s[8..16]);
    LeUn(s[16..24]);
    LeUn(s[24..32]);
    assert s[..32] == s[..8] + s[8..16] + s[16..24] + s[24..32];
  }

  lemma {:induction false} RetainExact(s: bytes)
    requires |s| == 64 && Un(s[48..52]) == 10
    ensures s[32..60] == RetainFields(Un(s[32..40]), Un(s[40..44]), Un(s[44..48]), Un(s[52..56]), Un(s[56..60]))
  {
    hide Le, Un;
    LeUn(s[32..40]);
    LeUn(s[40..44]);
    LeUn(s[44..48]);
    LeUn(s[48..52]);
    LeUn(s[52..56]);
    LeUn(s[56..60]);
    assert s[32..60] == s[32..40] + s[40..44] + s[44..48] + s[48..52] + s[52..56] + s[56..60];
  }

  lemma {:induction false} TimedExact(s: bytes)
    requires |s| == 64 && Un(s[48..52]) == 7 && s[52..60] == [0, 0, 0, 0, 0, 0, 0, 0]
    ensures s[32..60] == TimedFields(Un(s[32..40]), Un(s[40..48]))
  {
    hide Le, Un;
    LeUn(s[32..40]);
    LeUn(s[40..48]);
    LeUn(s[48..52]);
    assert Zeros(8) == [0, 0, 0, 0, 0, 0, 0, 0];
    assert s[32..60] == s[32..40] + s[40..48] + s[48..52] + s[52..60];
  }

  /** Without the marker everything up to the checksum is zero. */
  lemma {:induction false} UntimedExact(s: bytes)
    requires |s| == 64 && s[32..60] == Zeros(28)
    ensures Un(s[32..40]) == 0 && Un(s[40..48]) == 0 && Un(s[48..52]) == 0
  {
    hide Un;
    SubSlice(s, 32, 60, 0, 8);
    SubSlice(s, 32, 60, 8, 16);
    SubSlice(s, 32, 60, 16, 20);
    assert Zeros(28)[0..8] == Zeros(8) && Zeros(28)[8..16] == Zeros(8) && Zeros(28)[16..20] == Zeros(4);
    ZeroFields();
  }

  /** A slot is valid exactly when it is the encoding of a sound manifest. */
  lemma {:induction false} SlotExact(s: bytes, size: nat, m: Manifest)
    requires |s| == 64
    ensures ParseSlot(s, size) == Some(m) <==> SlotSound(m, size) && m.time >= 0 && s == ManifestBytes(m)
  {
    hide ParseSlot, ManifestBytes, SlotSound, GoodManifest;
    GoodIsSound(m, size);
    if ParseSlot(s, size) == Some(m) {
      SlotIsManifest(s, size);
    }
    if SlotSound(m, size) {
      ManifestRoundTrip(m, size);
    }
  }
}
