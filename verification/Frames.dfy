/** Batch frames: the unit of commit in the WAL and of storage in a segment. */
module Frames {
  import opened Bytes
  import opened Checksum

  const MAX_RECORDS: nat := 64
  const BATCH_SCRATCH: nat := 1344

  datatype Record = Record(series: int, time: int, value: int)

  type Batch = seq<Record>

  predicate ValidRecord(r: Record)
  {
    U32(r.series) && U64(r.time) && -(TWO64 / 2) <= r.value < TWO64 / 2
  }

  predicate ValidBatch(b: Batch)
  {
    1 <= |b| <= MAX_RECORDS && forall i :: 0 <= i < |b| ==> ValidRecord(b[i])
  }

  /** "TLBATCH!" and "TLCOMMIT". */
  const BATCH_MAGIC: bytes := [84, 76, 66, 65, 84, 67, 72, 33]
  const COMMIT_MAGIC: bytes := [84, 76, 67, 79, 77, 77, 73, 84]

  // --- encoding ------------------------------------------------------------

  /** A signed value stored in two's complement. */
  function Unsigned(v: int): nat
    requires -(TWO64 / 2) <= v < TWO64 / 2
  {
    if v < 0 then v + TWO64 else v
  }

  function Signed(u: nat): int
    requires U64(u)
  {
    if u <= TWO64 / 2 - 1 then u else -1 - (TWO64 - 1 - u)
  }

  function RecordBytes(r: Record): (s: bytes)
    requires ValidRecord(r)
    ensures |s| == 20
  {
    Le(r.series, 4) + Le(r.time, 8) + Le(Unsigned(r.value), 8)
  }

  function DecodeRecord(s: bytes): Record
    requires |s| == 20
  {
    Un8Range(s[12..20]);
    Record(Un(s[..4]), Un(s[4..12]), Signed(Un(s[12..20])))
  }

  function Payload(b: Batch): (s: bytes)
    requires forall i :: 0 <= i < |b| ==> ValidRecord(b[i])
    ensures |s| == 20 * |b|
  {
    if b == [] then [] else Payload(b[..|b| - 1]) + RecordBytes(b[|b| - 1])
  }

  function Decode(s: bytes, count: nat): (b: Batch)
    requires |s| == 20 * count
    ensures |b| == count
  {
    if count == 0 then [] else Decode(s[..20 * (count - 1)], count - 1) + [DecodeRecord(s[20 * (count - 1)..])]
  }

  function FrameLength(b: Batch): nat { 64 + 20 * |b| }

  function Seal(s: bytes): (r: bytes)
    ensures |r| == |s| + 4
  {
    s + Le(Crc(s), 4)
  }

  function HeadFields(sequence: nat, count: nat): (s: bytes)
    ensures |s| == 28
  {
    BATCH_MAGIC + Le(sequence, 8) + Le(count, 4) + Le(32 + 20 * count, 4) + Le(0, 4)
  }

  function Body(sequence: nat, b: Batch): (s: bytes)
    requires ValidBatch(b)
    ensures |s| == 32 + 20 * |b|
  {
    Seal(HeadFields(sequence, |b|)) + Payload(b)
  }

  function CommitFields(sequence: nat, count: nat, crc: nat): (s: bytes)
    ensures |s| == 28
  {
    COMMIT_MAGIC + Le(sequence, 8) + Le(count, 4) + Le(32 + 20 * count, 4) + Le(crc, 4)
  }

  function Commit(sequence: nat, b: Batch): (s: bytes)
    requires ValidBatch(b)
    ensures |s| == 32
  {
    Seal(CommitFields(sequence, |b|, Crc(Body(sequence, b))))
  }

  /** The bytes append writes for a batch: body first, commit record second. */
  function Frame(sequence: nat, b: Batch): (s: bytes)
    requires ValidBatch(b)
    ensures |s| == FrameLength(b)
  {
    Body(sequence, b) + Commit(sequence, b)
  }

  // --- decoding ------------------------------------------------------------

  predicate Sealed(s: bytes)
    requires |s| >= 4
  {
    Crc(s[..|s| - 4]) == Un(s[|s| - 4..])
  }

  predicate CheckFrameHeader(h: bytes)
    requires |h| == 32
  {
    var count := Un(h[16..20]);
    && h[..8] == BATCH_MAGIC
    && count != 0
    && count <= MAX_RECORDS
    && Un(h[20..24]) == 32 + count * 20
    && Un(h[24..28]) == 0
    && Sealed(h)
  }

  predicate CheckCommit(body: bytes, commit: bytes, sequence: nat, count: nat)
    requires |commit| == 32
  {
    && commit[..8] == COMMIT_MAGIC
    && Un(commit[8..16]) == sequence
    && Un(commit[16..20]) == count
    && Un(commit[20..24]) == |body|
    && Un(commit[24..28]) == Crc(body)
    && Sealed(commit)
  }

  /** Complete carries the frame's bytes; Incomplete is TIMELITE_END and Damaged
      TIMELITE_INVALID_DATABASE. */
  datatype FrameRead = Complete(data: bytes, count: nat) | Incomplete | Damaged

  function ReadFrame(file: bytes, offset: nat, end: nat, sequence: nat): (r: FrameRead)
    requires offset <= end
    ensures r.Complete? ==>
              && 1 <= r.count <= MAX_RECORDS
              && |r.data| == 64 + 20 * r.count <= end - offset
              && offset + |r.data| <= |file|
              && r.data == file[offset..offset + |r.data|]
  {
    if end - offset < 32 || |file| < offset + 32 then Damaged
    else
      var h := file[offset..offset + 32];
      if !CheckFrameHeader(h) || Un(h[8..16]) != sequence then Damaged
      else
        var count := Un(h[16..20]);
        var length := 32 + count * 20;
        if length + 32 > end - offset then Incomplete
        else if |file| < offset + length + 32 then Damaged
        else
          var data := file[offset..offset + length + 32];
          if CheckCommit(data[..length], data[length..], sequence, count) then Complete(data, count)
          else Damaged
  }

  /** The records of a complete frame. */
  function Records(data: bytes, count: nat): (b: Batch)
    requires |data| == 64 + 20 * count
    ensures |b| == count
  {
    Decode(data[32..32 + 20 * count], count)
  }

  // --- round trip ----------------------------------------------------------

  lemma {:induction false} SealSealed(s: bytes)
    ensures Sealed(Seal(s))
  {
    Un4Le(Crc(s));
    assert Seal(s)[..|s|] == s;
    assert Seal(s)[|s|..] == Le(Crc(s), 4);
  }

  lemma {:induction false} FiveFields(a: bytes, b: bytes, c: bytes, d: bytes, e: bytes)
    requires |a| == 8 && |b| == 8 && |c| == 4 && |d| == 4 && |e| == 4
    ensures var s := a + b + c + d + e;
            s[..8] == a && s[8..16] == b && s[16..20] == c && s[20..24] == d && s[24..28] == e
  {
  }

  lemma {:induction false} SliceOfSeal(s: bytes, i: nat, j: nat)
    requires i <= j <= |s|
    ensures Seal(s)[i..j] == s[i..j]
  {
  }

  lemma {:induction false} HeadAccepted(sequence: nat, count: nat)
    requires U64(sequence) && 1 <= count <= MAX_RECORDS
    ensures var h := Seal(HeadFields(sequence, count));
            CheckFrameHeader(h) && Un(h[8..16]) == sequence && Un(h[16..20]) == count
  {
    hide Le, Un, Crc, Seal, Sealed;
    var s := HeadFields(sequence, count);
    var h := Seal(s);
    FiveFields(BATCH_MAGIC, Le(sequence, 8), Le(count, 4), Le(32 + 20 * count, 4), Le(0, 4));
    SliceOfSeal(s, 0, 8);
    SliceOfSeal(s, 8, 16);
    SliceOfSeal(s, 16, 20);
    SliceOfSeal(s, 20, 24);
    SliceOfSeal(s, 24, 28);
    Un8Le(sequence);
    Un4Le(count);
    Un4Le(32 + 20 * count);
    Un4Le(0);
    SealSealed(s);
  }

  lemma {:induction false} CommitAccepted(sequence: nat, b: Batch)
    requires U64(sequence) && ValidBatch(b)
    ensures CheckCommit(Body(sequence, b), Commit(sequence, b), sequence, |b|)
  {
    hide Le, Un, Crc, Seal, Sealed, Body;
    var crc := Crc(Body(sequence, b));
    var s := CommitFields(sequence, |b|, crc);
    FiveFields(COMMIT_MAGIC, Le(sequence, 8), Le(|b|, 4), Le(32 + 20 * |b|, 4), Le(crc, 4));
    SliceOfSeal(s, 0, 8);
    SliceOfSeal(s, 8, 16);
    SliceOfSeal(s, 16, 20);
    SliceOfSeal(s, 20, 24);
    SliceOfSeal(s, 24, 28);
    Un8Le(sequence);
    Un4Le(|b|);
    Un4Le(32 + 20 * |b|);
    Un4Le(crc);
    SealSealed(s);
  }

  lemma {:induction false} RecordRoundTrip(r: Record)
    requires ValidRecord(r)
    ensures DecodeRecord(RecordBytes(r)) == r
  {
    hide Le, Un;
    var s := RecordBytes(r);
    assert s[..4] == Le(r.series, 4);
    assert s[4..12] == Le(r.time, 8);
    assert s[12..20] == Le(Unsigned(r.value), 8);
    Un4Le(r.series);
    Un8Le(r.time);
    Un8Le(Unsigned(r.value));
  }

  lemma {:induction false} PayloadRoundTrip(b: Batch)
    requires forall i :: 0 <= i < |b| ==> ValidRecord(b[i])
    ensures Decode(Payload(b), |b|) == b
  {
    hide RecordBytes, DecodeRecord, ValidRecord;
    if b != [] {
      var front, r := b[..|b| - 1], b[|b| - 1];
      PayloadRoundTrip(front);
      RecordRoundTrip(r);
      assert Payload(b)[..20 * |front|] == Payload(front);
      assert Payload(b)[20 * |front|..] == RecordBytes(r);
      assert b == front + [r];
    }
  }

  /** `read_frame` and `decode_record` invert append's encoding, wherever the
      frame lies in a file and whatever follows it. */
  lemma {:induction false} FrameRoundTrip(file: bytes, offset: nat, end: nat, sequence: nat, b: Batch)
    requires U64(sequence) && ValidBatch(b)
    requires offset + FrameLength(b) <= end
    requires offset + FrameLength(b) <= |file|
    requires file[offset..offset + FrameLength(b)] == Frame(sequence, b)
    ensures ReadFrame(file, offset, end, sequence) == Complete(Frame(sequence, b), |b|)
    ensures Records(Frame(sequence, b), |b|) == b
  {
    hide Un, Crc, Seal, Payload, Commit, CheckFrameHeader, CheckCommit, Decode;
    var f := Frame(sequence, b);
    var h := Seal(HeadFields(sequence, |b|));
    HeadAccepted(sequence, |b|);
    CommitAccepted(sequence, b);
    assert f[..32] == h;
    assert file[offset..offset + 32] == file[offset..offset + FrameLength(b)][..32];
    var length := 32 + |b| * 20;
    assert f[..length] == Body(sequence, b);
    assert f[length..] == Commit(sequence, b);
    assert f[32..32 + 20 * |b|] == Payload(b);
    PayloadRoundTrip(b);
  }

  /** A file that stops inside a frame: at least a whole header gives Incomplete,
      a shorter nonempty remainder is Damaged. */
  lemma {:induction false} TornFrame(file: bytes, offset: nat, sequence: nat, b: Batch, k: nat)
    requires U64(sequence) && ValidBatch(b)
    requires 0 < k < FrameLength(b) && |file| == offset + k
    requires file[offset..] == Frame(sequence, b)[..k]
    ensures ReadFrame(file, offset, |file|, sequence) == if k < 32 then Damaged else Incomplete
    ensures k >= 32 ==> CheckFrameHeader(file[offset..offset + 32]) && Un(file[offset..offset + 32][8..16]) == sequence
  {
    if k >= 32 {
      hide Un, Crc, Seal, Payload, Commit, CheckFrameHeader;
      var f := Frame(sequence, b);
      var h := Seal(HeadFields(sequence, |b|));
      HeadAccepted(sequence, |b|);
      assert f[..32] == h;
      assert file[offset..offset + 32] == file[offset..][..32] == f[..k][..32] == h;
      assert 32 + |b| * 20 + 32 > |file| - offset;
    }
  }

  /** The first header is checked before the frame is: it too is recognised. */
  lemma {:induction false} FrameHeaderAccepted(file: bytes, offset: nat, sequence: nat, b: Batch)
    requires U64(sequence) && ValidBatch(b)
    requires offset + FrameLength(b) <= |file|
    requires file[offset..offset + FrameLength(b)] == Frame(sequence, b)
    ensures CheckFrameHeader(file[offset..offset + 32])
    ensures Un(file[offset..offset + 32][8..16]) == sequence
  {
    hide Un, Crc, Seal, Payload, Commit, CheckFrameHeader;
    var f := Frame(sequence, b);
    HeadAccepted(sequence, |b|);
    assert f[..32] == Seal(HeadFields(sequence, |b|));
    assert file[offset..offset + 32] == file[offset..offset + FrameLength(b)][..32];
  }

  // --- damage --------------------------------------------------------------

  /** Changing one byte of a sealed structure breaks its seal. */
  lemma {:induction false} SealBroken(s: bytes, i: nat, x: byte)
    requires i < |s| + 4 && x != Seal(s)[i]
    ensures !Sealed(Seal(s)[i := x])
  {
    var t := Seal(s)[i := x];
    Un4Le(Crc(s));
    if i < |s| {
      assert t[..|s|] == s[..i] + [x] + s[i + 1..];
      assert s == s[..i] + [s[i]] + s[i + 1..];
      BurstDetected(s[..i], [s[i]], [x], s[i + 1..]);
      assert t[|s|..] == Le(Crc(s), 4);
    } else {
      assert t[..|s|] == s;
      var c := t[|s|..];
      assert c == Le(Crc(s), 4)[i - |s| := x];
      LeUn(c);
      assert c != Le(Crc(s), 4);
    }
  }

  /** Changing any single byte of a committed frame makes `read_frame` fail:
      never END, never other records. */
  lemma {:induction false} DamageDetected(file: bytes, offset: nat, end: nat, sequence: nat, b: Batch, i: nat, x: byte)
    requires U64(sequence) && ValidBatch(b)
    requires offset + FrameLength(b) <= end
    requires offset + FrameLength(b) <= |file|
    requires i < FrameLength(b) && x != Frame(sequence, b)[i]
    requires file[offset..offset + FrameLength(b)] == Frame(sequence, b)[i := x]
    ensures ReadFrame(file, offset, end, sequence) == Damaged
  {
    hide Un, Crc, Seal, Payload, CheckFrameHeader, CheckCommit, Sealed, HeadFields, CommitFields, ValidRecord;
    var f := Frame(sequence, b);
    var d := f[i := x];
    var h := Seal(HeadFields(sequence, |b|));
    var length := 32 + |b| * 20;
    assert f[..32] == h;
    assert file[offset..offset + 32] == file[offset..offset + FrameLength(b)][..32] == d[..32];
    assert f[..length] == Body(sequence, b) && f[length..] == Commit(sequence, b);
    if i < 32 {
      assert d[..32] == h[i := x];
      SealBroken(HeadFields(sequence, |b|), i, x);
      HeadNeedsSeal(h[i := x]);
    } else {
      assert d[..32] == h;
      HeadAccepted(sequence, |b|);
      assert file[offset..offset + length + 32] == d;
      if i < length {
        var body := Body(sequence, b);
        assert d[..length] == body[..i] + [x] + body[i + 1..];
        assert body == body[..i] + [body[i]] + body[i + 1..];
        BurstDetected(body[..i], [body[i]], [x], body[i + 1..]);
        assert d[length..] == Commit(sequence, b);
        CommitPinsBody(sequence, b, d[..length]);
      } else {
        assert d[length..] == Commit(sequence, b)[i - length := x];
        SealBroken(CommitFields(sequence, |b|, Crc(Body(sequence, b))), i - length, x);
        CommitNeedsSeal(d[..length], d[length..], sequence, |b|);
      }
    }
  }

  lemma {:induction false} HeadNeedsSeal(h: bytes)
    requires |h| == 32 && !Sealed(h)
    ensures !CheckFrameHeader(h)
  {
  }

  lemma {:induction false} CommitNeedsSeal(body: bytes, commit: bytes, sequence: nat, count: nat)
    requires |commit| == 32 && !Sealed(commit)
    ensures !CheckCommit(body, commit, sequence, count)
  {
  }

  lemma {:induction false} CommitPinsBody(sequence: nat, b: Batch, body: bytes)
    requires U64(sequence) && ValidBatch(b) && Crc(body) != Crc(Body(sequence, b))
    ensures !CheckCommit(body, Commit(sequence, b), sequence, |b|)
  {
    CommitAccepted(sequence, b);
  }
}
