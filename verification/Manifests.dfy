/** The two manifest slots: encoding, validity, selection. */
module Manifests {
  import opened Bytes
  import opened Checksum
  import opened Frames
  import opened Segments
  import opened SkipLinks
  import opened ChainCheck

  /** "TLINSTAL" and "TLRETAIN". */
  const INSTALL_MAGIC: bytes := [84, 76, 73, 78, 83, 84, 65, 76]
  const RETAIN_MAGIC: bytes := [84, 76, 82, 69, 84, 65, 73, 78]

  const NORMAL: nat := 0
  const PREPARE: nat := 1
  const TAIL: nat := 2
  const CLEANUP: nat := 3

  const MOST_SEGMENTS: nat := (DATABASE_CAPACITY - DATA_START) / SEGMENT_MIN

  datatype Manifest =
    | Install(generation: nat, end: nat, last: nat, time: int, tail: nat, timed: bool)
    | Retain(revision: nat, count: nat, end: nat, last: nat, time: int, tail: nat, root: nat, phase: nat)

  function RevisionOf(m: Manifest): nat { if m.Install? then m.generation else m.revision }
  function CountOf(m: Manifest): nat { if m.Install? then m.generation else m.count }
  function RootOf(m: Manifest): nat { if m.Install? then DATA_START else m.root }
  function PhaseOf(m: Manifest): nat { if m.Install? then NORMAL else m.phase }

  function ClaimOf(m: Manifest): Claim
  {
    Claim(CountOf(m), m.end, m.last, m.time, m.tail, m.Retain? || m.timed, m.Retain?, RootOf(m))
  }

  /** The revision at which finishing an interrupted retention arrives. */
  function DestinationOf(m: Manifest): nat
  {
    RevisionOf(m) + if PhaseOf(m) == NORMAL then 0 else if PhaseOf(m) == TAIL then 2 else 1
  }

  /** Revisions left for finishing a retention: what the check for five free
      revisions before the first effect leaves at each phase. */
  predicate WithinBudget(m: Manifest)
  {
    && (PhaseOf(m) == PREPARE ==> RevisionOf(m) <= TWO64 - 1 - 4)
    && (PhaseOf(m) == TAIL ==> RevisionOf(m) <= TWO64 - 1 - 3)
    && (PhaseOf(m) == CLEANUP ==> RevisionOf(m) <= TWO64 - 1 - 2)
  }

  // --- encoding ------------------------------------------------------------

  function CommonFields(magic: bytes, revision: nat, end: nat, last: nat): (s: bytes)
    requires |magic| == 8
    ensures |s| == 32
  {
    magic + Le(revision, 8) + Le(end, 8) + Le(last, 8)
  }

  function TimedFields(time: nat, tail: nat): (s: bytes)
    ensures |s| == 28
  {
    Le(time, 8) + Le(tail, 8) + Le(7, 4) + Zeros(8)
  }

  function RetainFields(time: nat, tail: nat, root: nat, count: nat, phase: nat): (s: bytes)
    ensures |s| == 28
  {
    Le(time, 8) + Le(tail, 4) + Le(root, 4) + Le(10, 4) + Le(count, 4) + Le(phase, 4)
  }

  /** What `encode_manifest` and `encode_retention` write. */
  function ManifestBytes(m: Manifest): (s: bytes)
    requires m.time >= 0
    ensures |s| == 64
  {
    match m
    case Install(generation, end, last, time, tail, timed) =>
      Seal(CommonFields(INSTALL_MAGIC, generation, end, last) + if timed then TimedFields(time, tail) else Zeros(28))
    case Retain(revision, count, end, last, time, tail, root, phase) =>
      Seal(CommonFields(RETAIN_MAGIC, revision, end, last) + RetainFields(time, tail, root, count, phase))
  }

  // --- decoding ------------------------------------------------------------

  predicate InstallInRange(g: nat, end: nat, last: nat, size: nat)
  {
    && DATA_START <= end <= DATABASE_CAPACITY
    && end <= size
    && if g == 0 then end == DATA_START && last == 0
       else g <= MOST_SEGMENTS && last >= g && end >= DATA_START + g * SEGMENT_MIN
  }

  /** `check_manifest`. */
  predicate InstallValid(s: bytes, size: nat)
    requires |s| == 64
  {
    && s[..8] == INSTALL_MAGIC
    && (s[32..60] == Zeros(28) || (Un(s[48..52]) == 7 && s[52..60] == Zeros(8) && Un(s[8..16]) != 0))
    && Sealed(s)
    && InstallInRange(Un(s[8..16]), Un(s[16..24]), Un(s[24..32]), size)
  }

  predicate RetainInRange(revision: nat, count: nat, end: nat, last: nat, tail: nat, root: nat, phase: nat, size: nat)
  {
    && revision != 0
    && phase <= 3
    && DATA_START <= root <= end
    && end <= size
    && end <= DATABASE_CAPACITY
    && count <= (end - root) / SEGMENT_MIN
    && count <= last
    && (if count != 0 then root <= tail < end else tail == 0 && root == end)
    && (if phase == TAIL then end - root <= root - DATA_START else root == DATA_START)
  }

  /** `retention_manifest`. */
  predicate RetainValid(s: bytes, size: nat)
    requires |s| == 64
  {
    && s[..8] == RETAIN_MAGIC
    && Sealed(s)
    && Un(s[48..52]) == 10
    && RetainInRange(Un(s[8..16]), Un(s[52..56]), Un(s[16..24]), Un(s[24..32]), Un(s[40..44]), Un(s[44..48]),
                     Un(s[56..60]), size)
  }

  function ParseSlot(s: bytes, size: nat): (r: Option<Manifest>)
    requires |s| == 64
    ensures r.Some? ==> CountOf(r.value) <= MOST_SEGMENTS && RevisionOf(r.value) == Un(s[8..16])
    ensures r.Some? ==> DATA_START <= RootOf(r.value) <= r.value.end <= size && r.value.end <= DATABASE_CAPACITY
    ensures r.Some? ==> r.value.time >= 0 && Sealed(s)
  {
    if RetainValid(s, size) then
      Some(Retain(Un(s[8..16]), Un(s[52..56]), Un(s[16..24]), Un(s[24..32]), Un(s[32..40]),
                  Un(s[40..44]), Un(s[44..48]), Un(s[56..60])))
    else if InstallValid(s, size) then
      Some(Install(Un(s[8..16]), Un(s[16..24]), Un(s[24..32]), Un(s[32..40]), Un(s[40..48]), Un(s[48..52]) == 7))
    else None
  }

  lemma {:induction false} MostSegments()
    ensures MOST_SEGMENTS < Pow2(TABLE_SIZE)
  {
    assert Pow2(8) == 256;
    assert Pow2(16) == 65536;
    assert Pow2(24) == 0x100_0000;
  }

  // --- slots ---------------------------------------------------------------

  function SlotStart(index: nat): nat { 32 + 64 * index }

  function SlotBytes(d: bytes, index: nat): (s: bytes)
    requires SlotStart(index) + 64 <= |d|
    ensures |s| == 64
  {
    d[SlotStart(index)..SlotStart(index) + 64]
  }

  /** The manifest in a slot, if the slot is complete, valid and chosen by the
      parity of its revision. */
  function SlotAt(d: bytes, index: nat): (r: Option<Manifest>)
    ensures r.Some? ==> RevisionOf(r.value) % 2 == index
    ensures r.Some? ==> CountOf(r.value) <= MOST_SEGMENTS && r.value.time >= 0
    ensures r.Some? ==> DATA_START <= RootOf(r.value) <= r.value.end <= |d| && r.value.end <= DATABASE_CAPACITY
  {
    if |d| < SlotStart(index) + 64 then None
    else
      var s := SlotBytes(d, index);
      if Un(s[8..16]) % 2 != index then None else ParseSlot(s, |d|)
  }

  datatype Selection = Legacy | Empty | Chosen(m: Manifest) | Unusable

  /** `read_manifests`: the valid manifest with the highest revision. */
  function Select(d: bytes): Selection
  {
    if |d| == 32 then Legacy
    else
      match (SlotAt(d, 0), SlotAt(d, 1))
      case (Some(a), Some(b)) => Chosen(if RevisionOf(b) > RevisionOf(a) then b else a)
      case (Some(a), None) => Chosen(a)
      case (None, Some(b)) => Chosen(b)
      case (None, None) => if |d| > DATA_START then Unusable else Empty
  }

  // --- round trip ----------------------------------------------------------

  /** The manifests the engine writes, for a file of at least `size` bytes. */
  predicate GoodManifest(m: Manifest, size: nat)
  {
    match m
    case Install(g, end, last, time, tail, timed) =>
      && U64(last) && U64(time) && U64(tail) && InstallInRange(g, end, last, size)
      && (if timed then g != 0 else time == 0 && tail == 0)
    case Retain(revision, count, end, last, time, tail, root, phase) =>
      && U64(revision) && U64(last) && U64(time)
      && RetainInRange(revision, count, end, last, tail, root, phase, size)
  }

  lemma {:induction false} FourParts(a: bytes, b: bytes, c: bytes, d: bytes)
    requires |a| == 8 && |b| == 8 && |c| == 8 && |d| == 8
    ensures var s := a + b + c + d;
            s[..8] == a && s[8..16] == b && s[16..24] == c && s[24..32] == d
  {
  }

  lemma {:induction false} TimedParts(a: bytes, b: bytes, c: bytes, d: bytes)
    requires |a| == 8 && |b| == 8 && |c| == 4 && |d| == 8
    ensures var s := a + b + c + d;
            s[..8] == a && s[8..16] == b && s[16..20] == c && s[20..28] == d
  {
  }

  lemma {:induction false} RetainParts(a: bytes, b: bytes, c: bytes, d: bytes, e: bytes, f: bytes)
    requires |a| == 8 && |b| == 4 && |c| == 4 && |d| == 4 && |e| == 4 && |f| == 4
    ensures var s := a + b + c + d + e + f;
            && s[..8] == a && s[8..12] == b && s[12..16] == c && s[16..20] == d && s[20..24] == e && s[24..28] == f
  {
  }

  /** Slicing a sealed pair of a 32-byte and a 28-byte part. */
  lemma {:induction false} SealedParts(x: bytes, y: bytes)
    requires |x| == 32 && |y| == 28
    ensures var s := Seal(x + y);
            && |s| == 64 && Sealed(s)
            && (forall i, j :: 0 <= i <= j <= 32 ==> s[i..j] == x[i..j])
            && (forall i, j :: 32 <= i <= j <= 60 ==> s[i..j] == y[i - 32..j - 32])
  {
    SealSealed(x + y);
    var s := Seal(x + y);
    forall i, j | 0 <= i <= j <= 32
      ensures s[i..j] == x[i..j]
    {
    }
    forall i, j | 32 <= i <= j <= 60
      ensures s[i..j] == y[i - 32..j - 32]
    {
    }
  }

  lemma {:induction false} InstallRoundTrip(m: Manifest, size: nat)
    requires m.Install? && GoodManifest(m, size)
    ensures ParseSlot(ManifestBytes(m), size) == Some(m)
  {
    hide Le, Un, Seal, Sealed, Crc;
    var x := CommonFields(INSTALL_MAGIC, m.generation, m.end, m.last);
    var y := if m.timed then TimedFields(m.time, m.tail) else Zeros(28);
    var s := ManifestBytes(m);
    SealedParts(x, y);
    FourParts(INSTALL_MAGIC, Le(m.generation, 8), Le(m.end, 8), Le(m.last, 8));
    Un8Le(m.generation);
    Un8Le(m.end);
    Un8Le(m.last);
    Un8Le(m.time);
    Un8Le(m.tail);
    Un4Le(7);
    Un4Le(0);
    Un8Le(0);
    if m.timed {
      TimedParts(Le(m.time, 8), Le(m.tail, 8), Le(7, 4), Zeros(8));
    } else {
      assert y[..8] == Zeros(8) && y[8..16] == Zeros(8) && y[16..20] == Zeros(4);
      ZeroFields();
    }
    MagicsDiffer();
    assert s[..8] == s[0..8] == x[0..8] == x[..8];
    assert s[8..16] == x[8..16] && s[16..24] == x[16..24] && s[24..32] == x[24..32];
    assert s[32..40] == y[..8] && s[40..48] == y[8..16] && s[48..52] == y[16..20] && s[52..60] == y[20..28];
    assert s[32..60] == y[0..28] == y;
  }

  lemma {:induction false} MagicsDiffer()
    ensures INSTALL_MAGIC != RETAIN_MAGIC
  {
    assert INSTALL_MAGIC[2] != RETAIN_MAGIC[2];
  }

  lemma {:induction false} ZeroFields()
    ensures Un(Zeros(8)) == 0 && Un(Zeros(4)) == 0
  {
    assert Zeros(8) == Le(0, 8);
    assert Zeros(4) == Le(0, 4);
    Un8Le(0);
    Un4Le(0);
  }

  lemma {:induction false} RetainRoundTrip(m: Manifest, size: nat)
    requires m.Retain? && GoodManifest(m, size)
    ensures ParseSlot(ManifestBytes(m), size) == Some(m)
  {
    hide Le, Un, Seal, Sealed, Crc;
    var x := CommonFields(RETAIN_MAGIC, m.revision, m.end, m.last);
    var y := RetainFields(m.time, m.tail, m.root, m.count, m.phase);
    var s := ManifestBytes(m);
    SealedParts(x, y);
    FourParts(RETAIN_MAGIC, Le(m.revision, 8), Le(m.end, 8), Le(m.last, 8));
    RetainParts(Le(m.time, 8), Le(m.tail, 4), Le(m.root, 4), Le(10, 4), Le(m.count, 4), Le(m.phase, 4));
    Un8Le(m.revision);
    Un8Le(m.end);
    Un8Le(m.last);
    Un8Le(m.time);
    Un4Le(m.tail);
    Un4Le(m.root);
    Un4Le(10);
    Un4Le(m.count);
    Un4Le(m.phase);
    assert s[..8] == s[0..8] == x[0..8] == x[..8];
    assert s[8..16] == x[8..16] && s[16..24] == x[16..24] && s[24..32] == x[24..32];
    assert s[32..40] == y[..8] && s[40..44] == y[8..12] && s[44..48] == y[12..16] && s[48..52] == y[16..20];
    assert s[52..56] == y[20..24] && s[56..60] == y[24..28];
  }

  /** Every manifest the engine writes is accepted, and read back as written. */
  lemma {:induction false} ManifestRoundTrip(m: Manifest, size: nat)
    requires GoodManifest(m, size)
    ensures ParseSlot(ManifestBytes(m), size) == Some(m)
    ensures Un(ManifestBytes(m)[8..16]) == RevisionOf(m)
  {
    if m.Install? {
      InstallRoundTrip(m, size);
    } else {
      RetainRoundTrip(m, size);
    }
  }

  /** An empty slot is not valid. */
  lemma {:induction false} ZerosInvalid(size: nat)
    ensures ParseSlot(Zeros(64), size) == None
  {
    hide Un, Sealed;
    assert Zeros(64)[..8][0] == 0 && RETAIN_MAGIC[0] == 84 && INSTALL_MAGIC[0] == 84;
  }

  // --- pair headers --------------------------------------------------------

  /** "TIMELITE" and "TIMEWAL!". */
  const DATABASE_MAGIC: bytes := [84, 73, 77, 69, 76, 73, 84, 69]
  const WAL_MAGIC: bytes := [84, 73, 77, 69, 87, 65, 76, 33]

  /** What `create_header` writes in front of each file. */
  function PairHeader(magic: bytes, identity: bytes): (h: bytes)
    requires |magic| == 8 && |identity| == 16
    ensures |h| == 32
  {
    Seal(magic + Le(2, 4) + identity)
  }

  /** `pair_header`, of a complete header. */
  predicate PairHeaderValid(h: bytes, magic: bytes)
    requires |h| == 32
  {
    h[..8] == magic && Un(h[8..12]) == 2 && Sealed(h)
  }

  /** A created header passes its own check and carries the identity. */
  lemma {:induction false} PairHeaderAccepted(magic: bytes, identity: bytes)
    requires |magic| == 8 && |identity| == 16
    ensures PairHeaderValid(PairHeader(magic, identity), magic)
    ensures PairHeader(magic, identity)[12..28] == identity
  {
    hide Le, Un, Crc, Seal, Sealed;
    var s := magic + Le(2, 4) + identity;
    SealSealed(s);
    SliceOfSeal(s, 0, 8);
    SliceOfSeal(s, 8, 12);
    SliceOfSeal(s, 12, 28);
    Un4Le(2);
    var h := Seal(s);
    assert h[..8] == h[0..8] == magic;
    assert h[8..12] == Le(2, 4);
    assert h[12..28] == identity;
  }

  // --- torn slots ----------------------------------------------------------

  /** A slot whose rewrite stopped after k bytes. */
  function Torn(was: bytes, now: bytes, k: nat): (s: bytes)
    requires |was| == |now| == 64 && k <= 64
    ensures |s| == 64
  {
    now[..k] + was[k..]
  }

  /** The storage assumption of the two-slot scheme: a torn slot does not carry a
      matching checksum by accident. */
  ghost predicate TearDetected(was: bytes, now: bytes)
    requires |was| == |now| == 64
  {
    forall k :: 0 <= k <= 64 && Sealed(Torn(was, now, k)) ==> Torn(was, now, k) == was || Torn(was, now, k) == now
  }

  /** The part of that assumption that is a fact: a tear inside the checksum field
      is always detected, and so is one that leaves at most four consecutive
      bytes different from the old contents or from the new. */
  lemma {:induction false} LateTearDetected(was: bytes, fields: bytes, k: nat)
    requires |was| == 64 && |fields| == 60 && 60 <= k <= 64
    ensures Sealed(Torn(was, Seal(fields), k)) ==> Torn(was, Seal(fields), k) == Seal(fields)
  {
    var t := Torn(was, Seal(fields), k);
    assert t[..60] == fields;
    if Sealed(t) {
      LeUn(t[60..]);
      assert t == t[..60] + t[60..];
    }
  }

  lemma {:induction false} NarrowTearDetected(good: bytes, torn: bytes, i: nat, n: nat)
    requires |good| == |torn| == 64 && Sealed(good) && n <= 4 && i + n <= 60
    requires forall j :: 0 <= j < 64 && !(i <= j < i + n) ==> torn[j] == good[j]
    ensures Sealed(torn) ==> torn == good
  {
    var a, b, c := good[..i], good[i..i + n], good[i + n..60];
    var b' := torn[i..i + n];
    assert good[..60] == a + b + c;
    assert torn[..60] == a + b' + c;
    assert good[60..] == torn[60..];
    if b != b' {
      BurstDetected(a, b, b', c);
    } else {
      assert torn == torn[..60] + torn[60..];
      assert good == good[..60] + good[60..];
    }
  }
}
