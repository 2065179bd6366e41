/** Bytes, little-endian integers and flat concatenation: what every on-disk
    structure of a Timelite pair is made of. */
module Bytes {

  type byte = x: int | 0 <= x < 256
  type bytes = seq<byte>

  const TWO32: int := 0x1_0000_0000
  const TWO64: int := 0x1_0000_0000_0000_0000

  /** A C `uint64_t` and `uint32_t`, as mathematical integers. */
  predicate U64(x: int) { 0 <= x < TWO64 }
  predicate U32(x: int) { 0 <= x < TWO32 }

  function Pow256(n: nat): (p: nat)
    ensures p > 0
  {
    if n == 0 then 1 else 256 * Pow256(n - 1)
  }

  /** The `n` low-order bytes of `v`, least significant first. Higher bytes are
      dropped, as the narrowing casts of the C encoders drop them. */
  function Le(v: nat, n: nat): (s: bytes)
    ensures |s| == n
  {
    if n == 0 then [] else [v % 256] + Le(v / 256, n - 1)
  }

  function Un(s: bytes): (v: nat)
    ensures v < Pow256(|s|)
  {
    if s == [] then 0 else s[0] + 256 * Un(s[1..])
  }

  lemma {:induction false} UnLe(v: nat, n: nat)
    requires v < Pow256(n)
    ensures Un(Le(v, n)) == v
  {
    if n > 0 {
      UnLe(v / 256, n - 1);
      assert Le(v, n)[1..] == Le(v / 256, n - 1);
    }
  }

  lemma {:induction false} LeUn(s: bytes)
    ensures Le(Un(s), |s|) == s
  {
    if s != [] {
      LeUn(s[1..]);
      assert Un(s) % 256 == s[0] && Un(s) / 256 == Un(s[1..]);
      assert s == [s[0]] + s[1..];
    }
  }

  lemma {:induction false} Powers()
    ensures Pow256(4) == TWO32 && Pow256(8) == TWO64
  {
    assert Pow256(2) == 65536;
    assert Pow256(4) == 65536 * 65536;
  }

  lemma {:induction false} Un4Le(v: nat)
    requires U32(v)
    ensures Un(Le(v, 4)) == v
  {
    Powers();
    UnLe(v, 4);
  }

  lemma {:induction false} Un8Le(v: nat)
    requires U64(v)
    ensures Un(Le(v, 8)) == v
  {
    Powers();
    UnLe(v, 8);
  }

  lemma {:induction false} Un8Range(s: bytes)
    requires |s| == 8
    ensures U64(Un(s))
  {
    Powers();
  }

  function Zeros(n: nat): (s: bytes)
    ensures |s| == n
    ensures forall i :: 0 <= i < n ==> s[i] == 0
  {
    seq(n, i => 0)
  }

  function Min(a: int, b: int): int { if a < b then a else b }
  function Max(a: int, b: int): int { if a < b then b else a }

  /** Flat concatenation, and where each part lies in it. */
  function Total(parts: seq<bytes>): nat
  {
    if parts == [] then 0 else Total(parts[..|parts| - 1]) + |parts[|parts| - 1]|
  }

  function Concat(parts: seq<bytes>): (s: bytes)
    ensures |s| == Total(parts)
  {
    if parts == [] then [] else Concat(parts[..|parts| - 1]) + parts[|parts| - 1]
  }

  lemma {:induction false} ConcatPrefix(parts: seq<bytes>, n: nat)
    requires n <= |parts|
    ensures Total(parts[..n]) <= Total(parts)
    ensures Concat(parts)[..Total(parts[..n])] == Concat(parts[..n])
  {
    if n == |parts| {
      assert parts[..n] == parts;
    } else {
      var front := parts[..|parts| - 1];
      ConcatPrefix(front, n);
      assert front[..n] == parts[..n];
      assert Concat(parts)[..Total(front)] == Concat(front);
      assert Concat(parts)[..Total(parts[..n])] == Concat(front)[..Total(parts[..n])];
    }
  }

  /** Part `n` occupies the bytes from Total(parts[..n]) to Total(parts[..n + 1]). */
  lemma {:induction false} ConcatPart(parts: seq<bytes>, n: nat)
    requires n < |parts|
    ensures Total(parts[..n]) + |parts[n]| == Total(parts[..n + 1]) <= Total(parts)
    ensures Concat(parts)[Total(parts[..n])..Total(parts[..n + 1])] == parts[n]
  {
    ConcatPrefix(parts, n + 1);
    var upTo := parts[..n + 1];
    assert upTo[..n] == parts[..n];
    assert Concat(upTo) == Concat(parts[..n]) + parts[n];
    assert Concat(parts)[Total(parts[..n])..Total(upTo)]
        == Concat(parts)[..Total(upTo)][Total(parts[..n])..];
  }

  lemma {:induction false} SubSlice<T>(d: seq<T>, a: nat, b: nat, c: nat, e: nat)
    requires a <= b <= |d| && c <= e <= b - a
    ensures d[a..b][c..e] == d[a + c..a + e]
  {
    var slice := d[a..b][c..e];
    assert forall i :: 0 <= i < e - c ==> slice[i] == d[a + c + i];
  }
}
