/** Bytes and fixed-width little-endian integers, as Node's Buffer writes them. */
module Bytes {

  newtype byte = x: int | 0 <= x < 256

  const TwoTo32: nat := 0x1_0000_0000
  const TwoTo64: nat := 0x1_0000_0000_0000_0000
  const TwoTo128: nat := 0x1_0000_0000_0000_0000_0000_0000_0000_0000

  /** 256 to the power n: the number of values n bytes can hold. */
  function Pow256(n: nat): (p: nat)
    ensures p >= 1
  {
    if n == 0 then 1 else 256 * Pow256(n - 1)
  }

  lemma Pow256Widths()
    ensures Pow256(4) == TwoTo32 && Pow256(8) == TwoTo64 && Pow256(16) == TwoTo128
  {
  }

  /** The n least significant bytes of v, least significant first.
      For a negative v these are the low bytes of its two's complement,
      because Dafny's `%` and `/` by 256 are the BigInt `& 0xff` and `>> 8`. */
  function LittleEndian(v: int, n: nat): (r: seq<byte>)
    ensures |r| == n
    decreases n
  {
    if n == 0 then [] else [(v % 256) as byte] + LittleEndian(v / 256, n - 1)
  }

  /** The unsigned integer that a little-endian byte sequence denotes. */
  function FromLittleEndian(s: seq<byte>): (v: nat)
    ensures v < Pow256(|s|)
  {
    if s == [] then 0 else s[0] as nat + 256 * FromLittleEndian(s[1..])
  }

  /** A positive multiple of a positive d is at least d. */
  lemma {:induction false} MultipleAtLeast(d: int, k: int)
    requires d > 0 && k >= 1
    ensures d * k >= d
    decreases k
  {
    if k > 1 {
      MultipleAtLeast(d, k - 1);
      assert d * k == d * (k - 1) + d;
    }
  }

  /** Euclidean division has exactly one quotient and remainder. */
  lemma DivModUnique(v: int, d: int, q: int, r: int)
    requires d > 0 && v == d * q + r && 0 <= r < d
    ensures v / d == q && v % d == r
  {
    var k := q - v / d;
    assert d * k == v % d - r;
    if k >= 1 {
      MultipleAtLeast(d, k);
    } else if k <= -1 {
      MultipleAtLeast(d, -k);
    }
  }

  /** The remainder by 256 * p, split into the low byte and the rest. */
  lemma ModByteStep(v: int, p: int)
    requires p >= 1
    ensures v % (256 * p) == v % 256 + 256 * ((v / 256) % p)
  {
    var h := v / 256;
    var q := h / p;
    assert h == p * q + h % p;
    assert v == 256 * h + v % 256;
    assert 256 * (p * q) == (256 * p) * q;
    DivModUnique(v, 256 * p, q, v % 256 + 256 * (h % p));
  }

  /** Decoding n little-endian bytes of v gives v modulo 256^n. */
  lemma {:induction false} FromLittleEndianOfLittleEndian(v: int, n: nat)
    ensures FromLittleEndian(LittleEndian(v, n)) == v % Pow256(n)
    decreases n
  {
    if n > 0 {
      var s := LittleEndian(v, n);
      FromLittleEndianOfLittleEndian(v / 256, n - 1);
      assert s[1..] == LittleEndian(v / 256, n - 1);
      ModByteStep(v, Pow256(n - 1));
    }
  }

  /** Encoding the value of a byte sequence at its own width gives the sequence back. */
  lemma {:induction false} LittleEndianOfFromLittleEndian(s: seq<byte>)
    ensures LittleEndian(FromLittleEndian(s), |s|) == s
  {
    if s != [] {
      var d := FromLittleEndian(s[1..]);
      var v := FromLittleEndian(s);
      DivModUnique(v, 256, d, s[0] as int);
      LittleEndianOfFromLittleEndian(s[1..]);
      assert LittleEndian(v, |s|) == [s[0]] + s[1..];
    }
  }

  /** Only v modulo 256^n matters to its n-byte encoding. */
  lemma LittleEndianModulo(v: int, n: nat)
    ensures LittleEndian(v, n) == LittleEndian(v % Pow256(n), n)
  {
    FromLittleEndianOfLittleEndian(v, n);
    LittleEndianOfFromLittleEndian(LittleEndian(v, n));
  }

  /** Values below 256^n round-trip through n little-endian bytes. */
  lemma LittleEndianRoundTrip(v: nat, n: nat)
    requires v < Pow256(n)
    ensures FromLittleEndian(LittleEndian(v, n)) == v
  {
    FromLittleEndianOfLittleEndian(v, n);
  }

  /** Where each piece of a concatenation sits. */
  lemma ConcatPieces<T>(a: seq<T>, b: seq<T>, c: seq<T>, d: seq<T>, e: seq<T>)
    ensures var s, i, j, k, l := a + b + c + d + e, |a|, |a| + |b|, |a| + |b| + |c|, |a| + |b| + |c| + |d|;
      |s| == l + |e| && s[..i] == a && s[i..j] == b && s[j..k] == c && s[k..l] == d && s[l..] == e
  {
    var s, i, j, k, l := a + b + c + d + e, |a|, |a| + |b|, |a| + |b| + |c|, |a| + |b| + |c| + |d|;
    assert s == (((a + b) + c) + d) + e;
    assert s[..l] == ((a + b) + c) + d;
    assert s[..k] == (a + b) + c;
    assert s[..j] == a + b;
  }
}
