// Bytes, fixed-width little-endian integers and in-place byte writes.
//
// Every header field of the store is a `uint64_t` written through a
// reinterpreted address; on the little-endian hosts the fake region runs on
// that is the 8-byte little-endian encoding of the value, truncated to 64 bits.

module Bytes {

  type Byte = x: int | 0 <= x < 256

  const U64_SIZE: nat := 8
  const U32_MODULUS: nat := 0x1_0000_0000
  const U64_MODULUS: nat := 0x1_0000_0000_0000_0000

  function Pow256(n: nat): (r: nat)
    ensures r > 0
  {
    if n == 0 then 1 else 256 * Pow256(n - 1)
  }

  /** `n` zero bytes: what `memset(p, 0, n)` and `std::vector::resize` produce. */
  function Zeros(n: nat): (r: seq<Byte>)
    ensures |r| == n
    ensures forall k :: 0 <= k < n ==> r[k] == 0
  {
    seq(n, _ => 0)
  }

  lemma ZerosSuffix(n: nat, k: nat)
    requires k <= n
    ensures Zeros(n)[k..] == Zeros(n - k)
  {
  }

  /** The low `n` bytes of `v`, least significant first. */
  function EncodeLE(v: nat, n: nat): (r: seq<Byte>)
    ensures |r| == n
  {
    if n == 0 then [] else [v % 256] + EncodeLE(v / 256, n - 1)
  }

  /** The value of a little-endian byte string; it always fits in its width. */
  function DecodeLE(s: seq<Byte>): (r: nat)
    ensures r < Pow256(|s|)
  {
    if |s| == 0 then 0 else s[0] + 256 * DecodeLE(s[1..])
  }

  lemma MulAtLeast(m: int, d: int)
    requires m > 0 && d >= 1
    ensures m * d >= m
  {
    assert m * d == m * (d - 1) + m;
  }

  lemma DivModUnique(v: int, m: int, q: int, r: int)
    requires m > 0 && v == m * q + r && 0 <= r < m
    ensures v / m == q && v % m == r
  {
    var q', r' := v / m, v % m;
    assert m * q + r == m * q' + r';
    if q < q' {
      assert m * (q' - q) == r - r';
      MulAtLeast(m, q' - q);
    } else if q > q' {
      assert m * (q - q') == r' - r;
      MulAtLeast(m, q - q');
    }
  }

  lemma MulAssoc(a: int, b: int, c: int)
    ensures a * (b * c) == (a * b) * c
  {
  }

  lemma MulDistrib(a: int, b: int, c: int)
    ensures a * (b + c) == a * b + a * c
  {
  }

  lemma MulMonotone(a: nat, b: nat, c: nat)
    requires b <= c
    ensures a * b <= a * c
  {
    MulDistrib(a, b, c - b);
  }

  lemma ModSplit(v: nat, a: nat, b: nat)
    requires a > 0 && b > 0
    ensures v % (a * b) == v % a + a * ((v / a) % b)
  {
    var q, r := v / a, v % a;
    var q2, r2 := q / b, q % b;
    assert v == a * q + r;
    assert q == b * q2 + r2;
    MulDistrib(a, b * q2, r2);
    MulAssoc(a, b, q2);
    assert v == (a * b) * q2 + (a * r2 + r);
    MulMonotone(a, r2, b - 1);
    MulDistrib(a, b - 1, 1);
    assert a * r2 + r < a * b;
    DivModUnique(v, a * b, q2, a * r2 + r);
  }

  lemma ModSmall(v: nat)
    requires v < U64_MODULUS
    ensures v % U64_MODULUS == v
  {
    DivModUnique(v, U64_MODULUS, 0, v);
  }

  /** `n -= 1` on a `uint64_t`: subtraction modulo 2^64, so 0 wraps to the
      largest value. */
  function DecrementU64(n: nat): (r: nat)
    requires n < U64_MODULUS
    ensures r < U64_MODULUS && r == (n + U64_MODULUS - 1) % U64_MODULUS
  {
    if n == 0 then
      ModSmall(U64_MODULUS - 1);
      U64_MODULUS - 1
    else
      DivModUnique(n + U64_MODULUS - 1, U64_MODULUS, 1, n - 1);
      n - 1
  }

  /** Decoding an encoding gives the value back, truncated to the width. */
  lemma {:induction false} DecodeEncodeLE(v: nat, n: nat)
    ensures DecodeLE(EncodeLE(v, n)) == v % Pow256(n)
  {
    if n > 0 {
      var s := EncodeLE(v, n);
      assert s[1..] == EncodeLE(v / 256, n - 1);
      DecodeEncodeLE(v / 256, n - 1);
      ModSplit(v, 256, Pow256(n - 1));
    }
  }

  /** Encoding a decoded byte string gives the same bytes back. */
  lemma {:induction false} EncodeDecodeLE(s: seq<Byte>)
    ensures EncodeLE(DecodeLE(s), |s|) == s
  {
    if |s| > 0 {
      var v := DecodeLE(s);
      DivModUnique(v, 256, DecodeLE(s[1..]), s[0]);
      EncodeDecodeLE(s[1..]);
    }
  }

  /** A little-endian value is zero exactly when all of its bytes are. */
  lemma {:induction false} DecodeLEZero(s: seq<Byte>)
    ensures DecodeLE(s) == 0 <==> forall k :: 0 <= k < |s| ==> s[k] == 0
  {
    if |s| > 0 {
      DecodeLEZero(s[1..]);
      if DecodeLE(s) == 0 {
        assert s[0] == 0 && DecodeLE(s[1..]) == 0;
        forall k | 0 <= k < |s| ensures s[k] == 0 {
          if k > 0 { assert s[k] == s[1..][k - 1]; }
        }
      } else if forall k :: 0 <= k < |s| ==> s[k] == 0 {
        forall k | 0 <= k < |s| - 1 ensures s[1..][k] == 0 {
          assert s[1..][k] == s[k + 1];
        }
        assert false;
      }
    }
  }

  lemma {:induction false} DecodeZeros(n: nat)
    ensures DecodeLE(Zeros(n)) == 0
  {
    if n > 0 {
      assert Zeros(n)[1..] == Zeros(n - 1);
      DecodeZeros(n - 1);
    }
  }

  lemma U64ModulusIsPow256()
    ensures Pow256(U64_SIZE) == U64_MODULUS
  {
    assert Pow256(4) == 0x1_0000_0000;
  }

  /** The width of a `uint64_t` in bytes, as a function so that the
      verifier unfolds the encodings below only when a proof asks for it. */
  function U64Width(): nat
  {
    U64_SIZE
  }

  /** The bytes a `uint64_t` store of `v` leaves in memory. */
  function EncodeU64(v: nat): (r: seq<Byte>)
    ensures |r| == U64_SIZE
  {
    EncodeLE(v, U64Width())
  }

  /** The `uint64_t` a load from 8 bytes yields. */
  function DecodeU64(s: seq<Byte>): (r: nat)
    requires |s| == U64_SIZE
    ensures r < U64_MODULUS
  {
    U64ModulusIsPow256();
    DecodeLE(s)
  }

  /** A load gives back what a store wrote, wrapped modulo 2^64. */
  lemma DecodeEncodeU64(v: nat)
    ensures DecodeU64(EncodeU64(v)) == v % U64_MODULUS
  {
    DecodeEncodeLE(v, U64Width());
    U64ModulusIsPow256();
  }

  lemma DecodeEncodeU64Small(v: nat)
    requires v < U64_MODULUS
    ensures DecodeU64(EncodeU64(v)) == v
  {
    DecodeEncodeU64(v);
    ModSmall(v);
  }

  /** A store of what a load read leaves the bytes as they were. */
  lemma EncodeDecodeU64(s: seq<Byte>)
    requires |s| == U64_SIZE
    ensures EncodeU64(DecodeU64(s)) == s
  {
    EncodeDecodeLE(s);
  }

  lemma EncodeU64Zero()
    ensures EncodeU64(0) == Zeros(U64_SIZE)
  {
    DecodeZeros(U64_SIZE);
    EncodeDecodeU64(Zeros(U64_SIZE));
  }

  /** `s` with `bytes` copied over it at offset `at`: the effect of a `memcpy` into a buffer. */
  function Splice(s: seq<Byte>, at: nat, bytes: seq<Byte>): (r: seq<Byte>)
    requires at + |bytes| <= |s|
    ensures |r| == |s|
  {
    s[..at] + bytes + s[at + |bytes|..]
  }

  /** The written bytes read back, and every byte outside them is kept. */
  lemma SpliceEffect(s: seq<Byte>, at: nat, bytes: seq<Byte>)
    requires at + |bytes| <= |s|
    ensures Splice(s, at, bytes)[at..at + |bytes|] == bytes
    ensures forall k :: 0 <= k < |s| && !(at <= k < at + |bytes|) ==> Splice(s, at, bytes)[k] == s[k]
  {
  }

  /** A slice inside a prefix is the same slice of the whole. */
  lemma SliceOfPrefix<T>(s: seq<T>, n: nat, lo: nat, hi: nat)
    requires lo <= hi <= n <= |s|
    ensures s[..n][lo..hi] == s[lo..hi]
  {
  }

  /** A slice of the middle part of a concatenation. */
  lemma SliceOfMiddle(p: seq<Byte>, x: seq<Byte>, s: seq<Byte>, lo: nat, hi: nat)
    requires lo <= hi <= |x|
    ensures (p + x + s)[|p| + lo..|p| + hi] == x[lo..hi]
  {
  }

  /** A prefix of a sequence is its three consecutive slices. */
  lemma PrefixOfSlices(s: seq<Byte>, i: nat, j: nat, n: nat)
    requires i <= j <= n <= |s|
    ensures s[..n] == s[..i] + s[i..j] + s[j..n]
  {
  }

  /** Regrouping a concatenation, spelled out so that the verifier need not
      search for it among long sequence terms. */
  lemma ConcatAssoc(h: seq<Byte>, a: seq<Byte>, b: seq<Byte>, c: seq<Byte>)
    ensures h + (a + b + c) == h + a + b + c
  {
  }

  /** A write that lands inside the middle part of a concatenation changes only that part. */
  lemma SpliceMiddle(a: seq<Byte>, b: seq<Byte>, c: seq<Byte>, k: nat, x: seq<Byte>)
    requires k + |x| <= |b|
    ensures |a| + k + |x| <= |a + b + c|
    ensures Splice(a + b + c, |a| + k, x) == a + Splice(b, k, x) + c
  {
    var lhs, rhs := Splice(a + b + c, |a| + k, x), a + Splice(b, k, x) + c;
    assert |lhs| == |rhs|;
    forall i | 0 <= i < |lhs| ensures lhs[i] == rhs[i] {
      if i < |a| {
      } else if i < |a| + |b| {
        assert rhs[i] == Splice(b, k, x)[i - |a|];
        if |a| + k <= i < |a| + k + |x| {
          assert lhs[i] == lhs[|a| + k..|a| + k + |x|][i - |a| - k];
          assert Splice(b, k, x)[i - |a|] == Splice(b, k, x)[k..k + |x|][i - |a| - k];
        }
      }
    }
  }

  /** The same for a buffer made of a prefix and three parts. */
  lemma SpliceInside(h: seq<Byte>, a: seq<Byte>, m: seq<Byte>, c: seq<Byte>, k: nat, x: seq<Byte>)
    requires k + |x| <= |m|
    ensures |h| + |a| + k + |x| <= |h + (a + m + c)|
    ensures Splice(h + (a + m + c), |h| + |a| + k, x) == h + (a + Splice(m, k, x) + c)
  {
    ConcatAssoc(h, a, m, c);
    ConcatAssoc(h, a, Splice(m, k, x), c);
    SpliceMiddle(h + a, m, c, k, x);
  }

  /** A write inside the middle part `m` of `whole`, which turns it into
      `m2`, turns `whole` into the same concatenation with `m2`. */
  lemma SpliceThrough(h: seq<Byte>, whole: seq<Byte>, a: seq<Byte>, m: seq<Byte>, c: seq<Byte>,
                      k: nat, x: seq<Byte>, m2: seq<Byte>, whole2: seq<Byte>)
    requires whole == a + m + c && k + |x| <= |m| && Splice(m, k, x) == m2
    requires whole2 == a + m2 + c
    ensures |h| + |a| + k + |x| <= |h + whole|
    ensures Splice(h + whole, |h| + |a| + k, x) == h + whole2
  {
    SpliceInside(h, a, m, c, k, x);
  }

  /** A write that exactly covers the middle part replaces it. */
  lemma SpliceReplace(a: seq<Byte>, b: seq<Byte>, c: seq<Byte>, x: seq<Byte>)
    requires |x| == |b|
    ensures |a| + |x| <= |a + b + c|
    ensures Splice(a + b + c, |a|, x) == a + x + c
  {
    SpliceMiddle(a, b, c, 0, x);
    SpliceWhole(b, x);
  }

  /** A write at the front of the tail part keeps the rest of the tail. */
  lemma SpliceTailFront(a: seq<Byte>, b: seq<Byte>, x: seq<Byte>)
    requires |x| <= |b|
    ensures |a| + |x| <= |a + b|
    ensures Splice(a + b, |a|, x) == a + (x + b[|x|..])
  {
    assert a + b + [] == a + b;
    SpliceMiddle(a, b, [], 0, x);
    SplicePrefix(b, x);
  }

  /** A write that covers a whole part of the buffer replaces it. */
  lemma SpliceWhole(b: seq<Byte>, x: seq<Byte>)
    requires |x| == |b|
    ensures Splice(b, 0, x) == x
  {
  }

  /** A write at the front keeps the bytes after it. */
  lemma SplicePrefix(b: seq<Byte>, x: seq<Byte>)
    requires |x| <= |b|
    ensures Splice(b, 0, x) == x + b[|x|..]
  {
  }
}
