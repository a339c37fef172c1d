/**
 * Bytes and the little-endian integer encoding used by every wire format of
 * the RPC layer (`write_le` / `read_le`) and by the forward hash.
 */
module Bytes {

  type byte = x: int | 0 <= x < 0x100

  const U16: nat := 0x1_0000
  const U32: nat := 0x1_0000_0000
  const U64: nat := 0x1_0000_0000_0000_0000
  const I64Min: int := -0x8000_0000_0000_0000
  const I64Max: int := 0x7fff_ffff_ffff_ffff

  /** 256 to the power n: the number of values an n-byte unsigned integer holds. */
  function Pow256(n: nat): (r: nat)
    ensures r > 0
  {
    if n == 0 then 1 else 256 * Pow256(n - 1)
  }

  lemma Pow256Values()
    ensures Pow256(2) == U16 && Pow256(4) == U32 && Pow256(8) == U64
  {
    assert Pow256(0) == 1;
    assert Pow256(1) == 0x100;
    assert Pow256(2) == 0x1_0000;
    assert Pow256(3) == 0x100_0000;
    assert Pow256(4) == 0x1_0000_0000;
    assert Pow256(5) == 0x100_0000_0000;
    assert Pow256(6) == 0x1_0000_0000_0000;
    assert Pow256(7) == 0x100_0000_0000_0000;
  }

  lemma DivBound(n: nat, w: nat)
    requires w > 0 && n < Pow256(w)
    ensures n / 256 < Pow256(w - 1)
  {
    assert Pow256(w) == 256 * Pow256(w - 1);
  }

  /** The `width` bytes of n, least significant first. */
  function LE(n: nat, width: nat): (r: seq<byte>)
    requires n < Pow256(width)
    ensures |r| == width
  {
    if width == 0 then []
    else
      DivBound(n, width);
      [(n % 256) as byte] + LE(n / 256, width - 1)
  }

  /** The unsigned integer whose little-endian bytes are s. */
  function FromLE(s: seq<byte>): (n: nat)
    ensures n < Pow256(|s|)
  {
    if |s| == 0 then 0
    else
      var rest := FromLE(s[1..]);
      assert Pow256(|s|) == 256 * Pow256(|s| - 1);
      assert s[0] + 256 * rest <= 255 + 256 * (Pow256(|s| - 1) - 1);
      s[0] + 256 * rest
  }

  /** Reading back what was written yields the written number. */
  lemma {:induction false} FromLEOfLE(n: nat, width: nat)
    requires n < Pow256(width)
    ensures FromLE(LE(n, width)) == n
  {
    if width > 0 {
      DivBound(n, width);
      var s := LE(n, width);
      assert s[1..] == LE(n / 256, width - 1);
      FromLEOfLE(n / 256, width - 1);
    }
  }

  /** Every byte string is the encoding of the number it denotes. */
  lemma {:induction false} LEOfFromLE(s: seq<byte>)
    ensures LE(FromLE(s), |s|) == s
  {
    if |s| > 0 {
      LEOfFromLE(s[1..]);
      var n := FromLE(s);
      assert n % 256 == s[0] && n / 256 == FromLE(s[1..]);
    }
  }

  /** The encoding of n is injective: different numbers give different bytes. */
  lemma LEInjective(a: nat, b: nat, width: nat)
    requires a < Pow256(width) && b < Pow256(width)
    requires LE(a, width) == LE(b, width)
    ensures a == b
  {
    FromLEOfLE(a, width);
    FromLEOfLE(b, width);
  }

  /** Decoding a concatenation: the second part carries the higher-order digits. */
  lemma {:induction false} FromLEAppend(a: seq<byte>, b: seq<byte>)
    ensures FromLE(a + b) == FromLE(a) + Pow256(|a|) * FromLE(b)
  {
    if |a| > 0 {
      assert (a + b)[1..] == a[1..] + b;
      FromLEAppend(a[1..], b);
      var p := Pow256(|a| - 1);
      var x, y := FromLE(a[1..]), FromLE(b);
      assert FromLE(a + b) == a[0] + 256 * FromLE(a[1..] + b);
      assert FromLE(a) == a[0] + 256 * x;
      assert Pow256(|a|) == 256 * p;
      HornerStep(a[0] as int, x, y, p);
    } else {
      assert a + b == b;
    }
  }

  lemma HornerStep(c: int, x: int, y: int, p: int)
    ensures c + 256 * (x + p * y) == (c + 256 * x) + (256 * p) * y
  {
    MulDistrib(256, x, p * y);
    MulAssoc(256, p, y);
  }

  lemma MulDistrib(k: int, x: int, y: int)
    ensures k * (x + y) == k * x + k * y
  {
  }

  lemma MulAssoc(a: int, b: int, c: int)
    ensures a * (b * c) == (a * b) * c
  {
  }

  lemma MulAtLeast(k: int, p: int)
    requires k >= 1 && p >= 0
    ensures k * p >= p
  {
    assert k * p == p + (k - 1) * p;
  }

  lemma DivModUnique(n: nat, p: nat, q: nat, r: nat)
    requires p > 0 && r < p && n == r + p * q
    ensures q == n / p && r == n % p
  {
    var q0, r0 := n / p, n % p;
    assert n == q0 * p + r0;
    assert n == q * p + r;
    if q > q0 {
      assert (q - q0) * p == r0 - r;
      MulAtLeast(q - q0, p);
      assert false;
    } else if q < q0 {
      assert (q0 - q) * p == r - r0;
      MulAtLeast(q0 - q, p);
      assert false;
    }
  }

  /** An encoding in w1 + w2 bytes is the low w1 bytes followed by the high w2 bytes. */
  lemma LEConcat(lo: nat, hi: nat, w1: nat, w2: nat)
    requires lo < Pow256(w1) && hi < Pow256(w2)
    ensures lo + Pow256(w1) * hi < Pow256(w1 + w2)
    ensures LE(lo + Pow256(w1) * hi, w1 + w2) == LE(lo, w1) + LE(hi, w2)
  {
    var a, b := LE(lo, w1), LE(hi, w2);
    FromLEAppend(a, b);
    FromLEOfLE(lo, w1);
    FromLEOfLE(hi, w2);
    assert FromLE(a + b) == lo + Pow256(w1) * hi;
    LEOfFromLE(a + b);
  }

  /** Bytes of a little-endian field of `width` bytes starting at `off`. */
  function ReadLE(s: seq<byte>, off: nat, width: nat): (n: nat)
    requires off + width <= |s|
    ensures n < Pow256(width)
  {
    FromLE(s[off..off + width])
  }

  function LE32(n: nat): (r: seq<byte>)
    requires n < U32
    ensures |r| == 4
  {
    Pow256Values();
    LE(n, 4)
  }

  function LE64(n: nat): (r: seq<byte>)
    requires n < U64
    ensures |r| == 8
  {
    Pow256Values();
    LE(n, 8)
  }

  /** `write_le<int64_t>`: the two's complement bit pattern of a signed 64-bit value. */
  function ToU64(x: int): (u: nat)
    requires I64Min <= x <= I64Max
    ensures u < U64
    ensures x >= 0 ==> u == x
    ensures x < 0 ==> u == x + U64
  {
    if x >= 0 then x else x + U64
  }

  /** `read_le<int64_t>`: the signed value of a 64-bit pattern. */
  function FromU64(u: nat): (x: int)
    requires u < U64
    ensures I64Min <= x <= I64Max
  {
    if u <= I64Max then u else u - U64
  }

  lemma SignedRoundTrip(x: int)
    requires I64Min <= x <= I64Max
    ensures FromU64(ToU64(x)) == x
  {
  }

  /**
   * Negation of an int64. C++ leaves negating the minimum value undefined;
   * the model picks the two's-complement wrap, which maps it to itself.
   */
  function Neg64(x: int): (r: int)
    requires I64Min <= x <= I64Max
    ensures I64Min <= r <= I64Max
    ensures x != I64Min ==> r == -x
    ensures x == I64Min ==> r == I64Min
  {
    if x == I64Min then x else -x
  }

  /**
   * `std::abs` on an int64. C++ leaves the absolute value of the minimum
   * undefined; the model picks the two's-complement wrap, the minimum itself.
   */
  function Abs64(x: int): (r: int)
    requires I64Min <= x <= I64Max
    ensures x != I64Min ==> r >= 0 && (r == x || r == -x)
    ensures x == I64Min ==> r == I64Min
  {
    if x >= 0 then x else Neg64(x)
  }

  /** A sequence of n zero bytes: the stand-in for uninitialised buffer space. */
  function Zeros(n: nat): (r: seq<byte>)
    ensures |r| == n && forall i :: 0 <= i < n ==> r[i] == 0
  {
    seq(n, _ => 0)
  }
}
