/**
 * Async-signal-safe number formatting: zero-padded lower-case hexadecimal and
 * plain decimal digits of an unsigned integer, produced into a fixed buffer
 * from the least significant digit backwards. Writing the buffer to stderr is
 * outside the model; the methods return the characters that are written.
 */
module PrintSafe {
  import opened Bytes

  const HexDigits: string := "0123456789abcdef"

  function Pow16(e: nat): (r: nat)
    ensures r > 0
  {
    if e == 0 then 1 else 16 * Pow16(e - 1)
  }

  function Pow10(e: nat): (r: nat)
    ensures r > 0
  {
    if e == 0 then 1 else 10 * Pow10(e - 1)
  }

  /** The widths of the unsigned integral types the formatters accept. */
  predicate UnsignedWidth(size: nat) {
    size == 1 || size == 2 || size == 4 || size == 8
  }

  predicate IsHexDigit(c: char) {
    '0' <= c <= '9' || 'a' <= c <= 'f'
  }

  function HexValue(c: char): (v: nat)
    requires IsHexDigit(c)
    ensures v < 16 && HexDigits[v] == c
  {
    if c <= '9' then (c as int) - ('0' as int) else (c as int) - ('a' as int) + 10
  }

  lemma HexValueOfDigit(v: nat)
    requires v < 16
    ensures IsHexDigit(HexDigits[v]) && HexValue(HexDigits[v]) == v
  {
  }

  /** The last `w` hexadecimal digits of `n`, most significant first, padded with zeros. */
  function Hex(n: nat, w: nat): (s: string)
    ensures |s| == w
    ensures forall k :: 0 <= k < w ==> IsHexDigit(s[k])
  {
    if w == 0 then [] else Hex(n / 16, w - 1) + [HexDigits[n % 16]]
  }

  /** The value of a string of hexadecimal digits, most significant first. */
  function ParseHex(s: string): (n: nat)
    requires forall k :: 0 <= k < |s| ==> IsHexDigit(s[k])
    ensures n < Pow16(|s|)
  {
    if s == [] then 0 else 16 * ParseHex(s[..|s| - 1]) + HexValue(s[|s| - 1])
  }

  /** Reading the digits back gives the number whenever it fits in `w` digits. */
  lemma {:induction false} ParseHexOfHex(n: nat, w: nat)
    requires n < Pow16(w)
    ensures ParseHex(Hex(n, w)) == n
  {
    if w > 0 {
      var s := Hex(n, w);
      assert s[..w - 1] == Hex(n / 16, w - 1);
      HexValueOfDigit(n % 16);
      ParseHexOfHex(n / 16, w - 1);
    }
  }

  /** Every digit string of length `w` is the rendering of its own value. */
  lemma {:induction false} HexOfParseHex(s: string)
    requires forall k :: 0 <= k < |s| ==> IsHexDigit(s[k])
    ensures Hex(ParseHex(s), |s|) == s
  {
    if s != [] {
      var init := s[..|s| - 1];
      var n := ParseHex(s);
      assert n / 16 == ParseHex(init) && n % 16 == HexValue(s[|s| - 1]);
      HexOfParseHex(init);
      assert s == init + [s[|s| - 1]];
    }
  }

  /** Zero renders as all zeros. */
  lemma {:induction false} HexOfZero(w: nat)
    ensures Hex(0, w) == seq(w, _ => '0')
  {
    if w > 0 {
      HexOfZero(w - 1);
    }
  }

  lemma {:induction false} Pow16Bytes(size: nat)
    ensures Pow256(size) == Pow16(2 * size)
  {
    if size > 0 {
      Pow16Bytes(size - 1);
      assert Pow16(2 * size) == 256 * Pow16(2 * (size - 1));
    }
  }

  /**
   * `print_zero_padded_hex_safe`: a buffer of two characters per byte of the
   * type, filled with '0', then written from the right with one digit per
   * nibble until the value is exhausted.
   */
  method PrintZeroPaddedHex(n: nat, size: nat) returns (out: string)
    requires UnsignedWidth(size) && n < Pow256(size)
    ensures out == Hex(n, 2 * size)
  {
    Pow16Bytes(size);
    var buf, i := WriteHexDigits(n, 2 * size);
    HexOfZero(i);
    assert buf[..i] == seq(i, _ => '0');
    assert buf == buf[..i] + buf[i..];
    out := buf;
  }

  /** The digit loop: the buffer starts as zeros and takes one digit per nibble until none is left. */
  method WriteHexDigits(n: nat, w: nat) returns (buf: string, i: nat)
    requires n < Pow16(w)
    ensures i <= |buf| == w
    ensures forall k :: 0 <= k < i ==> buf[k] == '0'
    ensures Hex(n, w) == Hex(0, i) + buf[i..]
  {
    buf := seq(w, _ => '0');
    i := w;
    var m: nat := n;
    while m != 0
      invariant i <= |buf| == w
      invariant m < Pow16(i)
      invariant forall k :: 0 <= k < i ==> buf[k] == '0'
      invariant Hex(n, w) == Hex(m, i) + buf[i..]
      decreases m
    {
      ghost var tail := buf[i..];
      assert i > 0;
      HexPeel(m, i);
      buf := PutDigit(buf, i, HexDigits[m % 16]);
      assert Hex(m, i) + tail == Hex(m / 16, i - 1) + buf[i - 1..];
      i := i - 1;
      m := m / 16;
    }
  }

  /** The last digit comes off the right-hand end; the rest is the value divided by 16. */
  lemma HexPeel(m: nat, i: nat)
    requires m < Pow16(i) && i > 0
    ensures m / 16 < Pow16(i - 1)
    ensures Hex(m, i) == Hex(m / 16, i - 1) + [HexDigits[m % 16]]
  {
  }

  /** The documented example: the 16-bit value 12 prints as "000c". */
  lemma HexExample()
    ensures Hex(12, 4) == "000c"
  {
    assert HexDigits[0] == '0' && HexDigits[12] == 'c';
    assert Hex(0, 1) == Hex(0, 0) + "0" == "0";
    assert Hex(0, 2) == Hex(0, 1) + "0" == "00";
    assert Hex(0, 3) == Hex(0, 2) + "0" == "000";
    assert Hex(12, 4) == Hex(0, 3) + "c";
  }

  /** The character of a decimal digit. */
  function Digit(d: nat): (c: char)
    requires d < 10
    ensures '0' <= c <= '9' && (c == '0' <==> d == 0)
  {
    (d + ('0' as int)) as char
  }

  /** The decimal digits of `n`, most significant first, without leading zeros. */
  function Dec(n: nat): (s: string)
    ensures 1 <= |s|
    ensures forall k :: 0 <= k < |s| ==> '0' <= s[k] <= '9'
    ensures s[0] == '0' ==> n == 0
  {
    if n < 10 then [Digit(n % 10)] else Dec(n / 10) + [Digit(n % 10)]
  }

  function ParseDec(s: string): (n: nat)
    requires forall k :: 0 <= k < |s| ==> '0' <= s[k] <= '9'
  {
    if s == [] then 0 else 10 * ParseDec(s[..|s| - 1]) + ((s[|s| - 1] as int) - ('0' as int))
  }

  /** A decimal string in canonical form: digits only, no leading zero unless it is "0". */
  predicate CanonicalDec(s: string) {
    && 1 <= |s|
    && (forall k :: 0 <= k < |s| ==> '0' <= s[k] <= '9')
    && (s[0] == '0' ==> |s| == 1)
  }

  lemma {:induction false} ParseDecOfDec(n: nat)
    ensures ParseDec(Dec(n)) == n
  {
    if n >= 10 {
      var s := Dec(n);
      assert s[..|s| - 1] == Dec(n / 10);
      ParseDecOfDec(n / 10);
    }
  }

  lemma {:induction false} ParseDecPositive(s: string)
    requires CanonicalDec(s) && s[0] != '0'
    ensures ParseDec(s) > 0
  {
    if |s| > 1 {
      ParseDecPositive(s[..|s| - 1]);
    }
  }

  /** Rendering and reading back are inverse on canonical strings too. */
  lemma {:induction false} DecOfParseDec(s: string)
    requires CanonicalDec(s)
    ensures Dec(ParseDec(s)) == s
  {
    if |s| > 1 {
      var init, last := s[..|s| - 1], s[|s| - 1];
      assert CanonicalDec(init) && init[0] != '0' by {
        assert init[0] == s[0];
        forall k | 0 <= k < |init|
          ensures '0' <= init[k] <= '9'
        {
          assert init[k] == s[k];
        }
      }
      ParseDecPositive(init);
      DecOfParseDec(init);
      assert ParseDec(s) == 10 * ParseDec(init) + ((last as int) - ('0' as int));
      DecAppend(ParseDec(init), last);
      assert Dec(ParseDec(s)) == init + [last];
      assert s == init + [last];
    } else {
      var d := (s[0] as int) - ('0' as int);
      assert ParseDec(s[..0]) == 0;
      assert ParseDec(s) == d;
      assert Dec(d) == [Digit(d)] && Digit(d) == s[0];
      assert s == [s[0]];
    }
  }

  /** Appending a digit character to the rendering of a positive number multiplies it by ten and adds the digit. */
  lemma DecAppend(m: nat, c: char)
    requires m > 0 && '0' <= c <= '9'
    ensures Dec(10 * m + ((c as int) - ('0' as int))) == Dec(m) + [c]
  {
    var d := (c as int) - ('0' as int);
    var n := 10 * m + d;
    DivModUnique(n, 10, m, d);
    assert Digit(d) == c;
  }

  lemma CanonicalDecOfDec(n: nat)
    ensures CanonicalDec(Dec(n))
  {
  }

  lemma {:induction false} Pow256BelowPow10(size: nat)
    ensures Pow256(size) <= Pow10(3 * size)
  {
    if size > 0 {
      Pow256BelowPow10(size - 1);
      var e := 3 * (size - 1);
      Pow10Thousand(e);
      ScaleBelow(Pow256(size - 1), Pow10(e));
    }
  }

  lemma Pow10Thousand(e: nat)
    ensures Pow10(e + 3) == 1000 * Pow10(e)
  {
    assert Pow10(e + 3) == 10 * Pow10(e + 2);
    assert Pow10(e + 2) == 10 * Pow10(e + 1);
  }

  lemma ScaleBelow(a: nat, b: nat)
    requires a <= b
    ensures 256 * a <= 1000 * b
  {
  }

  /**
   * `print_decimal_safe`: a buffer of three characters per byte of the type,
   * filled from the right with at least one digit; the digits written are
   * the output. Three characters per byte always suffice.
   */
  method PrintDecimal(n: nat, size: nat) returns (out: string)
    requires UnsignedWidth(size) && n < Pow256(size)
    ensures out == Dec(n)
  {
    var buf: string := seq(3 * size, _ => '0');
    var i: nat := 3 * size;
    var m: nat := n;
    Pow256BelowPow10(size);
    assert Dec(n) == Dec(n) + buf[i..];
    buf, i, m := DecStep(buf, i, m);
    while m != 0
      invariant i <= |buf| == 3 * size
      invariant m < Pow10(i)
      invariant Dec(n) == (if m == 0 then [] else Dec(m)) + buf[i..]
      decreases m
    {
      assert i > 0;
      buf, i, m := DecStep(buf, i, m);
    }
    out := buf[i..];
  }

  /** One turn of the digit loop: the last digit of m goes just left of position i. */
  method DecStep(buf: string, i: nat, m: nat) returns (buf': string, i': nat, m': nat)
    requires 0 < i <= |buf| && m < Pow10(i)
    ensures |buf'| == |buf| && i' == i - 1 && m' == m / 10 && m' < Pow10(i')
    ensures Dec(m) + buf[i..] == (if m' == 0 then [] else Dec(m')) + buf'[i'..]
  {
    DecPeel(m, i);
    buf' := PutDigit(buf, i, Digit(m % 10));
    i' := i - 1;
    m' := m / 10;
    if m' != 0 {
      assert Dec(m) + buf[i..] == Dec(m') + buf'[i'..];
    }
  }

  lemma DecPeel(m: nat, i: nat)
    requires m < Pow10(i) && i > 0
    ensures m / 10 < Pow10(i - 1)
    ensures m / 10 == 0 ==> Dec(m) == [Digit(m % 10)]
    ensures m / 10 != 0 ==> Dec(m) == Dec(m / 10) + [Digit(m % 10)]
  {
  }

  /** Stores one character just left of position i: `*--p = c`. */
  method PutDigit(buf: string, i: nat, c: char) returns (r: string)
    requires 0 < i <= |buf|
    ensures |r| == |buf| && r[i - 1..] == [c] + buf[i..]
    ensures forall k :: 0 <= k < i - 1 ==> r[k] == buf[k]
  {
    r := buf[i - 1 := c];
    assert r[i - 1..] == [c] + buf[i..];
  }

  /** The documented example: 12 prints as "12". */
  lemma DecExample()
    ensures Dec(12) == "12"
  {
  }
}
