/** Java's 32-bit `int` arithmetic and the byte conversions the validator
    relies on, written out over Dafny's unbounded integers. */
module JavaInt {

  const TWO31: int := 0x8000_0000
  const TWO32: int := 0x1_0000_0000
  const MinInt: int := -TWO31

  /** The values of Java's `int`. */
  predicate IsInt(x: int) {
    -TWO31 <= x < TWO31
  }

  function Pow2(e: nat): (r: nat)
    ensures r >= 1
  {
    if e == 0 then 1 else 2 * Pow2(e - 1)
  }

  lemma {:induction false} Pow2Add(a: nat, b: nat)
    ensures Pow2(a + b) == Pow2(a) * Pow2(b)
  {
    if a > 0 {
      Pow2Add(a - 1, b);
    }
  }

  lemma Pow2Bound(e: nat)
    requires e <= 30
    ensures Pow2(e) <= 0x4000_0000
  {
    Pow2Monotone(e, 30);
    assert Pow2(10) == 1024;
    Pow2Add(10, 10);
    Pow2Add(20, 10);
  }

  lemma {:induction false} Pow2Monotone(a: nat, b: nat)
    requires a <= b
    ensures Pow2(a) <= Pow2(b)
  {
    if a < b {
      Pow2Monotone(a, b - 1);
    }
  }

  function Abs(x: int): nat {
    if x < 0 then -x else x
  }

  /** Two's-complement narrowing of a mathematical result to `int`: what a
      Java `+`, `*` or `<<` does when it overflows. */
  function Wrap(x: int): (r: int)
    ensures IsInt(r)
    ensures (x - r) % TWO32 == 0
    ensures IsInt(x) ==> r == x
  {
    (x + TWO31) % TWO32 - TWO31
  }

  /** Java's `/` on `int`: rounds toward zero, and `MIN_VALUE / -1`
      overflows back to `MIN_VALUE`. The caller rules out a zero divisor
      (Java throws ArithmeticException there). */
  function Div(a: int, b: int): (r: int)
    requires IsInt(a) && IsInt(b) && b != 0
    ensures IsInt(r)
    ensures 0 <= a && 0 < b ==> r == a / b
    ensures a == MinInt && b == -1 ==> r == MinInt
    ensures !(a == MinInt && b == -1) ==> Abs(r) == Abs(a) / Abs(b)
    ensures !(a == MinInt && b == -1) && r != 0 ==> (r < 0 <==> (a < 0) != (b < 0))
  {
    var q: int := Quotient(Abs(a), Abs(b));
    if (a < 0) != (b < 0) then -q
    else if q < TWO31 then q
    else MinInt
  }

  /** Division of magnitudes, with the bounds `Div` needs to stay in range. */
  function Quotient(x: nat, y: nat): (q: nat)
    requires y > 0
    ensures q == x / y
    ensures q <= x
    ensures y >= 2 && x > 0 ==> q < x
  {
    QuotientBounds(x, y);
    x / y
  }

  lemma QuotientBounds(x: nat, y: nat)
    requires y > 0
    ensures x / y <= x
    ensures (x / y) * y <= x
    ensures y >= 2 && x > 0 ==> x / y < x
  {
    var q := x / y;
    assert q * y <= x;
    MulMonotone(q, y);
    if y >= 2 {
      MulDouble(q, y);
    }
  }

  lemma MulMonotone(q: nat, y: nat)
    requires y >= 1
    ensures q <= q * y
  {
  }

  lemma MulDouble(q: nat, y: nat)
    requires y >= 2
    ensures 2 * q <= q * y
  {
  }

  /** Java's `1 << k`: the shift distance is `k & 31`, the result wraps. */
  function ShiftLeftOne(k: int): (r: int)
    requires IsInt(k)
    ensures IsInt(r)
    ensures 0 <= k < 31 ==> r == Pow2(k)
  {
    var e := k % 32;
    if e < 31 then
      Pow2Bound(e);
      Wrap(Pow2(e))
    else
      Wrap(Pow2(e))
  }

  /** A Java `byte` widened to `int`: sign-extended. */
  function SignedByte(b: bv8): (r: int)
    ensures -128 <= r < 128
    ensures 0 <= r <==> b < 128
  {
    if b < 128 then b as int else b as int - 256
  }

  /** Java's `>>` on `int`: the arithmetic shift, i.e. division by `2^s`
      rounding toward negative infinity. */
  function ShiftRight(x: int, s: nat): (r: int)
    ensures r * Pow2(s) <= x < (r + 1) * Pow2(s)
  {
    x / Pow2(s)
  }

  /** The number whose base-256 digits, least significant first, are
      `d0 .. d3`. */
  function Recombine(d0: int, d1: int, d2: int, d3: int): int {
    d0 + 256 * (d1 + 256 * (d2 + 256 * d3))
  }

  /** The byte with value `v`, counted up from zero. */
  function Byte(v: nat): (b: bv8)
    requires v < 256
    ensures b as int == v
    decreases v
  {
    if v == 0 then 0 else Byte(v - 1) + 1
  }

  /** The four bytes of an `int`, least significant first (the helper the
      validator calls `intToBytesLE`). */
  function LE32(x: int): (r: seq<bv8>)
    requires IsInt(x)
    ensures |r| == 4
    ensures FromLE32(r) == x
  {
    var u0 := if x < 0 then x + TWO32 else x;
    var u1 := u0 / 256;
    var u2 := u1 / 256;
    var u3 := u2 / 256;
    DigitsRecombine(u0);
    var r := [Byte(u0 % 256), Byte(u1 % 256), Byte(u2 % 256), Byte(u3)];
    FromLE32Digits(r, u0 % 256, u1 % 256, u2 % 256, u3);
    r
  }

  lemma DigitsRecombine(u0: int)
    requires 0 <= u0 < TWO32
    ensures var u1 := u0 / 256; var u2 := u1 / 256; var u3 := u2 / 256;
      u3 < 256 && u0 == Recombine(u0 % 256, u1 % 256, u2 % 256, u3)
  {
    var u1 := u0 / 256;
    var u2 := u1 / 256;
    SplitDigit(u0, 0x100_0000);
    SplitDigit(u1, 0x1_0000);
    SplitDigit(u2, 0x100);
  }

  lemma SplitDigit(v: nat, m: nat)
    requires v < 256 * m
    ensures v == v % 256 + 256 * (v / 256) && v / 256 < m
  {
  }

  lemma FromLE32Digits(b: seq<bv8>, d0: int, d1: int, d2: int, d3: int)
    requires |b| == 4
    requires b[0] as int == d0 && b[1] as int == d1 && b[2] as int == d2 && b[3] as int == d3
    ensures var u := Recombine(d0, d1, d2, d3); FromLE32(b) == if u >= TWO31 then u - TWO32 else u
  {
  }

  /** Reads four little-endian bytes back as a two's-complement `int`. */
  function FromLE32(b: seq<bv8>): (x: int)
    requires |b| == 4
  {
    var u := Recombine(b[0] as int, b[1] as int, b[2] as int, b[3] as int);
    if u >= TWO31 then u - TWO32 else u
  }
}
