/** The leading-zero test a tree node applies to its combined hash. */
module ZeroBits {
  import opened JavaInt
  import opened Bytes

  /** The test as the validator writes it: the first `bits / 8` bytes are
      zero, and when `bits` is not a whole number of bytes, the next byte,
      sign-extended to an `int` and arithmetically shifted right by
      `8 - bits % 8`, is zero. */
  predicate ZeroBitsOk(x: Bytes, bits: nat)
    requires bits / 8 <= |x|
    requires bits % 8 > 0 ==> bits / 8 < |x|
  {
    && (forall i :: 0 <= i < bits / 8 ==> x[i] == 0)
    && !(bits % 8 > 0 && ShiftRight(SignedByte(x[bits / 8]), 8 - bits % 8) != 0)
  }

  /** The sign-extended arithmetic shift of a byte is zero exactly when the
      byte, read unsigned, is below `2^s`: a negative byte shifts to a
      negative number. */
  lemma SignedShiftIff(b: bv8, s: nat)
    requires 1 <= s <= 7
    ensures ShiftRight(SignedByte(b), s) == 0 <==> (b as int) < Pow2(s)
  {
    Pow2Monotone(s, 7);
    FloorZero(SignedByte(b), Pow2(s), ShiftRight(SignedByte(b), s));
  }

  /** A byte is below `2^(8 - m)` exactly when its top `m` bits are clear. */
  lemma {:induction false} TopBitsIff(b: bv8, m: nat)
    requires m <= 8
    ensures (b as int) < Pow2(8 - m) <==> forall q :: 0 <= q < m ==> !BitSet(b, q)
  {
    if m == 0 {
      Pow2Add(4, 4);
      assert Pow2(4) == 16;
    } else {
      TopBitsIff(b, m - 1);
      var x, p := b as int, Pow2(8 - m);
      assert Pow2(8 - (m - 1)) == 2 * p;
      if x < 2 * p {
        HalfBit(x, p, ShiftRight(x, 8 - m));
      }
      assert (forall q :: 0 <= q < m ==> !BitSet(b, q)) <==>
        (forall q :: 0 <= q < m - 1 ==> !BitSet(b, q)) && !BitSet(b, m - 1);
    }
  }

  /** A byte is zero exactly when none of its eight bits is set. */
  lemma ByteZeroIff(b: bv8)
    ensures b == 0 <==> forall q :: 0 <= q < 8 ==> !BitSet(b, q)
  {
    TopBitsIff(b, 8);
  }

  /** The remainder test inspects exactly the top `m` bits of the byte. */
  lemma RemainderTestIff(b: bv8, m: nat)
    requires 1 <= m <= 7
    ensures ShiftRight(SignedByte(b), 8 - m) == 0 <==> forall q :: 0 <= q < m ==> !BitSet(b, q)
  {
    SignedShiftIff(b, 8 - m);
    TopBitsIff(b, m);
  }

  /** `r = floor(x / p)` is zero exactly when `0 <= x < p`. */
  lemma FloorZero(x: int, p: int, r: int)
    requires p >= 1 && r * p <= x < (r + 1) * p
    ensures r == 0 <==> 0 <= x < p
  {
    if r >= 1 {
      MulMonotone(r, p);
    } else if r <= -1 {
      MulMonotone(-(r + 1), p);
    }
  }

  /** Below `2p`, `floor(x / p)` is even exactly when `x < p`. */
  lemma HalfBit(x: int, p: int, r: int)
    requires p >= 1 && 0 <= x < 2 * p && r * p <= x < (r + 1) * p
    ensures r % 2 == 0 <==> x < p
  {
    if r >= 2 {
      MulLe(2, r, p);
    } else if r <= -1 {
      MulLe(r + 1, 0, p);
    }
  }

  lemma MulLe(a: int, b: int, w: int)
    requires a <= b && w >= 0
    ensures a * w <= b * w
  {
  }

  /** The validator's byte-and-shift test accepts exactly the strings whose
      first `bits` bits are zero. */
  lemma ZeroBitsOkIff(x: Bytes, bits: nat)
    requires bits <= 8 * |x|
    requires bits % 8 > 0 ==> bits / 8 < |x|
    ensures ZeroBitsOk(x, bits) <==> LeadingZeroBits(x, bits)
  {
    if ZeroBitsOk(x, bits) {
      ZeroBitsOkSound(x, bits);
    }
    if LeadingZeroBits(x, bits) {
      ZeroBitsOkComplete(x, bits);
    }
  }

  lemma ZeroBitsOkSound(x: Bytes, bits: nat)
    requires bits <= 8 * |x|
    requires bits % 8 > 0 ==> bits / 8 < |x|
    requires ZeroBitsOk(x, bits)
    ensures LeadingZeroBits(x, bits)
  {
    var whole, m := bits / 8, bits % 8;
    if m > 0 {
      RemainderTestIff(x[whole], m);
    }
    forall p | 0 <= p < bits
      ensures !Bit(x, p)
    {
      if p / 8 < whole {
        ByteZeroIff(x[p / 8]);
      }
    }
  }

  lemma ZeroBitsOkComplete(x: Bytes, bits: nat)
    requires bits <= 8 * |x|
    requires bits % 8 > 0 ==> bits / 8 < |x|
    requires LeadingZeroBits(x, bits)
    ensures ZeroBitsOk(x, bits)
  {
    var whole, m := bits / 8, bits % 8;
    forall i | 0 <= i < whole
      ensures x[i] == 0
    {
      TopBitsOfByte(x, bits, i, 8);
      ByteZeroIff(x[i]);
    }
    if m > 0 {
      TopBitsOfByte(x, bits, whole, m);
      RemainderTestIff(x[whole], m);
    }
  }

  /** The top `m` bits of byte `i` are among the first `bits` bits. */
  lemma TopBitsOfByte(x: Bytes, bits: nat, i: nat, m: nat)
    requires bits <= 8 * |x| && i < |x| && m <= 8 && 8 * i + m <= bits
    requires LeadingZeroBits(x, bits)
    ensures forall q :: 0 <= q < m ==> !BitSet(x[i], q)
  {
    forall q | 0 <= q < m
      ensures !BitSet(x[i], q)
    {
      assert !Bit(x, 8 * i + q);
    }
  }
}
