/** Byte strings, their byte-wise XOR and their bits. */
module Bytes {
  import opened JavaInt

  type Bytes = seq<bv8>

  /** A freshly allocated Java `byte[w]`. */
  function Zeros(w: nat): (r: Bytes)
    ensures |r| == w
    ensures forall i :: 0 <= i < w ==> r[i] == 0
  {
    seq(w, _ => 0)
  }

  /** Byte-wise exclusive or of two strings of the same length. */
  function Xor(a: Bytes, b: Bytes): (r: Bytes)
    requires |a| == |b|
    ensures |r| == |a|
    ensures forall i :: 0 <= i < |a| ==> r[i] == a[i] ^ b[i]
  {
    seq(|a|, i requires 0 <= i < |a| => a[i] ^ b[i])
  }

  lemma XorAssociative(a: Bytes, b: Bytes, c: Bytes)
    requires |a| == |b| == |c|
    ensures Xor(Xor(a, b), c) == Xor(a, Xor(b, c))
  {
    var l, r := Xor(Xor(a, b), c), Xor(a, Xor(b, c));
    forall i | 0 <= i < |a|
      ensures l[i] == r[i]
    {
      assert l[i] == (a[i] ^ b[i]) ^ c[i];
    }
  }

  lemma XorZeroLeft(a: Bytes)
    ensures Xor(Zeros(|a|), a) == a
  {
  }

  /** Every string in `hs` has `w` bytes. */
  predicate AllWidth(hs: seq<Bytes>, w: nat) {
    forall i :: 0 <= i < |hs| ==> |hs[i]| == w
  }

  lemma XorZeroRight(a: Bytes)
    ensures Xor(a, Zeros(|a|)) == a
  {
  }

  /** Bit `q` of a byte, counting from the most significant bit (q == 0). */
  predicate BitSet(b: bv8, q: nat)
    requires q < 8
  {
    (b as int / Pow2(7 - q)) % 2 == 1
  }

  /** Bit `p` of a string, most significant bit of byte 0 first. */
  predicate Bit(x: Bytes, p: nat)
    requires p < 8 * |x|
  {
    BitSet(x[p / 8], p % 8)
  }

  /** The first `bits` bits of `x` are all zero. */
  ghost predicate LeadingZeroBits(x: Bytes, bits: nat)
    requires bits <= 8 * |x|
  {
    forall p :: 0 <= p < bits ==> !Bit(x, p)
  }
}
