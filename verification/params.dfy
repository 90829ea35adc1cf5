/** The puzzle geometry the validator derives from `(n, k)` when it is
    constructed, and the hash personalization it configures. */
module Params {
  import opened Results
  import opened JavaInt
  import opened Bytes

  /** The fields the constructor sets, in the source's own names. The two
      that size arrays are never negative: allocating them would throw. */
  datatype Config = Config(
    n: int,
    k: int,
    indicesPerHashOutput: int,
    indicesHashLength: nat,
    hashOutput: int,
    collisionBitLength: int,
    collisionByteLength: int,
    solutionWidth: nat)

  /** The constructor, with Java `int` arithmetic: a zero divisor throws, a
      product wraps, `1 << k` shifts by `k & 31`, and allocating the
      `hashes` array with a negative dimension throws. */
  function Derive(n: int, k: int): (r: Result<Config>)
    requires IsInt(n) && IsInt(k)
    ensures r.Ok? ==> r.value.n == n && r.value.k == k
    ensures r == Err(DivisionByZero) <==> n == 0 || k == -1
    ensures r.Err? ==> r.fault in {DivisionByZero, NegativeArraySize}
  {
    if n == 0 then Err(DivisionByZero)
    else
      var perHash := Div(512, n);
      var hashLength := Div(Wrap(n + 7), 8);
      var output := Wrap(perHash * hashLength);
      var kPlusOne := Wrap(k + 1);
      if kPlusOne == 0 then Err(DivisionByZero)
      else
        var collisionBits := Div(n, kPlusOne);
        var collisionBytes := Div(Wrap(collisionBits + 7), 8);
        var width := Div(Wrap(ShiftLeftOne(k) * Wrap(collisionBits + 1)), 8);
        if width < 0 || hashLength < 0 then Err(NegativeArraySize)
        else Ok(Config(n, k, perHash, hashLength, output, collisionBits, collisionBytes, width))
  }

  /** The longest digest Blake2b produces, in bytes (RFC 7693, section
      2.1): the `hashOutput` the validator asks for must not exceed it. */
  const MaxDigestLength := 64

  /** The parameters this model verifies solutions for: every hash slice
      exists (n <= 512), the digest is one Blake2b can produce, the shift
      and the width product stay inside `int`, and the `hashes` array has a
      slot per leaf (collisionBitLength >= 7). The example geometry
      n = 200, k = 9 (a 50-byte digest) is one of them. */
  predicate Supported(n: int, k: int) {
    && 1 <= n <= 512
    && (512 / n) * ((n + 7) / 8) <= MaxDigestLength
    && 0 <= k < 31
    && n / (k + 1) >= 7
    && Pow2(k) * (n / (k + 1) + 1) < TWO31
  }

  /** A configuration whose fields are the exact (unbounded) values of the
      formulas: floor(512/n), ceil(n/8), their product, floor(n/(k+1)),
      its byte ceiling, and 2^k (collisionBitLength + 1) / 8 bytes. */
  predicate WellFormed(c: Config) {
    && Supported(c.n, c.k)
    && c.indicesPerHashOutput == 512 / c.n
    && c.indicesHashLength == (c.n + 7) / 8
    && c.hashOutput == c.indicesPerHashOutput * c.indicesHashLength
    && c.collisionBitLength == c.n / (c.k + 1)
    && c.collisionByteLength == (c.collisionBitLength + 7) / 8
    && c.solutionWidth == Pow2(c.k) * (c.collisionBitLength + 1) / 8
  }

  /** On supported parameters none of the constructor's `int` operations
      overflows or throws, so it yields the exact formulas. */
  lemma DeriveSupported(n: int, k: int)
    requires Supported(n, k)
    ensures IsInt(n) && IsInt(k)
    ensures Derive(n, k).Ok? && WellFormed(Derive(n, k).value)
  {
    var perHash, hashLength := 512 / n, (n + 7) / 8;
    QuotientBounds(512, n);
    ProductBound(perHash, hashLength);
    QuotientBounds(n, k + 1);
    var p := Pow2(k);
    WidthInRange(p, n / (k + 1) + 1);
  }

  lemma ProductBound(a: int, b: int)
    requires 0 <= a <= 512 && 0 <= b <= 64
    ensures 0 <= a * b <= 512 * 64
  {
    MulBound(a, b, 512, 64);
  }

  lemma WidthInRange(p: int, c: int)
    requires p >= 1 && c >= 1 && p * c < TWO31
    ensures 0 <= p * c
  {
    MulMonotone(p, c);
  }

  lemma MulBound(a: nat, b: nat, x: nat, y: nat)
    requires a <= x && b <= y
    ensures a * b <= x * y
  {
  }

  /** The facts about a geometry that hashing and the tree walk rely on,
      stated without divisions, and with the two products as repeated sums
      (`MultipleIsProduct`) so that they stay out of arithmetic reasoning
      that does not need them. */
  predicate Layout(c: Config) {
    && 1 <= c.n <= 512
    && 0 <= c.k < 31
    && c.indicesPerHashOutput >= 1
    && c.indicesHashLength >= 1 && c.n <= 8 * c.indicesHashLength
    && c.hashOutput == Multiple(c.indicesHashLength, c.indicesPerHashOutput)
    && c.collisionBitLength >= 7
    && Multiple(c.collisionBitLength, c.k + 1) <= c.n
    && Pow2(c.k) <= c.solutionWidth
  }

  /** The digest a geometry asks Blake2b for is one it can produce. */
  predicate DigestFits(c: Config) {
    1 <= c.hashOutput <= MaxDigestLength
  }

  /** The two products of a layout. */
  lemma LayoutProducts(c: Config)
    requires Layout(c)
    ensures c.hashOutput == c.indicesPerHashOutput * c.indicesHashLength
    ensures c.collisionBitLength * (c.k + 1) <= c.n
  {
    MultipleIsProduct(c.indicesHashLength, c.indicesPerHashOutput);
    MultipleIsProduct(c.collisionBitLength, c.k + 1);
  }

  /** A well-formed geometry has the layout: every index's hash is a whole
      slice of one digest, the hashes cover all `n` bits, and the `hashes`
      array has a slot per leaf. */
  lemma Geometry(c: Config)
    requires WellFormed(c)
    ensures Layout(c) && DigestFits(c)
  {
    HashSlices(c);
    CollisionBits(c);
    SlotPerLeaf(Pow2(c.k), c.collisionBitLength + 1);
  }

  /** `indicesPerHashOutput` slices of `ceil(n/8)` bytes, covering `n` bits,
      in a digest Blake2b can produce. */
  lemma HashSlices(c: Config)
    requires WellFormed(c)
    ensures c.indicesPerHashOutput >= 1
    ensures c.indicesHashLength >= 1 && c.n <= 8 * c.indicesHashLength
    ensures c.hashOutput == Multiple(c.indicesHashLength, c.indicesPerHashOutput)
    ensures 1 <= c.hashOutput <= MaxDigestLength
  {
    AtLeastOne(512, c.n);
    MultipleIsProduct(c.indicesHashLength, c.indicesPerHashOutput);
    MulBound(1, 1, c.indicesHashLength, c.indicesPerHashOutput);
  }

  /** `k + 1` collision lengths fit in `n` bits. */
  lemma CollisionBits(c: Config)
    requires WellFormed(c)
    ensures Multiple(c.collisionBitLength, c.k + 1) <= c.n
  {
    FloorMultiple(c.n, c.k + 1);
  }

  lemma FloorMultiple(x: nat, d: nat)
    requires d > 0
    ensures Multiple(x / d, d) <= x
  {
    QuotientBounds(x, d);
    MultipleIsProduct(x / d, d);
  }

  lemma AtLeastOne(x: int, y: int)
    requires 1 <= y <= x
    ensures x / y >= 1
  {
  }

  lemma SlotPerLeaf(p: nat, c: nat)
    requires c >= 8
    ensures p <= p * c / 8
  {
    MulBound(p, 8, p, c);
  }

  /** How many leading bits of a node's combined hash must be zero:
      `round * collisionBitLength` below the root, all `n` at the root. */
  function Bits(c: Config, round: nat): int {
    if round < c.k then Multiple(c.collisionBitLength, round) else c.n
  }

  /** `count` copies of `b` added up; kept as a sum so that the product
      does not enter every proof that mentions a node's bit count. */
  function Multiple(b: int, count: nat): int
    decreases count
  {
    if count == 0 then 0 else Multiple(b, count - 1) + b
  }

  lemma {:induction false} MultipleIsProduct(b: int, count: nat)
    ensures Multiple(b, count) == count * b
    decreases count
  {
    if count > 0 {
      MultipleIsProduct(b, count - 1);
    }
  }

  /** The zero-bits test never reads past the `indicesHashLength` bytes of a
      combined hash. */
  lemma BitsFit(c: Config, round: nat)
    requires Layout(c) && round <= c.k
    ensures 0 <= Bits(c, round) <= c.n
    ensures Bits(c, round) / 8 <= c.indicesHashLength
    ensures Bits(c, round) % 8 > 0 ==> Bits(c, round) / 8 < c.indicesHashLength
  {
    if round < c.k {
      LayoutProducts(c);
      MultipleIsProduct(c.collisionBitLength, round);
      RoundBitsBound(round, c.k, c.collisionBitLength, c.n);
    }
    CeilingCovers(Bits(c, round), c.n, c.indicesHashLength);
  }

  lemma RoundBitsBound(r: nat, k: nat, b: nat, n: int)
    requires r <= k && b * (k + 1) <= n
    ensures r * b <= n
  {
    MulBound(r, b, k + 1, b);
  }

  lemma CeilingCovers(bits: int, n: int, w: int)
    requires 0 <= bits <= n <= 8 * w
    ensures bits / 8 <= w
    ensures bits % 8 > 0 ==> bits / 8 < w
  {
  }

  const Tag: string := "AION0PoW"

  /** The ASCII bytes of a string (Java's `getBytes()` on ASCII text). */
  function AsciiBytes(s: string): (b: Bytes)
    requires forall i :: 0 <= i < |s| ==> s[i] as int < 128
    ensures |b| == |s|
    ensures forall i :: 0 <= i < |s| ==> b[i] as int == s[i] as int
  {
    seq(|s|, i requires 0 <= i < |s| => Byte(s[i] as int))
  }

  /** `InitialiseState`'s personalization: the tag, then n and k as
      little-endian `int`s, so that each (n, k) hashes in its own domain. */
  function Personalization(n: int, k: int): (p: Bytes)
    requires IsInt(n) && IsInt(k)
    ensures |p| == 16
    ensures forall i :: 0 <= i < 8 ==> p[i] as int == Tag[i] as int
    ensures FromLE32(p[8..12]) == n && FromLE32(p[12..]) == k
  {
    var p := AsciiBytes(Tag) + LE32(n) + LE32(k);
    assert p[8..12] == LE32(n) && p[12..] == LE32(k);
    p
  }

  /** Two validators share a personalization only if they share (n, k). */
  lemma PersonalizationInjective(n: int, k: int, n': int, k': int)
    requires IsInt(n) && IsInt(k) && IsInt(n') && IsInt(k')
    requires Personalization(n, k) == Personalization(n', k')
    ensures n == n' && k == k'
  {
    var p, p' := Personalization(n, k), Personalization(n', k');
    assert p[8..12] == p'[8..12] && p[12..] == p'[12..];
  }
}
