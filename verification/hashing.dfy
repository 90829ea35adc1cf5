/** Leaf hashing (`genHash`): one personalized Blake2b digest per block of
    `indicesPerHashOutput` consecutive indices, sliced into one
    `indicesHashLength`-byte hash per index. */
module Hashing {
  import opened JavaInt
  import opened Bytes
  import opened Params

  /** Blake2b, seen from outside: a digest of the requested length of a
      message under a personalization. Its internals are not modelled; the
      hash is a parameter of every operation that uses it. */
  type Digest = (Bytes, nat, Bytes) -> Bytes

  /** What the model relies on from Blake2b: a digest of any length it
      supports (1 to 64 bytes) has the requested length. */
  ghost predicate DigestContract(h: Digest) {
    forall personal: Bytes, length: nat, message: Bytes ::
      1 <= length <= MaxDigestLength ==> |h(personal, length, message)| == length
  }

  /** What `genHash` feeds the reset hash: the header, the nonce and the
      little-endian block number. Successive `update` calls hash the
      concatenation. */
  function HashInput(header: Bytes, nonce: Bytes, block: int): (m: Bytes)
    requires IsInt(block)
    ensures |m| == |header| + |nonce| + 4
    ensures m[..|header|] == header
    ensures m[|header|..|header| + |nonce|] == nonce
    ensures FromLE32(m[|header| + |nonce|..]) == block
  {
    var m := header + nonce + LE32(block);
    assert m[|header| + |nonce|..] == LE32(block);
    m
  }

  /** The digest of one block, configured as `InitialiseState` does. */
  function BlockDigest(c: Config, h: Digest, header: Bytes, nonce: Bytes, block: int): (d: Bytes)
    requires Layout(c) && DigestFits(c) && DigestContract(h)
    requires 0 <= block < TWO31
    ensures |d| == c.hashOutput
  {
    LayoutProducts(c);
    h(Personalization(c.n, c.k), c.hashOutput, HashInput(header, nonce, block))
  }

  /** The hash of leaf index `idx`: its slot of its block's digest. */
  function LeafHash(c: Config, h: Digest, header: Bytes, nonce: Bytes, idx: int): (r: Bytes)
    requires Layout(c) && DigestFits(c) && DigestContract(h)
    requires 0 <= idx < TWO31
    ensures |r| == c.indicesHashLength
  {
    LayoutProducts(c);
    var p, w := c.indicesPerHashOutput, c.indicesHashLength;
    var block, slot := idx / p, idx % p;
    var d := BlockDigest(c, h, header, nonce, block);
    SlotInDigest(slot, p, w);
    Slot(d, w, slot)
  }

  /** The `w`-byte slice number `slot` of `d`. */
  function Slot(d: Bytes, w: nat, slot: nat): (r: Bytes)
    requires slot * w + w <= |d|
    ensures |r| == w
  {
    d[slot * w .. slot * w + w]
  }

  /** Slot `slot` of a digest of `count` slices of `width` bytes lies inside it. */
  lemma SlotInDigest(slot: nat, count: nat, width: nat)
    requires slot < count
    ensures slot * width + width <= count * width
  {
    MulMono(slot + 1, count, width);
  }

  lemma MulMono(a: nat, b: nat, w: nat)
    requires a <= b
    ensures a * w <= b * w
  {
  }

  /** The strings of `hs`, one after another. */
  function Concat(hs: seq<Bytes>): (r: Bytes)
    ensures |hs| == 0 ==> r == []
  {
    if |hs| == 0 then [] else Concat(hs[..|hs| - 1]) + hs[|hs| - 1]
  }

  /** The first `t` consecutive `w`-byte slices of `d`. */
  function Slices(d: Bytes, w: nat, t: nat): (r: seq<Bytes>)
    requires t * w <= |d|
    ensures |r| == t
  {
    seq(t, j requires 0 <= j < t => SlotInDigest(j, t, w); Slot(d, w, j))
  }

  /** Cutting a string into consecutive slices and joining them back gives
      the string. */
  lemma {:induction false} SlicesTile(d: Bytes, w: nat, t: nat)
    requires t * w <= |d|
    ensures Concat(Slices(d, w, t)) == d[..t * w]
  {
    if t > 0 {
      MulMono(t - 1, t, w);
      SlicesTile(d, w, t - 1);
      var s := Slices(d, w, t);
      assert s[..t - 1] == Slices(d, w, t - 1);
      assert (t - 1) * w + w == t * w;
      assert d[..t * w] == d[..(t - 1) * w] + d[(t - 1) * w .. t * w];
    }
  }

  /** The leaf hashes of the consecutive indices sharing block `block`
      (those from `first == block * indicesPerHashOutput` on), in order, are
      exactly that block's digest: one digest serves `indicesPerHashOutput`
      leaves, without gaps or overlap. */
  lemma LeafHashesTileDigest(c: Config, h: Digest, header: Bytes, nonce: Bytes, block: nat, first: int)
    requires Layout(c) && DigestFits(c) && DigestContract(h)
    requires first == block * c.indicesPerHashOutput
    requires 0 <= first && first + c.indicesPerHashOutput <= TWO31
    requires block < TWO31
    ensures
      var p := c.indicesPerHashOutput;
      Concat(seq(p, j requires 0 <= j < p => LeafHash(c, h, header, nonce, first + j)))
        == BlockDigest(c, h, header, nonce, block)
  {
    LayoutProducts(c);
    MulMonotone(block, c.indicesPerHashOutput);
    var p, w := c.indicesPerHashOutput, c.indicesHashLength;
    var d := BlockDigest(c, h, header, nonce, block);
    BlockLeavesAreSlices(c, h, header, nonce, block, first);
    SlicesTile(d, w, p);
    assert d[..p * w] == d;
  }

  lemma BlockLeavesAreSlices(c: Config, h: Digest, header: Bytes, nonce: Bytes, block: nat, first: int)
    requires Layout(c) && DigestFits(c) && DigestContract(h)
    requires c.indicesPerHashOutput >= 1 && c.hashOutput == c.indicesPerHashOutput * c.indicesHashLength
    requires first == block * c.indicesPerHashOutput && block <= first
    requires 0 <= first && first + c.indicesPerHashOutput <= TWO31
    ensures
      var p, w := c.indicesPerHashOutput, c.indicesHashLength;
      seq(p, j requires 0 <= j < p => LeafHash(c, h, header, nonce, first + j))
        == Slices(BlockDigest(c, h, header, nonce, block), w, p)
  {
    var p, w := c.indicesPerHashOutput, c.indicesHashLength;
    var leaves := seq(p, j requires 0 <= j < p => LeafHash(c, h, header, nonce, first + j));
    var slices := Slices(BlockDigest(c, h, header, nonce, block), w, p);
    forall j | 0 <= j < p
      ensures leaves[j] == slices[j]
    {
      LeafIsSlot(c, h, header, nonce, block, j, first + j);
    }
  }

  /** Leaf `idx == block * p + j` is slice `j` of block `block`'s digest. */
  lemma LeafIsSlot(c: Config, h: Digest, header: Bytes, nonce: Bytes, block: nat, j: nat, idx: int)
    requires Layout(c) && DigestFits(c) && DigestContract(h)
    requires c.indicesPerHashOutput >= 1 && c.hashOutput == c.indicesPerHashOutput * c.indicesHashLength
    requires j < c.indicesPerHashOutput
    requires idx == block * c.indicesPerHashOutput + j && 0 <= idx < TWO31
    ensures
      var d := BlockDigest(c, h, header, nonce, block);
      && j * c.indicesHashLength + c.indicesHashLength <= |d|
      && LeafHash(c, h, header, nonce, idx) == Slot(d, c.indicesHashLength, j)
  {
    var p, w := c.indicesPerHashOutput, c.indicesHashLength;
    BlockAndSlot(block, p, j);
    SlotInDigest(j, p, w);
    LeafHashIsSlot(c, h, header, nonce, idx, block, j);
  }

  lemma LeafHashIsSlot(c: Config, h: Digest, header: Bytes, nonce: Bytes, idx: int, block: nat, slot: nat)
    requires Layout(c) && DigestFits(c) && DigestContract(h)
    requires 0 <= idx < TWO31
    requires c.indicesPerHashOutput >= 1
    requires idx / c.indicesPerHashOutput == block && idx % c.indicesPerHashOutput == slot
    requires slot * c.indicesHashLength + c.indicesHashLength <= c.hashOutput
    ensures LeafHash(c, h, header, nonce, idx) == Slot(BlockDigest(c, h, header, nonce, block), c.indicesHashLength, slot)
  {
  }

  /** Index `block * p + j` (with `j < p`) is slot `j` of block `block`. */
  lemma BlockAndSlot(block: nat, p: nat, j: nat)
    requires j < p
    ensures (block * p + j) / p == block
    ensures (block * p + j) % p == j
  {
    var x := block * p + j;
    var q, r := x / p, x % p;
    assert q * p + r == block * p + j;
    if q > block {
      MulMono(block + 1, q, p);
    } else if q < block {
      MulMono(q + 1, block, p);
    }
  }
}
