/** The recursive collision check (`verify`) over the perfect binary tree
    whose `2^k` leaves are the decoded indices, as a pure function that
    returns a node's combined hash, and the tree property it decides. */
module Collision {
  import opened Results
  import opened JavaInt
  import opened Bytes
  import opened ZeroBits
  import opened Params

  /** A leaf index: a non-negative Java `int`. */
  type Index = x: int | 0 <= x < TWO31

  /** What one call of the validator walks the tree with: the geometry,
      the hash of each index (`genHash` for one header and nonce; see
      `Hashing.LeafHash`) and the decoded indices. */
  datatype Job = Job(cfg: Config, leafHash: Index -> Bytes, indices: seq<Index>)

  /** A supported geometry, an `indicesHashLength`-byte hash for every
      index, and `2^k` indices. */
  ghost predicate ValidJob(j: Job) {
    && Layout(j.cfg)
    && HashWidths(j)
    && |j.indices| == Pow2(j.cfg.k)
  }

  /** Every index hashes to `indicesHashLength` bytes. */
  ghost predicate HashWidths(j: Job) {
    forall x: Index :: |j.leafHash(x)| == j.cfg.indicesHashLength
  }

  /** The subtree of height `round` whose leftmost leaf is `offset`. */
  predicate Node(j: Job, offset: nat, round: nat) {
    round <= j.cfg.k && offset + Pow2(round) <= |j.indices|
  }

  /** The hash of leaf position `i`. */
  function Leaf(j: Job, i: nat): (h: Bytes)
    requires HashWidths(j) && i < |j.indices|
    ensures |h| == j.cfg.indicesHashLength
  {
    j.leafHash(j.indices[i])
  }

  /** The XOR of the hashes of the `len` leaves from position `lo` on; the
      empty XOR is all zero bytes. */
  function Combined(j: Job, lo: nat, len: nat): (r: Bytes)
    requires HashWidths(j) && lo + len <= |j.indices|
    ensures |r| == j.cfg.indicesHashLength
    decreases len
  {
    if len == 0 then Zeros(j.cfg.indicesHashLength)
    else Xor(Combined(j, lo, len - 1), Leaf(j, lo + len - 1))
  }

  lemma CombinedOne(j: Job, i: nat)
    requires HashWidths(j) && i < |j.indices|
    ensures Combined(j, i, 1) == Leaf(j, i)
  {
    XorZeroLeft(Leaf(j, i));
  }

  /** The combined hash of two adjacent ranges is the XOR of theirs, so any
      bracketing of the leaves gives the same combined hash. */
  lemma {:induction false} CombinedAppend(j: Job, lo: nat, a: nat, b: nat)
    requires HashWidths(j) && lo + a + b <= |j.indices|
    ensures Combined(j, lo, a + b) == Xor(Combined(j, lo, a), Combined(j, lo + a, b))
    decreases b
  {
    if b == 0 {
      XorZeroRight(Combined(j, lo, a));
    } else {
      CombinedAppend(j, lo, a, b - 1);
      XorAssociative(Combined(j, lo, a), Combined(j, lo + a, b - 1), Leaf(j, lo + a + b - 1));
    }
  }

  /** The two halves of a node. */
  lemma CombinedSplits(j: Job, lo: nat, len: nat)
    requires HashWidths(j) && lo + 2 * len <= |j.indices|
    ensures Combined(j, lo, 2 * len) == Xor(Combined(j, lo, len), Combined(j, lo + len, len))
  {
    CombinedAppend(j, lo, len, len);
  }

  /** The test `verify` applies to the combined hash `x` of a node of
      height `round`. */
  predicate HasZeroBits(c: Config, x: Bytes, round: nat)
    requires Layout(c) && round <= c.k && |x| == c.indicesHashLength
  {
    BitsFit(c, round);
    ZeroBitsOk(x, Bits(c, round))
  }

  /** What that test is meant to establish: the first `Bits(round)` bits of
      `x` are zero. */
  ghost predicate LeadingZeros(c: Config, x: Bytes, round: nat)
    requires Layout(c) && round <= c.k && |x| == c.indicesHashLength
  {
    BitsFit(c, round);
    LeadingZeroBits(x, Bits(c, round))
  }

  lemma HasZeroBitsIff(c: Config, x: Bytes, round: nat)
    requires Layout(c) && round <= c.k && |x| == c.indicesHashLength
    ensures HasZeroBits(c, x, round) <==> LeadingZeros(c, x, round)
  {
    BitsFit(c, round);
    ZeroBitsOkIff(x, Bits(c, round));
  }

  /** `verify(offset, round)`: a leaf hashes its index; an inner node first
      demands that its left half start with a smaller index than its right
      half, then checks the left subtree, then the right one, XORs their
      hashes and demands `Bits(round)` leading zero bits. `Some(h)` is
      success with combined hash `h`; `None` is failure. */
  function Verify(j: Job, offset: nat, round: nat): (r: Option<Bytes>)
    requires ValidJob(j) && Node(j, offset, round)
    ensures r.Some? ==> |r.value| == j.cfg.indicesHashLength
    ensures round == 0 ==> r.Some?
    ensures round > 0 && j.indices[offset] >= j.indices[offset + Pow2(round - 1)] ==> r.None?
    decreases round
  {
    if round == 0 then
      Some(Leaf(j, offset))
    else
      var half := Pow2(round - 1);
      var mid := offset + half;
      if j.indices[offset] >= j.indices[mid] then None
      else
        match Verify(j, offset, round - 1)
        case None => None
        case Some(left) =>
          match Verify(j, mid, round - 1)
          case None => None
          case Some(right) =>
            var x := Xor(left, right);
            if HasZeroBits(j.cfg, x, round) then Some(x) else None
  }

  /** The combined hash of a subtree as the recursion brackets it: a leaf's
      hash, or the XOR of the two halves' combined hashes. */
  function TreeHash(j: Job, offset: nat, round: nat): (r: Bytes)
    requires HashWidths(j) && Node(j, offset, round)
    ensures |r| == j.cfg.indicesHashLength
    decreases round
  {
    if round == 0 then Leaf(j, offset)
    else Xor(TreeHash(j, offset, round - 1), TreeHash(j, offset + Pow2(round - 1), round - 1))
  }

  /** Whatever the bracketing, a subtree's combined hash is the XOR of the
      hashes of all its leaves. */
  lemma {:induction false} TreeHashIsCombined(j: Job, offset: nat, round: nat)
    requires HashWidths(j) && Node(j, offset, round)
    ensures TreeHash(j, offset, round) == Combined(j, offset, Pow2(round))
    decreases round
  {
    if round == 0 {
      CombinedOne(j, offset);
    } else {
      var half := Pow2(round - 1);
      TreeHashIsCombined(j, offset, round - 1);
      TreeHashIsCombined(j, offset + half, round - 1);
      CombinedSplits(j, offset, half);
    }
  }

  /** A successful `verify` yields its subtree's combined hash. */
  lemma {:induction false} VerifyYieldsTreeHash(j: Job, offset: nat, round: nat)
    requires ValidJob(j) && Node(j, offset, round)
    ensures Verify(j, offset, round).Some? ==> Verify(j, offset, round).value == TreeHash(j, offset, round)
    decreases round
  {
    if round > 0 {
      var mid := offset + Pow2(round - 1);
      var left, right := Verify(j, offset, round - 1), Verify(j, mid, round - 1);
      if j.indices[offset] < j.indices[mid] && left.Some? && right.Some? {
        VerifyYieldsTreeHash(j, offset, round - 1);
        VerifyYieldsTreeHash(j, mid, round - 1);
        assert Xor(left.value, right.value) == TreeHash(j, offset, round);
      }
    }
  }

  /** A successful `verify` yields the XOR of the hashes of all leaves of
      its subtree. */
  lemma VerifyCombines(j: Job, offset: nat, round: nat)
    requires ValidJob(j) && Node(j, offset, round)
    ensures Verify(j, offset, round).Some? ==> Verify(j, offset, round).value == Combined(j, offset, Pow2(round))
  {
    VerifyYieldsTreeHash(j, offset, round);
    TreeHashIsCombined(j, offset, round);
  }

  /** The ordering half of the tree property: below every inner node the
      left half starts with a smaller index than the right half. */
  predicate Ordered(j: Job, offset: nat, round: nat)
    requires Node(j, offset, round)
    decreases round
  {
    round == 0 ||
      var mid := offset + Pow2(round - 1);
      && j.indices[offset] < j.indices[mid]
      && Ordered(j, offset, round - 1)
      && Ordered(j, mid, round - 1)
  }

  /** The collision half of the tree property, stated on leaf hashes alone:
      at every inner node the XOR of all leaf hashes under it has
      `Bits(round)` leading zero bits. */
  ghost predicate Collides(j: Job, offset: nat, round: nat)
    requires ValidJob(j) && Node(j, offset, round)
    decreases round
  {
    round == 0 ||
      var mid := offset + Pow2(round - 1);
      && Collides(j, offset, round - 1)
      && Collides(j, mid, round - 1)
      && LeadingZeros(j.cfg, TreeHash(j, offset, round), round)
  }

  /** `verify` succeeds on a subtree exactly when the subtree is ordered and
      collides. */
  lemma {:induction false} VerifyIffTreeOk(j: Job, offset: nat, round: nat)
    requires ValidJob(j) && Node(j, offset, round)
    ensures Verify(j, offset, round).Some? <==> Ordered(j, offset, round) && Collides(j, offset, round)
    decreases round
  {
    if round > 0 {
      var mid := offset + Pow2(round - 1);
      var left, right := Verify(j, offset, round - 1), Verify(j, mid, round - 1);
      if j.indices[offset] >= j.indices[mid] {
        assert !Ordered(j, offset, round);
      } else if left.None? {
        VerifyIffTreeOk(j, offset, round - 1);
        assert Verify(j, offset, round).None?;
      } else if right.None? {
        VerifyIffTreeOk(j, mid, round - 1);
        assert Verify(j, offset, round).None?;
      } else {
        VerifyIffTreeOk(j, offset, round - 1);
        VerifyIffTreeOk(j, mid, round - 1);
        VerifyYieldsTreeHash(j, offset, round - 1);
        VerifyYieldsTreeHash(j, mid, round - 1);
        var x := Xor(left.value, right.value);
        assert x == TreeHash(j, offset, round);
        HasZeroBitsIff(j.cfg, x, round);
      }
    }
  }

  /** In an ordered subtree the first leaf holds the strictly smallest
      index, so the order checks make the leaf order canonical. */
  lemma {:induction false} OrderedFirstIsLeast(j: Job, offset: nat, round: nat)
    requires Node(j, offset, round)
    requires Ordered(j, offset, round)
    ensures forall t :: offset < t < offset + Pow2(round) ==> j.indices[offset] < j.indices[t]
    decreases round
  {
    if round > 0 {
      var half := Pow2(round - 1);
      var mid := offset + half;
      OrderedFirstIsLeast(j, offset, round - 1);
      OrderedFirstIsLeast(j, mid, round - 1);
      assert offset + 2 * half <= |j.indices|;
      assert j.indices[offset] < j.indices[offset + half];
      assert forall t :: offset < t < offset + half ==> j.indices[offset] < j.indices[t];
      assert forall t :: offset + half < t < offset + half + half ==> j.indices[offset + half] < j.indices[t];
      LeastOfHalves(j.indices, offset, half);
    }
  }

  lemma LeastOfHalves(xs: seq<int>, lo: nat, half: nat)
    requires lo + 2 * half <= |xs| && half >= 1
    requires xs[lo] < xs[lo + half]
    requires forall t :: lo < t < lo + half ==> xs[lo] < xs[t]
    requires forall t :: lo + half < t < lo + half + half ==> xs[lo + half] < xs[t]
    ensures forall t :: lo < t < lo + 2 * half ==> xs[lo] < xs[t]
  {
  }
}
