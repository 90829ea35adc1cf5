/** `isValidSolution`: the null checks, the width check, decoding, the
    duplicate check and the tree walk, once as intended (a pure decision)
    and once as written (with the validator's `indexSet` carried from call
    to call and the `hashes` workspace). */
module Validator {
  import opened Results
  import opened JavaInt
  import opened Bytes
  import opened Params
  import Hashing
  import opened Collision
  import opened Workspace
  import opened Duplicates

  /** `EquiUtils.getIndicesFromMinimal(solution, collisionBitLength)`,
      which is not part of this model: some function of the solution bytes
      and the collision bit length, yielding non-negative `int`s. */
  type Decoder = (Bytes, int) -> seq<Index>

  /** What the model relies on from the decoder: a solution of
      `solutionWidth` bytes decodes to `2^k` indices. */
  ghost predicate DecoderContract(c: Config, decode: Decoder) {
    && c.k >= 0
    && forall s: Bytes :: |s| == c.solutionWidth ==> |decode(s, c.collisionBitLength)| == Pow2(c.k)
  }

  /** The validator between calls: its geometry and its `indexSet`. The
      `hashes` array is reallocated by every call before it is read, so it
      carries nothing from one call to the next. */
  datatype Validator = Validator(cfg: Config, indexSet: set<int>)

  /** The constructor: the derived geometry and an empty `indexSet`. */
  function New(n: int, k: int): (r: Result<Validator>)
    requires IsInt(n) && IsInt(k)
    ensures r.Ok? <==> Derive(n, k).Ok?
    ensures r.Ok? ==> r.value.indexSet == {} && r.value.cfg.n == n && r.value.cfg.k == k
    ensures n == 0 || k == -1 ==> r == Err(DivisionByZero)
  {
    match Derive(n, k)
    case Err(f) => Err(f)
    case Ok(c) => Ok(Validator(c, {}))
  }

  /** On supported parameters construction succeeds with the exact
      geometry. */
  lemma NewSupported(n: int, k: int)
    requires Supported(n, k)
    ensures IsInt(n) && IsInt(k)
    ensures New(n, k).Ok? && WellFormed(New(n, k).value.cfg)
  {
    DeriveSupported(n, k);
  }

  /** An example geometry: n = 200, k = 9 is supported, with a 50-byte
      digest, and the constructor derives exactly these fields for it. */
  lemma ExampleGeometry()
    ensures Derive(200, 9) == Ok(Config(200, 9, 2, 25, 50, 20, 3, 1344))
    ensures Supported(200, 9) && WellFormed(Config(200, 9, 2, 25, 50, 20, 3, 1344))
  {
    assert Div(512, 200) == 2 && Div(207, 8) == 25;
    assert Div(200, 10) == 20 && Div(27, 8) == 3;
    assert Pow2(9) == 512 && ShiftLeftOne(9) == 512;
    assert Div(Wrap(512 * 21), 8) == 1344;
  }

  /** The tree walk's input for one header and nonce: leaf index `x` hashes
      to its slice of its block's digest. */
  function JobFor(c: Config, h: Hashing.Digest, header: Bytes, nonce: Bytes, indices: seq<Index>): (j: Job)
    requires Layout(c) && DigestFits(c) && Hashing.DigestContract(h)
    ensures j.cfg == c && j.indices == indices && HashWidths(j)
    ensures forall x: Index :: j.leafHash(x) == Hashing.LeafHash(c, h, header, nonce, x)
  {
    Job(c, (x: Index) => Hashing.LeafHash(c, h, header, nonce, x), indices)
  }

  /** What a valid solution is: distinct indices whose tree is ordered and
      collides at every node. */
  ghost predicate Solves(c: Config, h: Hashing.Digest, header: Bytes, nonce: Bytes, indices: seq<Index>)
    requires Layout(c) && DigestFits(c) && Hashing.DigestContract(h) && |indices| == Pow2(c.k)
  {
    var j := JobFor(c, h, header, nonce, indices);
    && !HasRepeat(indices)
    && Ordered(j, 0, c.k)
    && Collides(j, 0, c.k)
  }

  /** `isValidSolution` as intended: a `null` argument throws (solution
      first, then header, then nonce), a solution of the wrong width is
      rejected before it is decoded, and with every argument present a
      solution is accepted exactly when it has the right width and its
      decoded indices solve the puzzle. */
  function IsValidSolution(c: Config, h: Hashing.Digest, decode: Decoder,
                           solution: Option<Bytes>, header: Option<Bytes>, nonce: Option<Bytes>): (r: Result<bool>)
    requires Layout(c) && DigestFits(c) && Hashing.DigestContract(h) && DecoderContract(c, decode)
    ensures r == Err(NullSolution) <==> solution.None?
    ensures r == Err(NullHeader) <==> solution.Some? && header.None?
    ensures r == Err(NullNonce) <==> solution.Some? && header.Some? && nonce.None?
    ensures r.Ok? <==> solution.Some? && header.Some? && nonce.Some?
    ensures r.Ok? && |solution.value| != c.solutionWidth ==> r == Ok(false)
    ensures r == Ok(true) <==>
      && solution.Some? && header.Some? && nonce.Some?
      && |solution.value| == c.solutionWidth
      && Solves(c, h, header.value, nonce.value, decode(solution.value, c.collisionBitLength))
  {
    if solution.None? then Err(NullSolution)
    else if header.None? then Err(NullHeader)
    else if nonce.None? then Err(NullNonce)
    else if |solution.value| != c.solutionWidth then Ok(false)
    else
      var indices := decode(solution.value, c.collisionBitLength);
      if HasDuplicateFresh(indices) then Ok(false)
      else
        var j := JobFor(c, h, header.value, nonce.value, indices);
        VerifyIffTreeOk(j, 0, c.k);
        Ok(Verify(j, 0, c.k).Some?)
  }

  /** What one call as written returns or throws, the validator it leaves,
      and how many leaf hashes (`genHash` calls) it computed. */
  datatype Outcome = Outcome(result: Result<bool>, after: Validator, hashCalls: nat)

  /** The fresh `hashes` array and `hash` buffer of one call: all zero. */
  function FreshScratch(c: Config): (s: Scratch)
    requires Layout(c)
    ensures |s.slots| == c.solutionWidth && AllWidth(s.slots, c.indicesHashLength)
    ensures |s.buffer| == c.indicesHashLength && s.hashCalls == 0
  {
    Scratch(seq(c.solutionWidth, _ => Zeros(c.indicesHashLength)), Zeros(c.indicesHashLength), 0)
  }

  /** `isValidSolution` as written: the duplicate check runs on the
      validator's `indexSet`, which it leaves dirty after a hit, and the
      tree walk fills the `hashes` slots and the fresh `hash` buffer. A
      solution is accepted exactly when the intended check accepts it and
      none of its indices is left over in `indexSet` from an earlier call;
      an index left over makes the call return `false` without hashing,
      whether or not the solution is valid. A rejection for a repeat or a
      left-over index leaves `indexSet` holding its old values plus every
      index added before the hit, so it meets the same indices again. On an empty `indexSet` the
      answer is the intended one, and a call whose indices met nothing
      leaves `indexSet` empty again. */
  function IsValidSolutionAsWritten(v: Validator, h: Hashing.Digest, decode: Decoder,
                                    solution: Option<Bytes>, header: Option<Bytes>, nonce: Option<Bytes>): (r: Outcome)
    requires Layout(v.cfg) && DigestFits(v.cfg) && Hashing.DigestContract(h) && DecoderContract(v.cfg, decode)
    ensures r.result.Err? ==> r.after == v && r.hashCalls == 0
    ensures r.result.Err? <==> solution.None? || header.None? || nonce.None?
    ensures r.result.Ok? && |solution.value| != v.cfg.solutionWidth ==> r == Outcome(Ok(false), v, 0)
    ensures r.after.cfg == v.cfg
    ensures r.result == Ok(true) <==>
      && IsValidSolution(v.cfg, h, decode, solution, header, nonce) == Ok(true)
      && !Meets(v.indexSet, decode(solution.value, v.cfg.collisionBitLength))
    ensures r.result == Ok(true) ==> r.hashCalls == Pow2(v.cfg.k)
    ensures v.indexSet == {} ==> r.result == IsValidSolution(v.cfg, h, decode, solution, header, nonce)
    ensures r.result.Ok? && |solution.value| == v.cfg.solutionWidth ==>
      var indices := decode(solution.value, v.cfg.collisionBitLength);
      && (Meets(v.indexSet, indices) || HasRepeat(indices) ==>
            && r.result == Ok(false) && r.hashCalls == 0
            && Meets(r.after.indexSet, indices)
            && exists i :: FirstHit(v.indexSet, indices, i) && r.after.indexSet == v.indexSet + Elems(indices[..i]))
      && (!Meets(v.indexSet, indices) && !HasRepeat(indices) ==> r.after.indexSet == {})
  {
    var c := v.cfg;
    if solution.None? then Outcome(Err(NullSolution), v, 0)
    else if header.None? then Outcome(Err(NullHeader), v, 0)
    else if nonce.None? then Outcome(Err(NullNonce), v, 0)
    else if |solution.value| != c.solutionWidth then Outcome(Ok(false), v, 0)
    else
      var indices := decode(solution.value, c.collisionBitLength);
      CleanSetAgrees(indices);
      var scan := HasDuplicate(v.indexSet, indices);
      var after := v.(indexSet := scan.seen);
      if scan.hit then Outcome(Ok(false), after, 0)
      else
        var j := JobFor(c, h, header.value, nonce.value, indices);
        var walk := VerifyInto(j, FreshScratch(c), 0, c.k, Buffer);
        VerifyIntoRefines(j, FreshScratch(c), 0, c.k, Buffer);
        Outcome(Ok(walk.ok), after, walk.after.hashCalls)
  }

  /** Asking the same validator the same question twice in a row gives the
      same answer: a rejection by the duplicate check leaves the indices
      that trigger it again, and any other call leaves `indexSet` empty. */
  lemma RepeatedCallAgrees(v: Validator, h: Hashing.Digest, decode: Decoder,
                           solution: Option<Bytes>, header: Option<Bytes>, nonce: Option<Bytes>)
    requires Layout(v.cfg) && DigestFits(v.cfg) && Hashing.DigestContract(h) && DecoderContract(v.cfg, decode)
    ensures
      var first := IsValidSolutionAsWritten(v, h, decode, solution, header, nonce);
      IsValidSolutionAsWritten(first.after, h, decode, solution, header, nonce).result == first.result
  {
    var first := IsValidSolutionAsWritten(v, h, decode, solution, header, nonce);
    if first.result.Ok? && |solution.value| == v.cfg.solutionWidth {
      var indices := decode(solution.value, v.cfg.collisionBitLength);
      if Meets(v.indexSet, indices) || HasRepeat(indices) {
        assert Meets(first.after.indexSet, indices);
      } else {
        assert first.after.indexSet == {};
      }
    }
  }
}
