# Aion Equihash solution validator, in Dafny

This project models `OptimizedEquiValidator`, the class that checks an
Equihash proof-of-work solution for a block header and nonce. The model
covers four parts of the class:

- **The constructor.** It derives the puzzle geometry from `(n, k)` with
  Java `int` arithmetic. The geometry is `indicesPerHashOutput`,
  `indicesHashLength`, `hashOutput`, `collisionBitLength` and
  `solutionWidth`. The constructor also sets the Blake2b personalization:
  `"AION0PoW"`, then `n` and `k` as little-endian `int`s.
- **`isValidSolution`.** It throws on a `null` argument, checked in the
  order solution, header, nonce. It rejects a solution of the wrong width
  before decoding it. It then rejects repeated indices, and otherwise runs
  the tree walk.
- **`genHash`.** Each leaf index hashes to one `indicesHashLength`-byte
  slice of the personalized digest of header ‖ nonce ‖ LE32(index /
  indicesPerHashOutput).
- **`verify`.** It walks the perfect binary tree of the `2^k` decoded
  indices. At each inner node it checks three things in order:
  - the left half's first index is smaller than the right half's;
  - both subtrees pass;
  - the XOR of the two subtree hashes has `round * collisionBitLength`
    leading zero bits, or `n` at the root.

  The zero-bit test on a partial byte is an arithmetic shift of a
  sign-extended byte.

Modules, in dependency order:

| file | module | contents |
|---|---|---|
| `results.dfy` | `Results` | `Option` (a nullable reference), `Fault` (the exceptions), `Result` |
| `javaint.dfy` | `JavaInt` | Java `int` wrap-around, truncating `/`, `1 << k`, sign extension, `>>`, little-endian `int` bytes |
| `bytes.dfy` | `Bytes` | byte strings, XOR, bit numbering (most significant bit of byte 0 first) |
| `params.dfy` | `Params` | the constructor (`Derive`), the supported parameter range, the layout facts, the personalization |
| `zerobits.dfy` | `ZeroBits` | the byte loop plus remainder test of `verify`, and its meaning |
| `hashing.dfy` | `Hashing` | `genHash`: digest input, leaf slices, tiling of a digest by its leaves |
| `collision.dfy` | `Collision` | `verify` as a pure function returning a node's combined hash, and the tree property it decides |
| `workspace.dfy` | `Workspace` | `verify` as written: the `hashes` slots, the aliasing of `hash` with the left child's slot, the top-level buffer, the `genHash` count |
| `duplicates.dfy` | `Duplicates` | `hasDuplicate` with its persistent `indexSet`, and the intended check |
| `validator.dfy` | `Validator` | the facade: the constructor, `isValidSolution` as intended and as written |

Blake2b and the index decoder (`EquiUtils.getIndicesFromMinimal`) are not
part of this model. They appear as function-typed parameters with small
contracts:

- a digest of the requested length, for the lengths Blake2b supports
  (1 to 64 bytes, RFC 7693 section 2.1);
- `2^k` non-negative `int` indices for a solution of `solutionWidth` bytes.

`hasDuplicate` empties `indexSet` only when no duplicate was found; see
Findings.

## Model

| member | source | states |
|---|---|---|
| JavaInt.Wrap | modAionImpl/src/org/aion/equihash/OptimizedEquiValidator.java:57-60 | an overflowing Java `int` result lies in the `int` range, is congruent to the exact value modulo 2^32, and equals it when the exact value fits |
| JavaInt.Div | modAionImpl/src/org/aion/equihash/OptimizedEquiValidator.java:55-60 | Java `/` stays an `int`, agrees with floor division on non-negative operands, has magnitude \|a\|/\|b\| with the sign of the operands' product (rounding toward zero), and `MIN_VALUE / -1` gives `MIN_VALUE` |
| JavaInt.ShiftLeftOne | modAionImpl/src/org/aion/equihash/OptimizedEquiValidator.java:60 | `1 << k` is always an `int`, and equals 2^k for 0 <= k < 31 |
| JavaInt.SignedByte | modAionImpl/src/org/aion/equihash/OptimizedEquiValidator.java:187 | a byte widened to `int` lies in [-128, 128) and is non-negative exactly when the byte is below 128 |
| JavaInt.ShiftRight | modAionImpl/src/org/aion/equihash/OptimizedEquiValidator.java:187 | `x >> s` is the floor of x / 2^s: r·2^s <= x < (r+1)·2^s |
| JavaInt.LE32 | modAionImpl/src/org/aion/equihash/OptimizedEquiValidator.java:75 | an `int` becomes four bytes that read back (little-endian, two's complement) as the same `int` |
| Params.Derive | modAionImpl/src/org/aion/equihash/OptimizedEquiValidator.java:52-62 | the constructor keeps `n` and `k`, throws a division by zero exactly when n == 0 or k == -1, and otherwise its own arithmetic can only fail by allocating a negative-size array (what `setDigestLength` does with the requested length is Blake2b's, see Left out) |
| Params.DeriveSupported | modAionImpl/src/org/aion/equihash/OptimizedEquiValidator.java:55-60 | on supported (n, k) no `int` operation overflows: the constructor yields exactly 512/n, ceil(n/8), their product, n/(k+1), its byte ceiling and 2^k (n/(k+1)+1)/8 |
| Params.Geometry | modAionImpl/src/org/aion/equihash/OptimizedEquiValidator.java:55-62 | the exact geometry has at least one slice per digest, slices that tile the digest, a digest of 1 to 64 bytes, slices wide enough for `n` bits, at most `n` collision bits over the k+1 rounds, and an array slot per leaf |
| Params.BitsFit | modAionImpl/src/org/aion/equihash/OptimizedEquiValidator.java:177-187 | the bit count of any round is between 0 and n, its whole bytes fit in a leaf hash, and the byte holding the remainder bits exists |
| Params.Personalization | modAionImpl/src/org/aion/equihash/OptimizedEquiValidator.java:73-77 | the personalization is 16 bytes: the ASCII tag `AION0PoW`, then bytes reading back as n, then bytes reading back as k |
| Params.PersonalizationInjective | modAionImpl/src/org/aion/equihash/OptimizedEquiValidator.java:75 | two validators with the same personalization have the same n and k, so each (n, k) hashes in its own domain |
| Validator.ExampleGeometry | modAionImpl/src/org/aion/equihash/OptimizedEquiValidator.java:52-60 | n = 200, k = 9 is a supported, well-formed geometry, and for it the constructor yields 2 indices per digest, 25-byte leaf hashes, a 50-byte digest, 20 collision bits (3 bytes) and 1344-byte solutions |
| Bytes.Xor | modAionImpl/src/org/aion/equihash/OptimizedEquiValidator.java:174-175 | the combined hash has the operands' length and byte i is the XOR of their bytes i |
| Bytes.XorAssociative | modAionImpl/src/org/aion/equihash/OptimizedEquiValidator.java:174-175 | XOR of byte strings is associative, so the bracketing of the tree does not matter |
| ZeroBits.SignedShiftIff | modAionImpl/src/org/aion/equihash/OptimizedEquiValidator.java:187 | the sign-extended byte shifted right by s is zero exactly when the unsigned byte is below 2^s |
| ZeroBits.TopBitsIff | modAionImpl/src/org/aion/equihash/OptimizedEquiValidator.java:187 | a byte is below 2^(8-m) exactly when its top m bits are clear |
| ZeroBits.RemainderTestIff | modAionImpl/src/org/aion/equihash/OptimizedEquiValidator.java:187 | the remainder test on byte `bits/8` passes exactly when its top `bits%8` bits are clear |
| ZeroBits.ByteZeroIff | modAionImpl/src/org/aion/equihash/OptimizedEquiValidator.java:179-184 | a byte is zero exactly when all eight of its bits are clear |
| ZeroBits.ZeroBitsOkIff | modAionImpl/src/org/aion/equihash/OptimizedEquiValidator.java:179-190 | the byte loop plus the remainder test pass exactly when the first `bits` bits of the hash are zero |
| Collision.HasZeroBitsIff | modAionImpl/src/org/aion/equihash/OptimizedEquiValidator.java:177-190 | at any round, `verify`'s test on a combined hash passes exactly when its first `round*collisionBitLength` bits (all `n` at the root) are zero |
| Hashing.HashInput | modAionImpl/src/org/aion/equihash/OptimizedEquiValidator.java:130-140 | the digested message is the header, then the nonce, then four bytes that read back as the block number |
| Hashing.BlockDigest | modAionImpl/src/org/aion/equihash/OptimizedEquiValidator.java:73-77 | a block's digest, under the validator's personalization, has `hashOutput` bytes |
| Hashing.LeafHash | modAionImpl/src/org/aion/equihash/OptimizedEquiValidator.java:138-144 | a leaf hash has `indicesHashLength` bytes for every non-negative index |
| Hashing.LeafIsSlot | modAionImpl/src/org/aion/equihash/OptimizedEquiValidator.java:138-144 | the hash of index block·p + j (j < p) is the j-th `indicesHashLength`-byte slice of that block's digest, and the slice lies inside the digest |
| Hashing.SlotInDigest | modAionImpl/src/org/aion/equihash/OptimizedEquiValidator.java:144 | slice number `idx % indicesPerHashOutput` ends within the `hashOutput`-byte digest |
| Hashing.SlicesTile | modAionImpl/src/org/aion/equihash/OptimizedEquiValidator.java:144 | the first t slices of a string, joined again, are its first t·w bytes |
| Hashing.LeafHashesTileDigest | modAionImpl/src/org/aion/equihash/OptimizedEquiValidator.java:138-144 | the hashes of the p indices sharing a block, joined in order, are exactly that block's digest: no gaps, no overlap |
| Collision.Verify | modAionImpl/src/org/aion/equihash/OptimizedEquiValidator.java:147-193 | a leaf always succeeds, out-of-order halves always fail, and a success yields `indicesHashLength` bytes |
| Collision.VerifyYieldsTreeHash | modAionImpl/src/org/aion/equihash/OptimizedEquiValidator.java:162-175 | a successful `verify` yields the XOR of its two halves' combined hashes, recursively |
| Collision.TreeHashIsCombined | modAionImpl/src/org/aion/equihash/OptimizedEquiValidator.java:162-175 | the XOR of the two halves' combined hashes, all the way down, is the XOR of all leaf hashes of the subtree |
| Collision.CombinedAppend | modAionImpl/src/org/aion/equihash/OptimizedEquiValidator.java:174-175 | the XOR over two adjacent leaf ranges is the XOR of the two ranges' XORs |
| Collision.VerifyCombines | modAionImpl/src/org/aion/equihash/OptimizedEquiValidator.java:162-175 | a successful `verify(offset, r)` yields the XOR of the 2^r leaf hashes of `offset .. offset+2^r-1` |
| Collision.VerifyIffTreeOk | modAionImpl/src/org/aion/equihash/OptimizedEquiValidator.java:147-193 | `verify` succeeds on a subtree exactly when every inner node below it is in order and the XOR of its leaf hashes has the round's leading zero bits |
| Collision.OrderedFirstIsLeast | modAionImpl/src/org/aion/equihash/OptimizedEquiValidator.java:154-160 | in a subtree that passes every order check, its first index is strictly smaller than every other index in it |
| Workspace.VerifyInto | modAionImpl/src/org/aion/equihash/OptimizedEquiValidator.java:147-193 | the walk on the `hashes` array keeps the array's size and every slot and the buffer `indicesHashLength` bytes wide |
| Workspace.Join | modAionImpl/src/org/aion/equihash/OptimizedEquiValidator.java:174-190 | writing the XOR of two slots to the target keeps the array's shape |
| Workspace.VerifyIntoFrame | modAionImpl/src/org/aion/equihash/OptimizedEquiValidator.java:154-172 | a call writes no slot outside its own subtree, and out-of-order halves fail with the workspace untouched |
| Workspace.SlotTargetKeepsBuffer | modAionImpl/src/org/aion/equihash/OptimizedEquiValidator.java:162-175 | a recursive call, which writes into its left child's slot, never touches the top-level `hash` buffer |
| Workspace.HashCountBounded | modAionImpl/src/org/aion/equihash/OptimizedEquiValidator.java:128-172 | a call runs `genHash` at most once per leaf of its subtree |
| Workspace.HashCountOnSuccess | modAionImpl/src/org/aion/equihash/OptimizedEquiValidator.java:147-193 | a successful call has run `genHash` exactly once per leaf of its subtree |
| Workspace.SlotRefines | modAionImpl/src/org/aion/equihash/OptimizedEquiValidator.java:162-175 | inside the recursion, the walk on the array decides what the pure walk decides and leaves the node's combined hash in slot `offset` |
| Workspace.VerifyIntoRefines | modAionImpl/src/org/aion/equihash/OptimizedEquiValidator.java:117-121 | the walk on the array decides what the pure walk decides; on success the combined hash is where the caller reads it (slot `offset`, or the buffer at the root), and every leaf was hashed exactly once |
| Workspace.LeftFailureSkipsRight | modAionImpl/src/org/aion/equihash/OptimizedEquiValidator.java:162-166 | when the left subtree fails the node fails, no slot of the right half changes, at most the left half's leaves are hashed, and the buffer is untouched |
| Duplicates.AddAll | modAionImpl/src/org/aion/equihash/OptimizedEquiValidator.java:200-203 | adding the indices one by one only grows the set, never beyond the indices added, and a scan that finds nothing leaves every index in it |
| Duplicates.AddAllHitIff | modAionImpl/src/org/aion/equihash/OptimizedEquiValidator.java:200-203 | the scan stops exactly when an index is already in the set or occurs twice |
| Duplicates.HasDuplicate | modAionImpl/src/org/aion/equihash/OptimizedEquiValidator.java:199-207 | `hasDuplicate` answers "a repeat, or an index already in `indexSet`"; it empties the set only when it answers no; after a hit the set is the old set plus exactly the indices added before the first hit, so it meets the same indices again |
| Duplicates.AddAllHitAt | modAionImpl/src/org/aion/equihash/OptimizedEquiValidator.java:200-203 | a scan that stops does so at the first index already present, and the set then holds the start set plus the indices before that one |
| Duplicates.HasDuplicateFresh | modAionImpl/src/org/aion/equihash/OptimizedEquiValidator.java:199-207 | the intended check answers exactly "some index occurs twice" |
| Duplicates.CleanSetAgrees | modAionImpl/src/org/aion/equihash/OptimizedEquiValidator.java:199-207 | from an empty set the code agrees with the intended check, and leaves the set empty when it finds no repeat |
| Duplicates.StaleSetCounterexample | modAionImpl/src/org/aion/equihash/OptimizedEquiValidator.java:199-207 | after `[1, 1]` is rejected the set holds `{1}`, and the next check then reports a duplicate in `[1, 2]`, which has none |
| Validator.New | modAionImpl/src/org/aion/equihash/OptimizedEquiValidator.java:52-64 | construction succeeds exactly when the parameter derivation does, keeps n and k, and starts with an empty `indexSet` |
| Validator.NewSupported | modAionImpl/src/org/aion/equihash/OptimizedEquiValidator.java:52-64 | on supported parameters construction succeeds with the exact geometry |
| Validator.IsValidSolution | modAionImpl/src/org/aion/equihash/OptimizedEquiValidator.java:91-121 | each `null` argument throws its own exception, in the order solution, header, nonce; the wrong width gives `false`; with all arguments present the answer is `true` exactly when the width is right, no index repeats, and the tree over the indices is ordered and collides at every node |
| Validator.FreshScratch | modAionImpl/src/org/aion/equihash/OptimizedEquiValidator.java:117-119 | each call starts from a `hashes` array with `solutionWidth` slots and a buffer, all `indicesHashLength` bytes wide |
| Validator.IsValidSolutionAsWritten | modAionImpl/src/org/aion/equihash/OptimizedEquiValidator.java:91-122 | exceptions occur exactly for a `null` argument and, like a width mismatch, leave the validator unchanged and hash nothing; a solution is accepted exactly when the intended check accepts it and none of its indices is left in `indexSet`, and then every leaf is hashed once; an index left in `indexSet` or a repeat gives `false` without hashing and leaves `indexSet` as the old set plus the indices added before the first hit; with an empty `indexSet` the answer is the intended one; a call whose indices met nothing leaves the set empty |
| Validator.RepeatedCallAgrees | modAionImpl/src/org/aion/equihash/OptimizedEquiValidator.java:91-122 | the same call made twice in a row on the same validator gives the same answer both times |

## Left out

- Blake2b is not modelled. Its internals are foreign library code, so it is the function-typed parameter `Hashing.Digest`, and the model relies only on the digest having the requested length when that length is between 1 and 64 bytes, the range RFC 7693 (section 2.1) allows.
- Params.Derive: does not model what Blake2b's `setDigestLength` (called from `InitialiseState`) does with a `hashOutput` outside 1 to 64 bytes. That check belongs to the Blake2b library, which is not part of this model. Such geometries (n = 7 gives 73 bytes, n = 9 gives 112) are outside `Params.Supported`, and every hashing member requires `Params.DigestFits`. `reset` followed by three `update` calls digests the concatenation of the three inputs.
- `EquiUtils.getIndicesFromMinimal` is not part of this model. It is the parameter `Validator.Decoder`. The model relies only on a `solutionWidth`-byte solution decoding to `2^k` indices, each a non-negative `int`.
- `ByteUtil.merge` and `ByteUtil.intToBytesLE` are not part of this model. `merge` is concatenation, and `intToBytesLE` is `JavaInt.LE32`, defined directly.
- Logging (`LOG.debug`) is diagnostics only and has no effect on the result.
- `synchronized` is a concurrency guard. The model is sequential.
- `collisionByteLength` is computed but never read by the validator. It is modelled only in `Params.Derive`.
- The `hashes` array's contents between calls are not modelled. Every call reallocates the array before reading it.
- Validator.IsValidSolution: requires the layout facts of `Params.Layout` and a digest Blake2b can produce (`Params.DigestFits`). Every supported geometry has them (`Params.Geometry`): 1 <= n <= 512, a `hashOutput` of at most 64 bytes, 0 <= k < 31, n/(k+1) >= 7, and a solution width that fits in an `int`. Outside that range the source can divide by zero in `genHash` (n > 512 makes `indicesPerHashOutput` zero, and the division happens once a leaf is reached), overflow, or index past the `hashes` array, unless an earlier order or zero-bits check rejects first. `Params.Derive` models the constructor on every `int` input.
- Validator.IsValidSolutionAsWritten: requires the same layout facts, for the same reason.
- Validator.IsValidSolutionAsWritten: requires a decoder that returns exactly `2^k` indices. A decoder returning fewer can make the source throw an index-out-of-bounds exception, unless an earlier order or zero-bits check rejects first (with k = 2 and indices `[5, 1, 3]` the root's order check returns `false` before index 3 is read). A decoder returning more would make `hasDuplicate` scan indices that `verify` never reads.
- The other files of the repository (the energy-price oracle, the peer metric, the mock database driver, the ping message) are not part of this model.

## Findings

| source | as written | input that shows it | evidently intended | confidence | as-written member | corrected member |
|---|---|---|---|---|---|---|
| modAionImpl/src/org/aion/equihash/OptimizedEquiValidator.java:199-207 | `hasDuplicate` empties `indexSet` only when no duplicate was found. After a rejected solution, the indices scanned before the duplicate stay in the set, and every later call on the same validator that shares one of them reports a duplicate (`Validator.IsValidSolutionAsWritten`). | indices `[1, 1]`, then indices `[1, 2]` on the same validator: the second call reports a duplicate although `[1, 2]` has none | a set that is empty at the start of every call, so that a solution is rejected for repeated indices only when its own indices repeat | high; not executed | Duplicates.StaleSetCounterexample | Duplicates.HasDuplicateFresh |
