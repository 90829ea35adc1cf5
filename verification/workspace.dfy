/** `verify` as the validator runs it: every leaf hash and every inner
    combined hash lands in the validator's `hashes` array, and the root's
    combined hash in a separate buffer. */
module Workspace {
  import opened Results
  import opened JavaInt
  import opened Bytes
  import opened Params
  import opened Collision

  /** Where a call of `verify` puts its combined hash: the slot of its
      leftmost leaf (inside the recursion `hash` is `hashes[offset]`) or
      the buffer the outermost call receives. */
  datatype Target = Slot(i: nat) | Buffer

  /** The `hashes` array, the outermost `hash` buffer, and how many times
      `genHash` has run. */
  datatype Scratch = Scratch(slots: seq<Bytes>, buffer: Bytes, hashCalls: nat)

  /** What a call of `verify` returns, and the workspace it leaves. */
  datatype Step = Step(ok: bool, after: Scratch)

  /** Every slot and the buffer hold `indicesHashLength` bytes, and there is
      a slot per leaf. */
  predicate Shaped(j: Job, s: Scratch) {
    && |s.slots| >= |j.indices|
    && AllWidth(s.slots, j.cfg.indicesHashLength)
    && |s.buffer| == j.cfg.indicesHashLength
  }

  /** Stores `x` at `target`. */
  function Put(s: Scratch, target: Target, x: Bytes): (r: Scratch)
    requires target.Slot? ==> target.i < |s.slots|
    ensures target.Slot? ==> r.slots == s.slots[target.i := x] && r.buffer == s.buffer
    ensures target.Buffer? ==> r.slots == s.slots && r.buffer == x
    ensures r.hashCalls == s.hashCalls
  {
    match target
    case Slot(i) => s.(slots := s.slots[i := x])
    case Buffer => s.(buffer := x)
  }

  /** `verify(offset, hash, round)` on the workspace. A leaf hashes its
      index into its own slot. An inner node fails on out-of-order halves
      before touching anything, then runs the left subtree into slot
      `offset`, the right one into slot `mid` (skipped when the left one
      fails), writes the XOR of the two slots to `target` and only then
      tests its leading zero bits. Writing slot `offset` byte by byte while
      reading it is harmless: byte `i` of the result depends on byte `i` of
      the operands alone. */
  function VerifyInto(j: Job, s: Scratch, offset: nat, round: nat, target: Target): (r: Step)
    requires ValidJob(j) && Node(j, offset, round) && Shaped(j, s)
    requires target == Slot(offset) || target == Buffer
    ensures Shaped(j, r.after) && |r.after.slots| == |s.slots|
    decreases round, 1
  {
    if round == 0 then
      Step(true, HashLeaf(j, s, offset))
    else
      var mid := offset + Pow2(round - 1);
      if j.indices[offset] >= j.indices[mid] then Step(false, s)
      else AfterLeft(j, offset, round, target, VerifyInto(j, s, offset, round - 1, Slot(offset)))
  }

  function AfterLeft(j: Job, offset: nat, round: nat, target: Target, left: Step): (r: Step)
    requires ValidJob(j) && Node(j, offset, round) && round > 0 && Shaped(j, left.after)
    requires target == Slot(offset) || target == Buffer
    ensures Shaped(j, r.after) && |r.after.slots| == |left.after.slots|
    decreases round, 0
  {
    if !left.ok then Step(false, left.after)
    else
      var mid := offset + Pow2(round - 1);
      AfterRight(j, offset, round, target, VerifyInto(j, left.after, mid, round - 1, Slot(mid)))
  }

  function AfterRight(j: Job, offset: nat, round: nat, target: Target, right: Step): (r: Step)
    requires ValidJob(j) && Node(j, offset, round) && round > 0 && Shaped(j, right.after)
    requires target == Slot(offset) || target == Buffer
    ensures Shaped(j, r.after) && |r.after.slots| == |right.after.slots|
  {
    if !right.ok then Step(false, right.after)
    else Join(j, right.after, offset, offset + Pow2(round - 1), round, target)
  }

  /** `genHash`: the leaf's hash goes to its own slot. */
  function HashLeaf(j: Job, s: Scratch, offset: nat): (r: Scratch)
    requires ValidJob(j) && offset < |j.indices| && Shaped(j, s)
    ensures Shaped(j, r) && |r.slots| == |s.slots|
  {
    Scratch(s.slots[offset := Leaf(j, offset)], s.buffer, s.hashCalls + 1)
  }

  /** An inner node after both subtrees succeeded: the XOR of the two
      slots goes to `target`, then the zero-bits test decides. */
  function Join(j: Job, s: Scratch, offset: nat, mid: nat, round: nat, target: Target): (r: Step)
    requires ValidJob(j) && Shaped(j, s) && round <= j.cfg.k
    requires offset < |j.indices| && mid < |j.indices|
    requires target == Slot(offset) || target == Buffer
    ensures Shaped(j, r.after) && |r.after.slots| == |s.slots|
  {
    var x := Xor(s.slots[offset], s.slots[mid]);
    Step(HasZeroBits(j.cfg, x, round), Put(s, target, x))
  }

  /** A call writes only the slots of its own subtree, and out-of-order
      halves fail before anything is written or hashed. */
  lemma {:induction false} VerifyIntoFrame(j: Job, s: Scratch, offset: nat, round: nat, target: Target)
    requires ValidJob(j) && Node(j, offset, round) && Shaped(j, s)
    requires target == Slot(offset) || target == Buffer
    ensures
      var r := VerifyInto(j, s, offset, round, target);
      && (forall i :: 0 <= i < |s.slots| && !(offset <= i < offset + Pow2(round)) ==> r.after.slots[i] == s.slots[i])
      && (round > 0 && j.indices[offset] >= j.indices[offset + Pow2(round - 1)] ==> r == Step(false, s))
    decreases round
  {
    if round > 0 {
      var mid := offset + Pow2(round - 1);
      if j.indices[offset] < j.indices[mid] {
        VerifyIntoFrame(j, s, offset, round - 1, Slot(offset));
        var left := VerifyInto(j, s, offset, round - 1, Slot(offset));
        if left.ok {
          VerifyIntoFrame(j, left.after, mid, round - 1, Slot(mid));
        }
      }
    }
  }

  /** Only the outermost call writes the buffer. */
  lemma {:induction false} SlotTargetKeepsBuffer(j: Job, s: Scratch, offset: nat, round: nat)
    requires ValidJob(j) && Node(j, offset, round) && Shaped(j, s)
    ensures VerifyInto(j, s, offset, round, Slot(offset)).after.buffer == s.buffer
    decreases round
  {
    if round > 0 {
      var mid := offset + Pow2(round - 1);
      if j.indices[offset] < j.indices[mid] {
        SlotTargetKeepsBuffer(j, s, offset, round - 1);
        var left := VerifyInto(j, s, offset, round - 1, Slot(offset));
        if left.ok {
          SlotTargetKeepsBuffer(j, left.after, mid, round - 1);
        }
      }
    }
  }

  /** A call hashes each leaf of its subtree at most once. */
  lemma {:induction false} HashCountBounded(j: Job, s: Scratch, offset: nat, round: nat, target: Target)
    requires ValidJob(j) && Node(j, offset, round) && Shaped(j, s)
    requires target == Slot(offset) || target == Buffer
    ensures
      var r := VerifyInto(j, s, offset, round, target);
      s.hashCalls <= r.after.hashCalls <= s.hashCalls + Pow2(round)
    decreases round
  {
    if round > 0 {
      var mid := offset + Pow2(round - 1);
      if j.indices[offset] < j.indices[mid] {
        HashCountBounded(j, s, offset, round - 1, Slot(offset));
        var left := VerifyInto(j, s, offset, round - 1, Slot(offset));
        if left.ok {
          HashCountBounded(j, left.after, mid, round - 1, Slot(mid));
        }
      }
    }
  }

  /** A call that succeeds has hashed every leaf of its subtree. */
  lemma {:induction false} HashCountOnSuccess(j: Job, s: Scratch, offset: nat, round: nat, target: Target)
    requires ValidJob(j) && Node(j, offset, round) && Shaped(j, s)
    requires target == Slot(offset) || target == Buffer
    ensures
      var r := VerifyInto(j, s, offset, round, target);
      r.ok ==> r.after.hashCalls == s.hashCalls + Pow2(round)
    decreases round
  {
    if round > 0 {
      var mid := offset + Pow2(round - 1);
      if j.indices[offset] < j.indices[mid] {
        HashCountOnSuccess(j, s, offset, round - 1, Slot(offset));
        var left := VerifyInto(j, s, offset, round - 1, Slot(offset));
        if left.ok {
          HashCountOnSuccess(j, left.after, mid, round - 1, Slot(mid));
        }
      }
    }
  }

  /** Writing to the buffer instead of slot `offset` changes nothing else:
      the same decision, and the buffer ends up with what the slot would. */
  lemma BufferLikeSlot(j: Job, s: Scratch, offset: nat, round: nat)
    requires ValidJob(j) && Node(j, offset, round) && Shaped(j, s) && round > 0
    ensures
      var b := VerifyInto(j, s, offset, round, Buffer);
      var t := VerifyInto(j, s, offset, round, Slot(offset));
      && b.ok == t.ok
      && (t.ok ==> b.after.buffer == t.after.slots[offset])
  {
  }

  /** Inside the recursion, the workspace walk decides exactly what the pure
      walk decides and leaves the node's combined hash in slot `offset`. */
  lemma {:induction false} SlotRefines(j: Job, s: Scratch, offset: nat, round: nat)
    requires ValidJob(j) && Node(j, offset, round) && Shaped(j, s)
    ensures
      var r := VerifyInto(j, s, offset, round, Slot(offset));
      var v := Verify(j, offset, round);
      && r.ok == v.Some?
      && (v.Some? ==> r.after.slots[offset] == v.value)
    decreases round
  {
    if round > 0 {
      var mid := offset + Pow2(round - 1);
      if j.indices[offset] < j.indices[mid] {
        SlotRefines(j, s, offset, round - 1);
        var left := VerifyInto(j, s, offset, round - 1, Slot(offset));
        if left.ok {
          SlotRefines(j, left.after, mid, round - 1);
          VerifyIntoFrame(j, left.after, mid, round - 1, Slot(mid));
          var right := VerifyInto(j, left.after, mid, round - 1, Slot(mid));
          assert right.after.slots[offset] == left.after.slots[offset];
        }
      }
    }
  }

  /** The workspace walk decides exactly what the pure walk decides, leaves
      the node's combined hash where its caller reads it, and on success
      has hashed every leaf of the subtree exactly once. */
  lemma VerifyIntoRefines(j: Job, s: Scratch, offset: nat, round: nat, target: Target)
    requires ValidJob(j) && Node(j, offset, round) && Shaped(j, s)
    requires target == Slot(offset) || target == Buffer
    ensures
      var r := VerifyInto(j, s, offset, round, target);
      var v := Verify(j, offset, round);
      && r.ok == v.Some?
      && (v.Some? && (round == 0 || target.Slot?) ==> r.after.slots[offset] == v.value)
      && (v.Some? && round > 0 && target.Buffer? ==> r.after.buffer == v.value)
      && (v.Some? ==> r.after.hashCalls == s.hashCalls + Pow2(round))
  {
    SlotRefines(j, s, offset, round);
    HashCountOnSuccess(j, s, offset, round, target);
    if round > 0 {
      BufferLikeSlot(j, s, offset, round);
    }
  }

  /** When the left subtree fails, the right subtree is never visited: its
      slots keep their contents, at most the left half's leaves are hashed,
      and the buffer is untouched. */
  lemma LeftFailureSkipsRight(j: Job, s: Scratch, offset: nat, round: nat, target: Target)
    requires ValidJob(j) && Node(j, offset, round) && Shaped(j, s)
    requires target == Slot(offset) || target == Buffer
    requires round > 0 && Verify(j, offset, round - 1).None?
    ensures
      var r := VerifyInto(j, s, offset, round, target);
      var mid := offset + Pow2(round - 1);
      && !r.ok
      && (forall i :: mid <= i < mid + Pow2(round - 1) ==> r.after.slots[i] == s.slots[i])
      && r.after.hashCalls <= s.hashCalls + Pow2(round - 1)
      && r.after.buffer == s.buffer
  {
    var mid := offset + Pow2(round - 1);
    if j.indices[offset] < j.indices[mid] {
      var left := VerifyInto(j, s, offset, round - 1, Slot(offset));
      SlotRefines(j, s, offset, round - 1);
      assert VerifyInto(j, s, offset, round, target) == Step(false, left.after);
      VerifyIntoFrame(j, s, offset, round - 1, Slot(offset));
      HashCountBounded(j, s, offset, round - 1, Slot(offset));
      SlotTargetKeepsBuffer(j, s, offset, round - 1);
    } else {
      VerifyIntoFrame(j, s, offset, round, target);
    }
  }
}
