/** The Merkle tree of `src/merkle.rs`: the pairwise combine over hex digests,
    the level-by-level builder, the proof generator and the proof verifier.
    SHA-256 is a parameter `h` of every operation that hashes: a total
    function from byte strings to 32-byte digests about which nothing else is
    assumed, so every property proved here holds for any such function. */
module Merkle {
  import opened Wrappers
  import opened Hex

  type Digest = d: seq<byte> | |d| == 32 witness seq(32, i => 0)

  /** SHA-256 over a whole message (`Sha256::digest`, or `update` calls followed by `finalize`). */
  type Hasher = seq<byte> -> Digest

  /** `combine_hex`: decode both operands, hash the concatenation of the bytes
      (`hash_pair`), re-encode as lower-case hex. Fails exactly when an operand
      is malformed; a success decodes to the hash of the operands' bytes. */
  function CombineHex(h: Hasher, left: string, right: string): (r: Option<string>)
    ensures r.None? <==> !IsHex(left) || !IsHex(right)
    ensures r.Some? ==> |r.value| == 64 && IsLowerHex(r.value)
    ensures r.Some? ==> Decode(r.value) == Some(h(Decode(left).value + Decode(right).value))
  {
    match Decode(left)
    case None => None
    case Some(l) =>
      match Decode(right)
      case None => None
      case Some(rb) =>
        DecodeEncode(h(l + rb));
        Some(Encode(h(l + rb)))
  }

  /** `levels[0]` holds the (padded) leaves, the last level holds the root. */
  datatype MerkleTree = MerkleTree(levels: seq<seq<string>>)

  /** Sibling digests bottom-up, and for each whether the sibling is the left operand. */
  datatype MerkleProof = MerkleProof(siblingHashes: seq<string>, siblingIsLeft: seq<bool>)

  predicate AllHex(nodes: seq<string>) {
    forall i :: 0 <= i < |nodes| ==> IsHex(nodes[i])
  }

  // ---------------------------------------------------------------------------
  // Builder (`MerkleTree::new`)
  // ---------------------------------------------------------------------------

  /** The inner loop of `new`: combine positions 2j and 2j+1 into parent j.
      The requires are what keeps `prev[i + 1]` in range and `expect` quiet. */
  function PairUp(h: Hasher, prev: seq<string>): (next: seq<string>)
    requires |prev| % 2 == 0 && AllHex(prev)
    ensures |next| == |prev| / 2
    ensures forall j :: 0 <= j < |next| ==> CombineHex(h, prev[2 * j], prev[2 * j + 1]) == Some(next[j])
    ensures forall j :: 0 <= j < |next| ==> |next[j]| == 64 && IsLowerHex(next[j])
  {
    seq(|prev| / 2, j requires 0 <= j < |prev| / 2 => CombineHex(h, prev[2 * j], prev[2 * j + 1]).value)
  }

  /** Lines 98-101: an odd level longer than one gets its last node duplicated. */
  function PadLevel(next: seq<string>): seq<string> {
    if |next| % 2 == 1 && |next| > 1 then next + [next[|next| - 1]] else next
  }

  /** Lines 77-80: an odd leaf list gets its last leaf duplicated. */
  function EvenLeaves(leaves: seq<string>): seq<string> {
    if |leaves| % 2 == 1 then leaves + [leaves[|leaves| - 1]] else leaves
  }

  /** A padded level has one node or an even number of them, starts with the
      unpadded level, and adds at most a copy of its last node. */
  lemma PadLevelPads(next: seq<string>)
    ensures var r := PadLevel(next);
      && (|r| <= 1 || |r| % 2 == 0)
      && |next| <= |r| <= |next| + 1 && r[..|next|] == next
      && (|r| > |next| ==> |next| > 1 && r[|next|] == next[|next| - 1])
  {
  }

  /** The padded leaf list is even, starts with the leaves, and adds at most a
      copy of the last leaf. */
  lemma EvenLeavesPads(leaves: seq<string>)
    ensures var r := EvenLeaves(leaves);
      && |r| % 2 == 0
      && |leaves| <= |r| <= |leaves| + 1 && r[..|leaves|] == leaves
      && (|r| > |leaves| ==> |leaves| > 0 && r[|leaves|] == leaves[|leaves| - 1])
  {
  }

  /** Length of the level above a level of `n` nodes: half, rounded up to even when above one. */
  function NextLen(n: nat): (m: nat)
    ensures n / 2 <= m <= n / 2 + 1
    ensures m <= 1 || m % 2 == 0
    ensures m != n / 2 ==> n / 2 > 1 && n / 2 % 2 == 1
    ensures n >= 2 ==> m < n
  {
    var half := n / 2;
    if half % 2 == 1 && half > 1 then half + 1 else half
  }

  /** `upper` is the level that `new` derives from `lower`. */
  ghost predicate Linked(h: Hasher, lower: seq<string>, upper: seq<string>) {
    && |lower| >= 2 && |lower| % 2 == 0
    && |upper| == NextLen(|lower|)
    && (forall j :: 0 <= j < |lower| / 2 ==> CombineHex(h, lower[2 * j], lower[2 * j + 1]) == Some(upper[j]))
    && (|upper| > |lower| / 2 ==> upper[|upper| - 1] == upper[|upper| - 2])
  }

  /** The shape invariant of a built tree: a non-empty list of levels, each
      linked to the next, ending in a single root. */
  ghost predicate WellFormed(h: Hasher, levels: seq<seq<string>>)
    decreases |levels|
  {
    && |levels| >= 1
    && |levels[|levels| - 1]| == 1
    && (|levels| > 1 ==> Linked(h, levels[0], levels[1]) && WellFormed(h, levels[1..]))
  }

  /** The outer loop of `new` (lines 86-103), from the current last level up to the root. */
  function BuildUp(h: Hasher, level: seq<string>): (levels: seq<seq<string>>)
    requires |level| >= 1 && (|level| == 1 || |level| % 2 == 0) && AllHex(level)
    ensures WellFormed(h, levels)
    ensures levels[0] == level
    decreases |level|
  {
    if |level| == 1 then [level]
    else
      var next := PadLevel(PairUp(h, level));
      NextLevelLinked(h, level);
      var above := BuildUp(h, next);
      assert ([level] + above)[1..] == above;
      [level] + above
  }

  /** One pass of the outer loop keeps the builder's invariant: the new level is
      linked to the old one, valid hex, and of length one or even. */
  lemma NextLevelLinked(h: Hasher, level: seq<string>)
    requires |level| >= 2 && |level| % 2 == 0 && AllHex(level)
    ensures var next := PadLevel(PairUp(h, level));
      && Linked(h, level, next)
      && AllHex(next)
      && 1 <= |next| < |level|
      && (|next| == 1 || |next| % 2 == 0)
  {
    var pairs := PairUp(h, level);
    var next := PadLevel(pairs);
    var half := |level| / 2;
    assert |pairs| == half;
    assert |next| == NextLen(|level|);
    assert forall j :: 0 <= j < half ==> next[j] == pairs[j];
    assert forall j :: 0 <= j < half ==> CombineHex(h, level[2 * j], level[2 * j + 1]) == Some(next[j]);
    assert |next| > half ==> next[|next| - 1] == next[|next| - 2];
    assert Linked(h, level, next);
    forall j | 0 <= j < |next| ensures IsHex(next[j]) {
      var jj := if j < half then j else half - 1;
      assert next[j] == pairs[jj];
      assert IsLowerHex(pairs[jj]);
    }
    assert AllHex(next);
    assert 1 <= |next| < |level|;
    assert |next| == 1 || |next| % 2 == 0;
  }

  /** `MerkleTree::new`. The source calls `expect` on every combine, so the
      builder is only defined when every leaf is valid hex. */
  function Build(h: Hasher, leaves: seq<string>): (t: MerkleTree)
    requires AllHex(leaves)
    ensures WellFormed(h, t.levels)
    ensures |leaves| == 0 ==> t.levels == [[Encode(h([]))]]
    ensures |leaves| > 0 ==>
              && |t.levels[0]| == |leaves| + |leaves| % 2
              && t.levels[0][..|leaves|] == leaves
              && (|leaves| % 2 == 1 ==> t.levels[0][|leaves|] == leaves[|leaves| - 1])
  {
    if |leaves| == 0 then MerkleTree([[Encode(h([]))]])
    else
      var level0 := EvenLeaves(leaves);
      assert level0[..|leaves|] == leaves;
      MerkleTree(BuildUp(h, level0))
  }

  /** `root`: the single node of the last level. */
  function Root(t: MerkleTree): string
    requires |t.levels| > 0 && |t.levels[|t.levels| - 1]| > 0
  {
    t.levels[|t.levels| - 1][0]
  }

  // ---------------------------------------------------------------------------
  // Proof generator (`gen_proof`)
  // ---------------------------------------------------------------------------

  /** The index with its lowest bit flipped (line 130). */
  function Sibling(x: nat): nat {
    if x % 2 == 1 then x - 1 else x + 1
  }

  /** The position at level k of the ancestor of position x at level 0 (line 144, k times). */
  function Ancestor(x: nat, k: nat): nat
    decreases k
  {
    if k == 0 then x else Ancestor(x / 2, k - 1)
  }

  /** The loop body at position x does not panic: either the sibling is in
      range, or the fallback `nodes[index]` is. */
  predicate SafeAt(nodes: seq<string>, x: nat) {
    Sibling(x) < |nodes| || x < |nodes|
  }

  /** The sibling, or the node itself when the sibling is out of range (lines 133-137). */
  function SiblingOrSelf(nodes: seq<string>, x: nat): string
    requires SafeAt(nodes, x)
  {
    if Sibling(x) < |nodes| then nodes[Sibling(x)] else nodes[x]
  }

  /** Every iteration of the loop of `gen_proof`, started at position x, stays clear of a panic. */
  predicate InBoundsWalk(levels: seq<seq<string>>, x: nat)
    decreases |levels|
  {
    |levels| <= 1 || (SafeAt(levels[0], x) && InBoundsWalk(levels[1..], x / 2))
  }

  /** What one iteration of the loop learns: the sibling and whether the
      current position is a right child (`is_right`, line 129). */
  datatype Step = Step(sibling: string, isRight: bool)

  /** The loop of lines 126-145 over all levels below the root. */
  function Walk(levels: seq<seq<string>>, x: nat): (steps: seq<Step>)
    requires InBoundsWalk(levels, x)
    ensures |steps| == if |levels| == 0 then 0 else |levels| - 1
    decreases |levels|
  {
    if |levels| <= 1 then []
    else [Step(SiblingOrSelf(levels[0], x), x % 2 == 1)] + Walk(levels[1..], x / 2)
  }

  /** Iteration k of the loop stands at the ancestor of x at level k, stays in
      bounds there, and records that node's sibling and whether it is a right child. */
  lemma {:induction false} WalkSteps(levels: seq<seq<string>>, x: nat)
    requires InBoundsWalk(levels, x)
    ensures forall k :: 0 <= k < |Walk(levels, x)| ==>
              && SafeAt(levels[k], Ancestor(x, k))
              && Walk(levels, x)[k] == Step(SiblingOrSelf(levels[k], Ancestor(x, k)), Ancestor(x, k) % 2 == 1)
    decreases |levels|
  {
    if |levels| > 1 {
      var steps, rest := Walk(levels, x), Walk(levels[1..], x / 2);
      WalkSteps(levels[1..], x / 2);
      assert steps[0] == Step(SiblingOrSelf(levels[0], x), x % 2 == 1);
      assert Ancestor(x, 0) == x;
      forall k | 1 <= k < |steps|
        ensures && SafeAt(levels[k], Ancestor(x, k))
                && steps[k] == Step(SiblingOrSelf(levels[k], Ancestor(x, k)), Ancestor(x, k) % 2 == 1)
      {
        assert steps[k] == rest[k - 1];
        assert Ancestor(x, k) == Ancestor(x / 2, k - 1);
        assert levels[k] == levels[1..][k - 1];
      }
    }
  }

  /** The precondition `gen_proof` needs to return instead of panicking. */
  predicate CanGenProof(t: MerkleTree, i: nat) {
    |t.levels| > 0 && i < |t.levels[0]| ==> InBoundsWalk(t.levels, i)
  }

  /** The bounds checks of lines 115-120 and the walk, before the flags are encoded. */
  function ProofSteps(t: MerkleTree, i: nat): Option<seq<Step>>
    requires CanGenProof(t, i)
  {
    if |t.levels| == 0 || |t.levels[0]| == 0 then None
    else if i >= |t.levels[0]| then None
    else Some(Walk(t.levels, i))
  }

  /** `gen_proof` as written: line 141 records `!is_right`, which is true when
      the sibling is on the RIGHT, the opposite of the field's documented meaning. */
  function GenProof(t: MerkleTree, i: nat): (r: Option<MerkleProof>)
    requires CanGenProof(t, i)
    ensures r.None? <==> |t.levels| == 0 || i >= |t.levels[0]|
    ensures r.Some? ==>
              && |r.value.siblingHashes| == |t.levels| - 1
              && |r.value.siblingIsLeft| == |t.levels| - 1
              && forall k :: 0 <= k < |t.levels| - 1 ==>
                   && SafeAt(t.levels[k], Ancestor(i, k))
                   && r.value.siblingIsLeft[k] == (Ancestor(i, k) % 2 == 0)
                   && r.value.siblingHashes[k] == SiblingOrSelf(t.levels[k], Ancestor(i, k))
  {
    match ProofSteps(t, i)
    case None => None
    case Some(steps) =>
      WalkSteps(t.levels, i);
      Some(MerkleProof(seq(|steps|, k requires 0 <= k < |steps| => steps[k].sibling),
                       seq(|steps|, k requires 0 <= k < |steps| => !steps[k].isRight)))
  }

  /** `gen_proof` with the documented flag: `sibling_is_left` is `is_right`. */
  function GenProofCorrected(t: MerkleTree, i: nat): (r: Option<MerkleProof>)
    requires CanGenProof(t, i)
    ensures r.None? <==> |t.levels| == 0 || i >= |t.levels[0]|
    ensures r.Some? ==>
              && |r.value.siblingHashes| == |t.levels| - 1
              && |r.value.siblingIsLeft| == |t.levels| - 1
              && forall k :: 0 <= k < |t.levels| - 1 ==>
                   && SafeAt(t.levels[k], Ancestor(i, k))
                   && r.value.siblingIsLeft[k] == (Ancestor(i, k) % 2 == 1)
                   && r.value.siblingHashes[k] == SiblingOrSelf(t.levels[k], Ancestor(i, k))
  {
    match ProofSteps(t, i)
    case None => None
    case Some(steps) =>
      WalkSteps(t.levels, i);
      Some(MerkleProof(seq(|steps|, k requires 0 <= k < |steps| => steps[k].sibling),
                       seq(|steps|, k requires 0 <= k < |steps| => steps[k].isRight)))
  }

  // ---------------------------------------------------------------------------
  // Verifier (`verify_proof`)
  // ---------------------------------------------------------------------------

  /** The loop of lines 158-170: fold the zipped (sibling, flag) pairs into the
      running digest; `None` is the early `return false`. */
  function Climb(h: Hasher, current: string, hashes: seq<string>, flags: seq<bool>): (r: Option<string>)
    ensures r.Some? && |hashes| > 0 && |flags| > 0 ==> |r.value| == 64 && IsLowerHex(r.value)
    ensures |hashes| > 0 && |flags| > 0 && !IsHex(current) ==> r.None?
    decreases |hashes|
  {
    if |hashes| == 0 || |flags| == 0 then Some(current)
    else
      var parent := if flags[0] then CombineHex(h, hashes[0], current) else CombineHex(h, current, hashes[0]);
      match parent
      case None => None
      case Some(p) => Climb(h, p, hashes[1..], flags[1..])
  }

  /** `verify_proof`: climb from the leaf and compare with the expected root as strings. */
  function Verify(h: Hasher, leaf: string, proof: MerkleProof, expectedRoot: string): (ok: bool)
    ensures ok && |proof.siblingHashes| > 0 && |proof.siblingIsLeft| > 0 ==>
              IsHex(leaf) && |expectedRoot| == 64 && IsLowerHex(expectedRoot)
    ensures |proof.siblingHashes| == 0 || |proof.siblingIsLeft| == 0 ==> (ok <==> leaf == expectedRoot)
  {
    match Climb(h, leaf, proof.siblingHashes, proof.siblingIsLeft)
    case None => false
    case Some(top) => top == expectedRoot
  }

}
