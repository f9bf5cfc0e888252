/** Properties of the Merkle tree model: the shape of built trees, the dead
    fallback of the proof generator, the verifier's edge cases, the inclusion
    round trip under the documented flag convention, and tamper evidence. */
module MerkleProofs {
  import opened Wrappers
  import opened Hex
  import opened Merkle

  // ---------------------------------------------------------------------------
  // Builder
  // ---------------------------------------------------------------------------

  /** Zero leaves: one level holding the hex of the hash of the empty input, which is the root. */
  lemma EmptyTree(h: Hasher)
    ensures Build(h, []).levels == [[Encode(h([]))]]
    ensures Root(Build(h, [])) == Encode(h([]))
    ensures |Root(Build(h, []))| == 64 && Decode(Root(Build(h, []))) == Some(h([]))
  {
    DecodeEncode(h([]));
  }

  /** `root` of any tree `new` builds is a digest: 64 lower-case hex digits. */
  lemma RootIsDigest(h: Hasher, leaves: seq<string>)
    requires AllHex(leaves)
    ensures |Root(Build(h, leaves))| == 64 && IsLowerHex(Root(Build(h, leaves)))
  {
    var levels := Build(h, leaves).levels;
    if |leaves| == 0 {
      EmptyTree(h);
    } else {
      WellFormedLevels(h, levels);
      var n := |levels|;
      assert n >= 2 by {
        if n == 1 { assert |levels[0]| >= 2; }
      }
      assert Linked(h, levels[n - 2], levels[n - 1]);
      assert CombineHex(h, levels[n - 2][0], levels[n - 2][1]) == Some(levels[n - 1][0]);
    }
  }

  /** An odd leaf list builds the same tree as the list with its last leaf repeated. */
  lemma OddPadding(h: Hasher, leaves: seq<string>)
    requires AllHex(leaves) && |leaves| % 2 == 1
    ensures AllHex(leaves + [leaves[|leaves| - 1]])
    ensures Build(h, leaves) == Build(h, leaves + [leaves[|leaves| - 1]])
  {
    var padded := leaves + [leaves[|leaves| - 1]];
    assert AllHex(padded) by {
      forall i | 0 <= i < |padded| ensures IsHex(padded[i]) {
        assert padded[i] == leaves[if i < |leaves| then i else |leaves| - 1];
      }
    }
    assert EvenLeaves(padded) == padded == EvenLeaves(leaves);
  }

  /** The shape invariant, level by level: every level but the last is even
      and at least two long and derives the next; the last is the single root. */
  lemma {:induction false} WellFormedLevels(h: Hasher, levels: seq<seq<string>>)
    requires WellFormed(h, levels)
    ensures |levels| >= 1 && |levels[|levels| - 1]| == 1
    ensures forall k :: 0 <= k < |levels| - 1 ==> Linked(h, levels[k], levels[k + 1])
  {
    if |levels| > 1 {
      WellFormedLevels(h, levels[1..]);
      forall k | 1 <= k < |levels| - 1 ensures Linked(h, levels[k], levels[k + 1]) {
        assert levels[k] == levels[1..][k - 1] && levels[k + 1] == levels[1..][k];
      }
    }
  }

  /** The levels `new` produces from valid-hex leaves (lines 86-103), spelled
      out: lengths halve and are evened, and each parent combines its two children. */
  lemma LevelsShape(h: Hasher, levels: seq<seq<string>>)
    requires WellFormed(h, levels)
    ensures |levels| >= 1 && |levels[|levels| - 1]| == 1
    ensures forall k :: 0 <= k < |levels| - 1 ==> |levels[k]| >= 2 && |levels[k]| % 2 == 0
    ensures forall k :: 0 <= k < |levels| - 1 ==>
              && |levels[k + 1]| == NextLen(|levels[k]|)
              && forall j :: 0 <= j < |levels[k]| / 2 ==>
                   CombineHex(h, levels[k][2 * j], levels[k][2 * j + 1]) == Some(levels[k + 1][j])
  {
    WellFormedLevels(h, levels);
  }

  /** The duplication at lines 98-101 is reachable, contrary to the comment at
      line 97: six leaves give three parents, padded to four. */
  lemma SixLeavesPadLevelOne(h: Hasher, leaves: seq<string>)
    requires AllHex(leaves) && |leaves| == 6
    ensures var levels := Build(h, leaves).levels;
      && |levels| == 4
      && |levels[0]| == 6 && |levels[1]| == 4 && |levels[2]| == 2 && |levels[3]| == 1
      && levels[1][3] == levels[1][2]
  {
    var levels := Build(h, leaves).levels;
    assert WellFormed(h, levels);
    PaddedPath(h, levels);
  }

  lemma PaddedPath(h: Hasher, levels: seq<seq<string>>)
    requires WellFormed(h, levels) && |levels[0]| == 6
    ensures |levels| == 4
    ensures |levels[1]| == 4 && |levels[2]| == 2 && |levels[3]| == 1
    ensures levels[1][3] == levels[1][2]
  {
    WellFormedLevels(h, levels);
    assert |levels| > 1;
    assert Linked(h, levels[0], levels[1]);
    assert |levels[1]| == 4;
    assert |levels| > 2;
    assert Linked(h, levels[1], levels[2]);
    assert |levels[2]| == 2;
    assert |levels| > 3;
    assert Linked(h, levels[2], levels[3]);
    assert |levels[3]| == 1;
    LevelsShape(h, levels);
  }

  /** Why the builder requires valid hex: a malformed leaf makes the combine of
      its pair in level 0 fail, which is where `expect` (line 93) panics. */
  lemma NonHexLeafFailsCombine(h: Hasher, leaves: seq<string>, i: nat)
    requires i < |leaves| && !IsHex(leaves[i])
    ensures var level0 := EvenLeaves(leaves);
      && 2 * (i / 2) + 1 < |level0|
      && CombineHex(h, level0[2 * (i / 2)], level0[2 * (i / 2) + 1]).None?
  {
    var level0 := EvenLeaves(leaves);
    assert level0[i] == leaves[i];
    if i % 2 == 0 {
      assert 2 * (i / 2) == i;
    } else {
      assert 2 * (i / 2) + 1 == i;
    }
  }

  // ---------------------------------------------------------------------------
  // Proof generator
  // ---------------------------------------------------------------------------

  lemma {:induction false} DivOfDiv(x: nat, p: nat)
    requires p >= 1
    ensures (x / 2) / p == x / (2 * p)
  {
    var q := (x / 2) / p;
    var r := (x / 2) % p;
    assert x / 2 == p * q + r;
    assert x == 2 * (x / 2) + x % 2;
    assert x == (2 * p) * q + (2 * r + x % 2);
    assert 0 <= 2 * r + x % 2 < 2 * p;
    DivUnique(x, 2 * p, q, 2 * r + x % 2);
  }

  lemma DivUnique(x: nat, d: nat, q: nat, r: nat)
    requires d >= 1 && x == d * q + r && r < d
    ensures x / d == q
  {
    var q', r' := x / d, x % d;
    assert x == d * q' + r' && 0 <= r' < d;
    if q' > q {
      MulMono(d, q + 1, q');
    } else if q' < q {
      MulMono(d, q' + 1, q);
    }
  }

  lemma MulMono(d: nat, a: nat, b: nat)
    requires a <= b
    ensures d * a <= d * b
  {
    assert d * b == d * a + d * (b - a);
  }

  /** 2^k. */
  function Pow2(k: nat): (p: nat)
    ensures p >= 1
  {
    if k == 0 then 1 else 2 * Pow2(k - 1)
  }

  /** The position at level k of leaf x's ancestor is x / 2^k. */
  lemma {:induction false} AncestorIsDiv(x: nat, k: nat)
    ensures Ancestor(x, k) == x / Pow2(k)
    decreases k
  {
    if k > 0 {
      AncestorIsDiv(x / 2, k - 1);
      DivOfDiv(x, Pow2(k - 1));
    }
  }

  /** In a well-formed tree every ancestor and every sibling of a leaf is in
      range, so `gen_proof` never panics and never takes the self-sibling
      fallback of lines 133-137. */
  lemma {:induction false} FallbackUnreachable(h: Hasher, levels: seq<seq<string>>, x: nat)
    requires WellFormed(h, levels) && x < |levels[0]|
    ensures InBoundsWalk(levels, x)
    ensures forall k :: 0 <= k < |levels| - 1 ==>
              Ancestor(x, k) < |levels[k]| && Sibling(Ancestor(x, k)) < |levels[k]|
    decreases |levels|
  {
    if |levels| > 1 {
      assert Linked(h, levels[0], levels[1]);
      FallbackUnreachable(h, levels[1..], x / 2);
      forall k | 1 <= k < |levels| - 1
        ensures Ancestor(x, k) < |levels[k]| && Sibling(Ancestor(x, k)) < |levels[k]|
      {
        assert Ancestor(x, k) == Ancestor(x / 2, k - 1);
        assert levels[k] == levels[1..][k - 1];
      }
    }
  }

  /** On a well-formed tree (every tree `Build` returns), `gen_proof` as
      written answers for exactly the padded level-0 positions, with one entry
      per level below the root: entry k of `sibling_is_left` says the
      ancestor at level k (position i / 2^k, see `AncestorIsDiv`) is even, and
      entry k of `sibling_hashes` is the node at that position xor 1. */
  lemma GenProofOnWellFormed(h: Hasher, t: MerkleTree, i: nat)
    requires WellFormed(h, t.levels)
    ensures CanGenProof(t, i)
    ensures GenProof(t, i).None? <==> i >= |t.levels[0]|
    ensures GenProof(t, i).Some? ==>
              var proof := GenProof(t, i).value;
              && |proof.siblingHashes| == |t.levels| - 1
              && |proof.siblingIsLeft| == |t.levels| - 1
              && forall k :: 0 <= k < |t.levels| - 1 ==>
                   && Sibling(Ancestor(i, k)) < |t.levels[k]|
                   && proof.siblingIsLeft[k] == (Ancestor(i, k) % 2 == 0)
                   && proof.siblingHashes[k] == t.levels[k][Sibling(Ancestor(i, k))]
  {
    if i < |t.levels[0]| {
      FallbackUnreachable(h, t.levels, i);
    }
  }

  /** The as-written proof is the documented one with every flag negated. */
  lemma AsWrittenNegatesDocumented(t: MerkleTree, i: nat)
    requires CanGenProof(t, i)
    ensures GenProof(t, i).Some? <==> GenProofCorrected(t, i).Some?
    ensures GenProof(t, i).Some? ==>
              && GenProof(t, i).value.siblingHashes == GenProofCorrected(t, i).value.siblingHashes
              && |GenProof(t, i).value.siblingIsLeft| == |GenProofCorrected(t, i).value.siblingIsLeft|
              && forall k :: 0 <= k < |GenProof(t, i).value.siblingIsLeft| ==>
                   GenProof(t, i).value.siblingIsLeft[k] == !GenProofCorrected(t, i).value.siblingIsLeft[k]
  {
  }

  // ---------------------------------------------------------------------------
  // Verifier
  // ---------------------------------------------------------------------------

  /** With nothing to zip, verification is string equality of leaf and root. */
  lemma VerifyEmptyProof(h: Hasher, leaf: string, proof: MerkleProof, expectedRoot: string)
    requires |proof.siblingHashes| == 0 || |proof.siblingIsLeft| == 0
    ensures Verify(h, leaf, proof, expectedRoot) <==> leaf == expectedRoot
  {
  }

  /** `zip` stops at the shorter array: the tail of the longer one is ignored. */
  lemma {:induction false} ClimbIgnoresTail(h: Hasher, current: string, hashes: seq<string>, flags: seq<bool>)
    ensures var m := if |hashes| < |flags| then |hashes| else |flags|;
      Climb(h, current, hashes, flags) == Climb(h, current, hashes[..m], flags[..m])
    decreases |hashes|
  {
    var m := if |hashes| < |flags| then |hashes| else |flags|;
    var hs, fs := hashes[..m], flags[..m];
    if m > 0 {
      assert hs[0] == hashes[0] && fs[0] == flags[0];
      assert hs[1..] == hashes[1..][..m - 1] && fs[1..] == flags[1..][..m - 1];
      var parent := if flags[0] then CombineHex(h, hashes[0], current) else CombineHex(h, current, hashes[0]);
      if parent.Some? {
        ClimbIgnoresTail(h, parent.value, hashes[1..], flags[1..]);
      }
    }
  }

  lemma VerifyIgnoresTail(h: Hasher, leaf: string, proof: MerkleProof, expectedRoot: string)
    ensures var m := if |proof.siblingHashes| < |proof.siblingIsLeft| then |proof.siblingHashes| else |proof.siblingIsLeft|;
      Verify(h, leaf, proof, expectedRoot)
        == Verify(h, leaf, MerkleProof(proof.siblingHashes[..m], proof.siblingIsLeft[..m]), expectedRoot)
  {
    ClimbIgnoresTail(h, leaf, proof.siblingHashes, proof.siblingIsLeft);
  }

  /** A malformed leaf, or a malformed sibling among the zipped entries, makes
      verification return false (the early `return false`), never panic. */
  lemma {:induction false} ClimbFailsOnMalformed(h: Hasher, current: string, hashes: seq<string>, flags: seq<bool>, k: nat)
    requires k < |hashes| && k < |flags|
    requires !IsHex(hashes[k]) || (k == 0 && !IsHex(current))
    ensures Climb(h, current, hashes, flags).None?
    decreases k
  {
    var parent := if flags[0] then CombineHex(h, hashes[0], current) else CombineHex(h, current, hashes[0]);
    if parent.Some? && k > 0 {
      ClimbFailsOnMalformed(h, parent.value, hashes[1..], flags[1..], k - 1);
    }
  }

  lemma VerifyRejectsMalformed(h: Hasher, leaf: string, proof: MerkleProof, expectedRoot: string, k: nat)
    requires k < |proof.siblingHashes| && k < |proof.siblingIsLeft|
    requires !IsHex(proof.siblingHashes[k]) || !IsHex(leaf)
    ensures !Verify(h, leaf, proof, expectedRoot)
  {
    if !IsHex(leaf) {
      ClimbFailsOnMalformed(h, leaf, proof.siblingHashes, proof.siblingIsLeft, 0);
    } else {
      ClimbFailsOnMalformed(h, leaf, proof.siblingHashes, proof.siblingIsLeft, k);
    }
  }

  // ---------------------------------------------------------------------------
  // Inclusion round trip (documented flag convention)
  // ---------------------------------------------------------------------------

  /** One documented step: a node and its sibling, in the order the flag
      says, combine into the parent at position x / 2. */
  lemma StepReachesParent(h: Hasher, lower: seq<string>, upper: seq<string>, x: nat, sibling: string, isLeft: bool)
    requires Linked(h, lower, upper) && x < |lower|
    requires sibling == lower[Sibling(x)] && isLeft == (x % 2 == 1)
    ensures x / 2 < |upper|
    ensures (if isLeft then CombineHex(h, sibling, lower[x]) else CombineHex(h, lower[x], sibling)) == Some(upper[x / 2])
  {
    var p := x / 2;
    assert CombineHex(h, lower[2 * p], lower[2 * p + 1]) == Some(upper[p]);
    if x % 2 == 1 {
      assert Sibling(x) == 2 * p && x == 2 * p + 1;
    } else {
      assert Sibling(x) == 2 * p + 1 && x == 2 * p;
    }
  }

  /** The path of a node is its first step followed by the path of its parent. */
  ghost predicate OnPath(levels: seq<seq<string>>, x: nat, hashes: seq<string>, flags: seq<bool>) {
    && |levels| >= 1
    && |hashes| == |levels| - 1 && |flags| == |levels| - 1
    && forall k :: 0 <= k < |levels| - 1 ==>
         && Sibling(Ancestor(x, k)) < |levels[k]|
         && hashes[k] == levels[k][Sibling(Ancestor(x, k))]
         && flags[k] == (Ancestor(x, k) % 2 == 1)
  }

  lemma OnPathTail(levels: seq<seq<string>>, x: nat, hashes: seq<string>, flags: seq<bool>)
    requires OnPath(levels, x, hashes, flags) && |levels| > 1
    ensures OnPath(levels[1..], x / 2, hashes[1..], flags[1..])
  {
    var rest := levels[1..];
    forall k | 0 <= k < |rest| - 1
      ensures && Sibling(Ancestor(x / 2, k)) < |rest[k]|
              && hashes[1..][k] == rest[k][Sibling(Ancestor(x / 2, k))]
              && flags[1..][k] == (Ancestor(x / 2, k) % 2 == 1)
    {
      assert Ancestor(x, k + 1) == Ancestor(x / 2, k);
      assert rest[k] == levels[k + 1];
    }
  }

  /** Climbing from a node with its siblings and documented flags reaches the root. */
  lemma {:induction false} ClimbReachesRoot(h: Hasher, levels: seq<seq<string>>, x: nat,
                                            hashes: seq<string>, flags: seq<bool>)
    requires WellFormed(h, levels) && x < |levels[0]|
    requires OnPath(levels, x, hashes, flags)
    ensures Climb(h, levels[0][x], hashes, flags) == Some(levels[|levels| - 1][0])
    decreases |levels|
  {
    if |levels| > 1 {
      assert Ancestor(x, 0) == x;
      StepReachesParent(h, levels[0], levels[1], x, hashes[0], flags[0]);
      assert Climb(h, levels[0][x], hashes, flags) == Climb(h, levels[1][x / 2], hashes[1..], flags[1..]);
      OnPathTail(levels, x, hashes, flags);
      ClimbReachesRoot(h, levels[1..], x / 2, hashes[1..], flags[1..]);
      assert levels[1..][|levels| - 2] == levels[|levels| - 1];
    }
  }

  /** The round trip on any well-formed tree: every level-0 position has a
      proof, and the node there verifies against the root with it. */
  lemma WellFormedRoundTrip(h: Hasher, t: MerkleTree, i: nat)
    requires WellFormed(h, t.levels) && i < |t.levels[0]|
    ensures CanGenProof(t, i)
    ensures GenProofCorrected(t, i).Some?
    ensures Verify(h, t.levels[0][i], GenProofCorrected(t, i).value, Root(t))
  {
    FallbackUnreachable(h, t.levels, i);
    WellFormedLevels(h, t.levels);
    var proof := GenProofCorrected(t, i).value;
    ClimbReachesRoot(h, t.levels, i, proof.siblingHashes, proof.siblingIsLeft);
  }

  /** The inclusion property of lines 194-199, for the documented flag
      convention: every level-0 position of a built tree has a proof, and the
      leaf there verifies against the root with it. */
  lemma InclusionRoundTrip(h: Hasher, leaves: seq<string>, i: nat)
    requires AllHex(leaves)
    requires i < |Build(h, leaves).levels[0]|
    ensures CanGenProof(Build(h, leaves), i)
    ensures GenProofCorrected(Build(h, leaves), i).Some?
    ensures var t := Build(h, leaves);
      Verify(h, t.levels[0][i], GenProofCorrected(t, i).value, Root(t))
  {
    WellFormedRoundTrip(h, Build(h, leaves), i);
  }

  /** In particular every original leaf verifies at its own index. */
  lemma LeafInclusion(h: Hasher, leaves: seq<string>, i: nat)
    requires AllHex(leaves) && i < |leaves|
    ensures CanGenProof(Build(h, leaves), i)
    ensures GenProofCorrected(Build(h, leaves), i).Some?
    ensures Verify(h, leaves[i], GenProofCorrected(Build(h, leaves), i).value, Root(Build(h, leaves)))
  {
    var t := Build(h, leaves);
    assert t.levels[0][..|leaves|] == leaves;
    assert t.levels[0][i] == leaves[i];
    InclusionRoundTrip(h, leaves, i);
  }

  // ---------------------------------------------------------------------------
  // Tamper evidence
  // ---------------------------------------------------------------------------

  /** Two concatenations with the same suffix are equal only when the prefixes are. */
  lemma ConcatCancel(a: seq<byte>, b: seq<byte>, s: seq<byte>)
    ensures (a + s == b + s) ==> a == b
    ensures (s + a == s + b) ==> a == b
  {
    if a + s == b + s {
      assert a == (a + s)[..|a|] == (b + s)[..|b|] == b;
    }
    if s + a == s + b {
      assert a == (s + a)[|s|..] == (s + b)[|s|..] == b;
    }
  }

  /** Two currents that decode differently but climb the same proof to the
      same digest expose a SHA-256 collision. */
  lemma {:induction false} ClimbCollision(h: Hasher, a: string, b: string, hashes: seq<string>, flags: seq<bool>)
    returns (x: seq<byte>, y: seq<byte>)
    requires Decode(a) != Decode(b)
    requires Climb(h, a, hashes, flags).Some?
    requires Climb(h, a, hashes, flags) == Climb(h, b, hashes, flags)
    ensures x != y && h(x) == h(y)
    decreases |hashes|
  {
    if |hashes| == 0 || |flags| == 0 {
      assert false;
    }
    var ca := if flags[0] then CombineHex(h, hashes[0], a) else CombineHex(h, a, hashes[0]);
    var cb := if flags[0] then CombineHex(h, hashes[0], b) else CombineHex(h, b, hashes[0]);
    assert ca.Some? && cb.Some?;
    var da, db, ds := Decode(a).value, Decode(b).value, Decode(hashes[0]).value;
    var ia := if flags[0] then ds + da else da + ds;
    var ib := if flags[0] then ds + db else db + ds;
    ConcatCancel(da, db, ds);
    assert ia != ib;
    if h(ia) == h(ib) {
      x, y := ia, ib;
    } else {
      assert Decode(ca.value) != Decode(cb.value);
      x, y := ClimbCollision(h, ca.value, cb.value, hashes[1..], flags[1..]);
    }
  }

  /** Tamper evidence (lines 201-203): a proof that verifies two leaves with
      different bytes against the same root yields a SHA-256 collision. */
  lemma TamperEvidence(h: Hasher, leaf: string, other: string, proof: MerkleProof, expectedRoot: string)
    returns (x: seq<byte>, y: seq<byte>)
    requires Decode(leaf) != Decode(other)
    requires Verify(h, leaf, proof, expectedRoot) && Verify(h, other, proof, expectedRoot)
    ensures x != y && h(x) == h(y)
  {
    x, y := ClimbCollision(h, leaf, other, proof.siblingHashes, proof.siblingIsLeft);
  }

  function FlipFlag(proof: MerkleProof, k: nat): MerkleProof
    requires k < |proof.siblingIsLeft|
  {
    MerkleProof(proof.siblingHashes, proof.siblingIsLeft[k := !proof.siblingIsLeft[k]])
  }

  /** The operands at a step commute: swapping them leaves the hashed bytes unchanged. */
  ghost predicate Commute(current: Option<string>, sibling: string) {
    && current.Some? && IsHex(current.value) && IsHex(sibling)
    && Decode(current.value).value + Decode(sibling).value == Decode(sibling).value + Decode(current.value).value
  }

  lemma {:induction false} ClimbFlipCollision(h: Hasher, current: string, hashes: seq<string>, flags: seq<bool>, k: nat)
    returns (x: seq<byte>, y: seq<byte>)
    requires k < |hashes| && k < |flags|
    requires Climb(h, current, hashes, flags).Some?
    requires Climb(h, current, hashes, flags[k := !flags[k]]) == Climb(h, current, hashes, flags)
    ensures (x != y && h(x) == h(y)) || Commute(Climb(h, current, hashes[..k], flags[..k]), hashes[k])
    decreases k
  {
    x, y := [], [];
    var flipped := flags[k := !flags[k]];
    var c1 := if flags[0] then CombineHex(h, hashes[0], current) else CombineHex(h, current, hashes[0]);
    assert c1.Some?;
    if k == 0 {
      var c2 := if flipped[0] then CombineHex(h, hashes[0], current) else CombineHex(h, current, hashes[0]);
      assert c2.Some?;
      assert flipped[1..] == flags[1..];
      var dc, ds := Decode(current).value, Decode(hashes[0]).value;
      var i1 := if flags[0] then ds + dc else dc + ds;
      var i2 := if flags[0] then dc + ds else ds + dc;
      assert Climb(h, current, hashes[..0], flags[..0]) == Some(current);
      if i1 == i2 {
        assert Commute(Some(current), hashes[0]);
      } else if h(i1) == h(i2) {
        x, y := i1, i2;
      } else {
        assert Decode(c1.value) != Decode(c2.value);
        x, y := ClimbCollision(h, c1.value, c2.value, hashes[1..], flags[1..]);
      }
    } else {
      assert flipped[0] == flags[0] && flipped[1..] == flags[1..][k - 1 := !flags[1..][k - 1]];
      assert hashes[..k][1..] == hashes[1..][..k - 1] && flags[..k][1..] == flags[1..][..k - 1];
      x, y := ClimbFlipCollision(h, c1.value, hashes[1..], flags[1..], k - 1);
    }
  }

  /** Flipping one flag of a verifying proof is detected unless the two
      operands at that step commute (as when a padding node is its own
      sibling) or SHA-256 collides. */
  lemma FlagFlipEvidence(h: Hasher, leaf: string, proof: MerkleProof, expectedRoot: string, k: nat)
    returns (x: seq<byte>, y: seq<byte>)
    requires k < |proof.siblingHashes| && k < |proof.siblingIsLeft|
    requires Verify(h, leaf, proof, expectedRoot) && Verify(h, leaf, FlipFlag(proof, k), expectedRoot)
    ensures (x != y && h(x) == h(y))
         || Commute(Climb(h, leaf, proof.siblingHashes[..k], proof.siblingIsLeft[..k]), proof.siblingHashes[k])
  {
    x, y := ClimbFlipCollision(h, leaf, proof.siblingHashes, proof.siblingIsLeft, k);
  }

  /** A step whose sibling is the current node itself gives the same parent
      whichever way its flag points. */
  lemma ClimbSelfSiblingFlip(h: Hasher, current: string, hashes: seq<string>, flags: seq<bool>)
    requires |hashes| > 0 && |flags| > 0 && hashes[0] == current
    ensures Climb(h, current, hashes, flags[0 := !flags[0]]) == Climb(h, current, hashes, flags)
  {
    assert flags[0 := !flags[0]][1..] == flags[1..];
  }

  /** On any well-formed tree, a level-0 node that equals its sibling (a
      duplicated last leaf) keeps verifying after its first flag is flipped. */
  lemma SelfSiblingFlagInsensitive(h: Hasher, t: MerkleTree, i: nat)
    requires WellFormed(h, t.levels) && |t.levels| > 1 && i < |t.levels[0]|
    requires Sibling(i) < |t.levels[0]| && t.levels[0][Sibling(i)] == t.levels[0][i]
    ensures CanGenProof(t, i) && GenProofCorrected(t, i).Some?
    ensures var proof := GenProofCorrected(t, i).value;
      && |proof.siblingIsLeft| > 0
      && Verify(h, t.levels[0][i], proof, Root(t))
      && Verify(h, t.levels[0][i], FlipFlag(proof, 0), Root(t))
  {
    WellFormedRoundTrip(h, t, i);
    var proof := GenProofCorrected(t, i).value;
    assert Ancestor(i, 0) == i;
    ClimbSelfSiblingFlip(h, t.levels[0][i], proof.siblingHashes, proof.siblingIsLeft);
  }

  /** The exception is real: with three leaves, the proof for the padded third
      leaf still verifies after its level-0 flag is flipped, because that
      leaf's sibling is its own duplicate. */
  lemma PaddedLeafFlagInsensitive(h: Hasher, leaves: seq<string>)
    requires AllHex(leaves) && |leaves| == 3
    ensures var t := Build(h, leaves);
      && CanGenProof(t, 2) && GenProofCorrected(t, 2).Some?
      && var proof := GenProofCorrected(t, 2).value;
      && |proof.siblingIsLeft| > 0
      && Verify(h, leaves[2], proof, Root(t))
      && Verify(h, leaves[2], FlipFlag(proof, 0), Root(t))
  {
    var t := Build(h, leaves);
    assert |t.levels[0]| == 4 && t.levels[0][2] == t.levels[0][3] == leaves[2];
    SelfSiblingFlagInsensitive(h, t, 2);
  }

}
