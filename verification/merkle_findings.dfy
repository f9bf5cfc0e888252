/** The flag inversion of `gen_proof` (line 141). As written, the flag is
    true when the sibling is on the right; `verify_proof` reads it as "the
    sibling is the left operand". Here the as-written generator is shown to
    fail the inclusion round trip whenever combining is not symmetric, while
    the corrected generator always passes it (`MerkleProofs.InclusionRoundTrip`). */
module MerkleFindings {
  import opened Wrappers
  import opened Hex
  import opened Merkle
  import MerkleProofs

  /** The tree `new` builds from two valid leaves: the pair, then their parent. */
  lemma TwoLeafTree(h: Hasher, leaves: seq<string>)
    requires AllHex(leaves) && |leaves| == 2
    ensures CombineHex(h, leaves[0], leaves[1]).Some?
    ensures Build(h, leaves).levels == [[leaves[0], leaves[1]], [CombineHex(h, leaves[0], leaves[1]).value]]
  {
    assert leaves == [leaves[0], leaves[1]];
    assert EvenLeaves(leaves) == leaves;
    assert PairUp(h, leaves) == [CombineHex(h, leaves[0], leaves[1]).value] by {
      assert leaves[..0] == [];
    }
  }

  /** On a tree of two leaves `a`, `b` under their parent, the as-written
      proof of leaf 0 is the single sibling `b` flagged true, so `verify_proof`
      hashes b || a where the root is a || b. */
  lemma AsWrittenTwoLevels(h: Hasher, t: MerkleTree, a: string, b: string)
    requires CombineHex(h, a, b).Some? && t.levels == [[a, b], [CombineHex(h, a, b).value]]
    ensures CanGenProof(t, 0) && GenProof(t, 0).Some?
    ensures GenProof(t, 0).value == MerkleProof([b], [true])
    ensures Verify(h, a, GenProof(t, 0).value, Root(t)) <==> CombineHex(h, b, a) == CombineHex(h, a, b)
  {
    assert InBoundsWalk(t.levels[1..], 0);
    var proof := GenProof(t, 0).value;
    assert Ancestor(0, 0) == 0;
    assert proof.siblingHashes == [b] && proof.siblingIsLeft == [true];
    assert CombineHex(h, b, a).Some?;
    assert Climb(h, a, [b], [true]) == CombineHex(h, b, a) by {
      assert Climb(h, CombineHex(h, b, a).value, [], []) == CombineHex(h, b, a);
    }
  }

  /** As written, the proof of leaf 0 in a two-leaf tree verifies exactly when
      combining the two leaves in either order gives the same digest. */
  lemma AsWrittenTwoLeaves(h: Hasher, leaves: seq<string>)
    requires AllHex(leaves) && |leaves| == 2
    ensures CanGenProof(Build(h, leaves), 0) && GenProof(Build(h, leaves), 0).Some?
    ensures (Verify(h, leaves[0], GenProof(Build(h, leaves), 0).value, Root(Build(h, leaves)))
             <==> CombineHex(h, leaves[1], leaves[0]) == CombineHex(h, leaves[0], leaves[1]))
  {
    TwoLeafTree(h, leaves);
    AsWrittenTwoLevels(h, Build(h, leaves), leaves[0], leaves[1]);
  }

  /** A digest function that keeps only the first input byte, so the order of
      the operands matters. Any function to 32 bytes is a legitimate `Hasher`. */
  function FirstByteHash(data: seq<byte>): Digest
  {
    seq(32, i requires 0 <= i < 32 => if |data| > 0 then data[0] else 0)
  }

  lemma DecodeLiterals()
    ensures Decode("00") == Some([0]) && Decode("01") == Some([1])
  {
    DecodeBytes("00");
    DecodeBytes("01");
    var d0, d1 := Decode("00").value, Decode("01").value;
    assert DigitValue('0') == 0 && DigitValue('1') == 1;
    assert |d0| == 1 && d0[0] == 16 * DigitValue('0') + DigitValue('0');
    assert |d1| == 1 && d1[0] == 16 * DigitValue('0') + DigitValue('1');
    assert d0 == [0] && d1 == [1];
  }

  /** Under `FirstByteHash`, combining "00" and "01" depends on the order. */
  lemma FirstByteCombineAsymmetric()
    ensures IsHex("00") && IsHex("01")
    ensures CombineHex(FirstByteHash, "01", "00") != CombineHex(FirstByteHash, "00", "01")
  {
    DecodeLiterals();
    var ba := CombineHex(FirstByteHash, "01", "00");
    var ab := CombineHex(FirstByteHash, "00", "01");
    assert Decode(ba.value) == Some(FirstByteHash([1, 0]));
    assert Decode(ab.value) == Some(FirstByteHash([0, 1]));
    assert FirstByteHash([1, 0])[0] == 1 && FirstByteHash([0, 1])[0] == 0;
  }

  /** The concrete counterexample: leaves "00" and "01" under `FirstByteHash`.
      The as-written proof of leaf 0 fails to verify against the tree's own
      root, while the corrected proof verifies. */
  lemma AsWrittenRoundTripFails()
    ensures AllHex(["00", "01"])
    ensures CanGenProof(Build(FirstByteHash, ["00", "01"]), 0)
    ensures GenProof(Build(FirstByteHash, ["00", "01"]), 0).Some?
    ensures !Verify(FirstByteHash, "00", GenProof(Build(FirstByteHash, ["00", "01"]), 0).value,
                    Root(Build(FirstByteHash, ["00", "01"])))
    ensures GenProofCorrected(Build(FirstByteHash, ["00", "01"]), 0).Some?
    ensures Verify(FirstByteHash, "00", GenProofCorrected(Build(FirstByteHash, ["00", "01"]), 0).value,
                   Root(Build(FirstByteHash, ["00", "01"])))
  {
    FirstByteCombineAsymmetric();
    AsWrittenTwoLeaves(FirstByteHash, ["00", "01"]);
    MerkleProofs.LeafInclusion(FirstByteHash, ["00", "01"], 0);
  }

}
