# Merkle tree and slug model

This project is a Dafny model of two pieces of a command-line voting tool.

- **The Merkle tree** of `src/merkle.rs`:
  - a tree is built from hex-encoded leaf digests;
  - `gen_proof` produces an inclusion proof for a leaf index (sibling digests bottom-up, plus one flag per level);
  - `verify_proof` folds such a proof from a leaf up to an expected root.
- **`slugify`** of `src/commands/create.rs`, which turns a poll title into an identifier.

SHA-256 is a parameter `h: Hasher` of every Merkle operation and lemma: any function from byte strings to 32-byte digests. Consequences:

- Every proved property holds for every such function.
- The model never assumes SHA-256 is collision-free. Tamper evidence is stated the constructive way: a forged verification *produces* two distinct inputs with the same digest.

Hex text is Base16 as in section 8 of RFC 4648. Decoding accepts upper- and lower-case digits. Encoding emits lower case.

The modules:

- **`Wrappers`**: `Option`.
- **`Ascii`**: ASCII letter and digit classes, and lower-casing.
- **`Hex`**: decoding and encoding, both round trips, and the byte-by-byte meaning of a decoding.
- **`Merkle`**: `combine_hex` (`CombineHex`, which applies `h` to the concatenated bytes as `hash_pair` does), `root` (`Root`), and the builder as `PairUp` (inner loop), `PadLevel`, `BuildUp` (outer loop) and `Build`.
  - The shape invariant of built trees is `WellFormed`: every level is linked to the next one by pairwise combination and padding, and the last level is the single root.
  - `gen_proof` is one walk (`Walk`) from which two generators are derived: `GenProof` as written and `GenProofCorrected` with the documented flag.
  - `verify_proof` is `Climb` plus the final comparison.
- **`MerkleProofs`**: the tree shape, panic freedom of proof generation on built trees, the edge cases of the verifier, the inclusion round trip, and tamper evidence.
- **`MerkleFindings`**: the flag inversion of `gen_proof`, with a concrete counterexample.
- **`Slug`**: `slugify` stage by stage.
- **`SlugProofs`**: a reference definition of what `slugify` computes, and the lemmas tying it to the staged model.
  - The reference is "the maximal runs of letters and digits, lower-cased, joined by single dashes".
  - The lemmas: each stage keeps the runs, the letters and digits survive in order, the result is empty exactly when there are none, and `slugify` is idempotent.

### The flag convention of `gen_proof`

The field comment at `src/merkle.rs:30-31` and the verifier (lines 159-165) both read `sibling_is_left[k] == true` as "the sibling is the left operand". The worked example in the file header agrees.

`gen_proof` records `!is_right` (line 141), which is true when the current node is a LEFT child, so its sibling is on the right. Every flag it emits is therefore inverted (`MerkleProofs.AsWrittenNegatesDocumented`).

With a hash that depends on operand order, the proofs it emits can fail to verify against the tree's own root. For example, with leaves "00" and "01" the proof of leaf 0 fails (`MerkleFindings.AsWrittenRoundTripFails`). The repository's own round-trip expectations at lines 193-199 are exposed to the same failure. A step whose sibling is the node itself is unaffected, because combining a node with itself ignores the flag (`MerkleProofs.ClimbSelfSiblingFlip`). So the proof of a level-0 node that is its own sibling, such as the only leaf of a one-leaf tree, still verifies at that step (`MerkleProofs.SelfSiblingFlagInsensitive`).

The model keeps the as-written generator and adds `GenProofCorrected`, which records `is_right`. The inclusion round trip is proved for the corrected one.

### Other observations the proofs make precise

- The comment at line 97 says an odd non-root level "shouldn't happen". It does: six leaves give three parents, which are padded to four (`MerkleProofs.SixLeavesPadLevelOne`).
- The self-sibling fallback at lines 133-137 is dead code on every tree `new` builds (`MerkleProofs.FallbackUnreachable`).
- Flipping one flag of a verifying proof is caught unless the two operands at that step have commuting byte strings, or the hash collides (`MerkleProofs.FlagFlipEvidence`).
  - The exception is real: a duplicated last leaf is its own sibling, so its level-0 flag is not checked (`MerkleProofs.PaddedLeafFlagInsensitive`).

## Model

| member | source | states |
|---|---|---|
| Ascii.ToLower | src/commands/create.rs:23 | lower-cases exactly the upper-case ASCII letters (by 32 code points), leaves every other character unchanged, and preserves being a letter or digit |
| Hex.Decode | src/merkle.rs:53-56 | decoding succeeds exactly on even-length text of hex digits of either case, and then yields half as many bytes as there are digits |
| Hex.DecodeBytes | src/merkle.rs:53-56 | byte j of a decoding is 16 times the value of digit 2j plus the value of digit 2j+1 (high nibble first) |
| Hex.Encode | src/merkle.rs:58-64 | encoding emits two lower-case hex digits per byte |
| Hex.DecodeEncode | src/merkle.rs:58-64 | decoding an encoding gives back the bytes |
| Hex.EncodeDecode | src/merkle.rs:53-64 | encoding a decoding gives back the text folded to lower case |
| Hex.EncodeInjective | src/merkle.rs:58-64 | distinct byte strings have distinct encodings |
| Merkle.CombineHex | src/merkle.rs:43-64 | fails exactly when either operand is not valid hex; otherwise returns 64 lower-case hex digits that decode to the hash of the left bytes followed by the right bytes |
| Merkle.PairUp | src/merkle.rs:86-96 | the level above an even level has half as many nodes, node j combines children 2j and 2j+1, and every parent is 64-digit lower-case hex |
| Merkle.EvenLeavesPads | src/merkle.rs:77-80 | the leaf list is padded to even length by appending at most one node, a copy of the last leaf |
| Merkle.PadLevelPads | src/merkle.rs:98-101 | a padded level has one node or an even number; the unpadded level is kept as its prefix, and at most one node is appended, a copy of the last one, only when that level has more than one node |
| Merkle.NextLen | src/merkle.rs:97-101 | the next level has half the nodes of the current one, one more exactly when that half is odd and above one, so it is one or even; it is strictly shorter than any level of two or more nodes |
| Merkle.NextLevelLinked | src/merkle.rs:86-103 | one pass of the outer loop yields a level linked to the previous one (pairwise combines plus padding), valid hex, strictly shorter, and of length one or even: the loop invariant and its termination measure |
| Merkle.BuildUp | src/merkle.rs:82-103 | the outer loop, from a valid bottom level, produces well-formed levels with that bottom level |
| Merkle.Build | src/merkle.rs:69-106 | `new` always yields a well-formed tree; with no leaves it is the single node hex(h(empty)); otherwise level 0 is the leaves, with the last leaf repeated when their number is odd |
| Merkle.Walk | src/merkle.rs:126-145 | the loop of `gen_proof` runs once per level below the root |
| Merkle.WalkSteps | src/merkle.rs:126-145 | iteration k stands at the level-k ancestor of the start index, stays in bounds, and records that node's sibling or itself and whether it is a right child |
| Merkle.GenProof | src/merkle.rs:114-151 | `gen_proof` as written: no proof exactly when the tree is empty or the index is past level 0; otherwise one sibling per level below the root, with flag k true exactly when the level-k ancestor is a LEFT child |
| Merkle.GenProofCorrected | src/merkle.rs:114-151 | the same walk with the documented flag: flag k true exactly when the level-k ancestor is a right child, whose sibling is on the left |
| Merkle.Verify | src/merkle.rs:154-173 | a proof with at least one zipped entry verifies only a valid-hex leaf against a 64-digit lower-case root, so an upper-case expected root is always rejected; with nothing zipped the verdict is string equality of leaf and root |
| Merkle.Climb | src/merkle.rs:154-170 | after at least one zipped step the running digest is 64-digit lower-case hex, and a malformed starting digest makes the climb fail |
| MerkleProofs.RootIsDigest | src/merkle.rs:109-111 | `root` of every tree `new` builds from valid-hex leaves is 64 lower-case hex digits, empty tree included |
| MerkleProofs.EmptyTree | src/merkle.rs:70-74 | zero leaves give the one-level tree whose root is the hex of the hash of the empty input, 64 digits long |
| MerkleProofs.OddPadding | src/merkle.rs:76-80 | an odd leaf list builds the same tree as the list with its last leaf repeated |
| MerkleProofs.WellFormedLevels | src/merkle.rs:82-103 | every level of a built tree except the last is linked to the next one, and the last level is a single root |
| MerkleProofs.LevelsShape | src/merkle.rs:86-103 | every non-root level of a built tree is even and at least two long; the next level has the padded half length; each parent combines its two children |
| MerkleProofs.SixLeavesPadLevelOne | src/merkle.rs:97-101 | the padding branch commented as unreachable is taken: six leaves give levels of 6, 4, 2 and 1 nodes, and node 3 of level 1 repeats node 2 |
| MerkleProofs.NonHexLeafFailsCombine | src/merkle.rs:90-93 | a leaf that is not valid hex makes the combine of its pair in level 0 fail, which is where `expect` panics; hence the builder's valid-hex requirement is exact |
| MerkleProofs.AncestorIsDiv | src/merkle.rs:144 | after k halvings the index is the start index divided by 2^k |
| MerkleProofs.FallbackUnreachable | src/merkle.rs:132-137 | in a built tree every ancestor of a level-0 index and its sibling are in range, so `gen_proof` cannot panic and never uses the node itself as its sibling |
| MerkleProofs.GenProofOnWellFormed | src/merkle.rs:114-151 | on a built tree `gen_proof` returns a proof exactly for the padded level-0 indices; entry k holds the real sibling of the level-k ancestor and flags whether that ancestor is even |
| MerkleProofs.AsWrittenNegatesDocumented | src/merkle.rs:139-141 | the as-written proof has the same sibling digests as the documented one and every flag negated |
| MerkleProofs.VerifyEmptyProof | src/merkle.rs:158-172 | with nothing to zip, verification is string equality of leaf and expected root |
| MerkleProofs.ClimbIgnoresTail | src/merkle.rs:158 | the climb only uses as many entries as the shorter of the two proof arrays |
| MerkleProofs.VerifyIgnoresTail | src/merkle.rs:158 | verification ignores the surplus entries of the longer proof array |
| MerkleProofs.ClimbFailsOnMalformed | src/merkle.rs:159-169 | a malformed sibling digest among the zipped entries, or a malformed leaf, makes the climb fail |
| MerkleProofs.VerifyRejectsMalformed | src/merkle.rs:159-169 | such a proof or leaf is rejected (`return false`), without a panic |
| MerkleProofs.StepReachesParent | src/merkle.rs:159-165 | one step with the true sibling and the documented flag computes the parent stored in the level above |
| MerkleProofs.ClimbReachesRoot | src/merkle.rs:154-172 | climbing from any node of a built tree with its siblings and documented flags reaches the root |
| MerkleProofs.WellFormedRoundTrip | src/merkle.rs:193-199 | in a built tree every level-0 node verifies against the root with its documented-flag proof |
| MerkleProofs.InclusionRoundTrip | src/merkle.rs:193-199 | for any valid-hex leaves, every padded level-0 index has a proof, and the node there verifies against the tree's root |
| MerkleProofs.LeafInclusion | src/merkle.rs:193-199 | every original leaf verifies at its own index against the tree's root |
| MerkleProofs.ClimbCollision | src/merkle.rs:201-203 | two starting digests with different bytes that climb the same proof to the same result expose two distinct inputs with equal hashes |
| MerkleProofs.TamperEvidence | src/merkle.rs:201-203 | if one proof verifies two leaves with different bytes against the same root, the hash has a collision, which the lemma returns |
| MerkleProofs.ClimbFlipCollision | src/merkle.rs:159-165 | flipping flag k of a successful climb changes the result unless the operands at step k commute or the hash collides |
| MerkleProofs.FlagFlipEvidence | src/merkle.rs:159-165 | a proof still verifying after one flag is flipped means the two operands at that step commute or the hash has a collision |
| MerkleProofs.ClimbSelfSiblingFlip | src/merkle.rs:159-165 | a step whose sibling is the current node itself gives the same result whichever way the flag points |
| MerkleProofs.SelfSiblingFlagInsensitive | src/merkle.rs:76-80 | in a built tree a level-0 node equal to its sibling verifies with its proof both as is and with flag 0 flipped |
| MerkleProofs.PaddedLeafFlagInsensitive | src/merkle.rs:76-80 | with three leaves, the proof of the duplicated third leaf verifies whichever way its level-0 flag points |
| MerkleFindings.TwoLeafTree | src/merkle.rs:69-106 | two valid leaves build the tree of those two leaves under the combine of the pair |
| MerkleFindings.AsWrittenTwoLevels | src/merkle.rs:139-141 | in the two-leaf tree the as-written proof of leaf 0 is the right sibling flagged as left, and it verifies exactly when combining in either order agrees |
| MerkleFindings.AsWrittenTwoLeaves | src/merkle.rs:139-141 | for any two valid leaves, the as-written proof of leaf 0 verifies exactly when combining the leaves is symmetric |
| MerkleFindings.FirstByteCombineAsymmetric | src/merkle.rs:59-64 | under `FirstByteHash`, a legitimate 32-byte digest function whose every byte is the first input byte, combining "01","00" and "00","01" give different results |
| MerkleFindings.AsWrittenRoundTripFails | src/merkle.rs:141 | under `FirstByteHash`, the as-written proof of leaf "00" in the tree of "00","01" fails against the tree's root, while the corrected proof verifies |
| Slug.SlugChar | src/commands/create.rs:23-25 | each character becomes a slug character: its lower-case form when it is a letter or digit, '-' exactly when it is not |
| Slug.MapChars | src/commands/create.rs:22-26 | the mapped text has the input's length and only slug characters |
| Slug.ReplaceDoubleDash | src/commands/create.rs:29 | one `replace` never lengthens, strictly shortens any text containing "--", keeps the first character, and introduces no new character |
| Slug.Collapse | src/commands/create.rs:28-30 | the loop ends with no "--" left and no new character |
| Slug.TrimStart | src/commands/create.rs:31 | the result is a suffix, the removed prefix is all dashes, and the result does not start with '-' |
| Slug.TrimEnd | src/commands/create.rs:31 | the result is a prefix, the removed suffix is all dashes, and the result does not end with '-' |
| Slug.TrimDashes | src/commands/create.rs:31 | the text is some dashes, the result, and some more dashes, and the result neither starts nor ends with '-' |
| Slug.TrimKeepsProperties | src/commands/create.rs:31 | trimming keeps the slug alphabet and the absence of "--" |
| Slug.Slugify | src/commands/create.rs:21-32 | a slug has only lower-case letters, digits and '-', no "--", and no '-' at either end |
| SlugProofs.WordsReplaceDoubleDash | src/commands/create.rs:29 | one `replace("--", "-")` keeps the dash-separated runs |
| SlugProofs.WordsCollapse | src/commands/create.rs:28-30 | collapsing keeps the dash-separated runs |
| SlugProofs.WordsTrimDashes | src/commands/create.rs:31 | trimming keeps the dash-separated runs |
| SlugProofs.JoinWords | src/commands/create.rs:27-31 | a text without "--" and without a dash at either end is its runs joined by single dashes |
| SlugProofs.SlugifyIsJoinedRuns | src/commands/create.rs:21-32 | the slug is the maximal runs of letters and digits of the input, lower-cased, joined by single dashes |
| SlugProofs.SlugifyKeepsAlnumsInOrder | src/commands/create.rs:22-26 | deleting the dashes of the slug leaves exactly the input's letters and digits, lower-cased and in order |
| SlugProofs.SlugifyEmptyIff | src/commands/create.rs:21-32 | the slug is empty exactly when the input has no letter or digit |
| SlugProofs.SlugifyIdempotent | src/commands/create.rs:21-32 | a slug is ASCII and slugifying it changes nothing |

## Left out

- SHA-256 itself (`Sha256` from the `sha2` crate) is not part of this model. It is the parameter `h`, so nothing depends on its internals and no collision resistance is assumed.
- The `Display` implementation of `MerkleProof` (lines 34-41) only formats text.
- `MerkleTree::root` on a tree with no levels panics (`unwrap`, line 110). `Merkle.Root` instead requires a nonempty last level, which every built tree has.
- Merkle.Build: requires every leaf to be valid hex; on other input `new` panics at the `expect` of line 93, which the model does not represent (`MerkleProofs.NonHexLeafFailsCombine` shows where the panic happens).
- Merkle.GenProof: requires `CanGenProof`; on a hand-made `MerkleTree` whose levels are inconsistent, `nodes[index]` at line 136 can panic, which the model does not represent. Every built tree satisfies the requirement (`MerkleProofs.FallbackUnreachable`).
- Machine-width integers: `usize` indices and the byte arithmetic cannot overflow at these sizes, so indices are unbounded naturals.
- Slug.Slugify: requires ASCII input. Unicode `to_lowercase` (which can change the length of a string) and Unicode `is_alphanumeric` are not modelled.
- The rest of the tool is not modelled: the command handlers (`handle_*`), identity and commitment files, JSON serialisation, the CLI in `main.rs`, file and clock I/O.

## Findings

| source | as written | input that shows it | evidently intended | confidence | as-written member | corrected member |
|---|---|---|---|---|---|---|
| src/merkle.rs:141 | `sibling_is_left.push(!is_right)` records true when the current node is a left child, so the sibling is on the RIGHT | leaves "00", "01" and any hash that depends on operand order (`MerkleFindings.FirstByteHash`): the proof of leaf 0 makes `verify_proof` hash "01" before "00" where the root hashes "00" before "01" | `sibling_is_left.push(is_right)`, matching the field comment (lines 30-31), the verifier (lines 159-165) and the worked example in the file header | high, not executed | MerkleFindings.AsWrittenRoundTripFails | MerkleProofs.InclusionRoundTrip |
