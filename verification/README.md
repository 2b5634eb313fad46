# Verified models of Binius64's index-heavy code

Dafny models of four groups of code in the Binius64 repository, each proved equal to the simple thing it
stands for. `dafny verify dfyconfig.toml` checks all of it.

* **Merkle trees and the two-party channel.** The flat-buffer tree, its fork/join build under every
  interleaving, layers and branches by bit arithmetic, the verifier's recomputations, and prover and
  verifier as two programs over one tape and one challenger. `MerkleTree`, `MerkleSchedule`,
  `MerkleBranch`, `MerkleScheme`, `MerkleTape`, `ProofLayout`, `MerkleConsistency`, `MerkleChannel`,
  `ProverChannel`, `VerifierChannel`.
* **Circuit gadgets over 64-bit words.** Each gadget is a method that computes its wires and the
  conjunction of the assertions it emits; it is proved satisfied if and only if a byte-level fact holds,
  for arrays of any length. `Bits`, `Carry`, `HalfwordAdder`, `Words`, `Comparison`, `Bytes`, `Shift`,
  `Multiplexer`, `Slice`, `FixedByteVec`, `Concat`, `ConcatHint`, `JwtClaims`, `Base64`, `Popcount`, `Ripemd`,
  `RipemdReference`, `Rs256`, `Rs256Verify`.
* **Bit-index algorithms on arrays.** The in-place butterfly transpose and the Method of Four Russians.
  `Transpose`, `LinearTransformation`.
* **Stateful buffers.** The recycling buffer pool with its allocator, the block-buffered hasher, the
  lane-parallel leaf hash and its ragged last batch. `BufferPool`, `BufferPoolProgram`, `HashBuffer`,
  `BlakeLanes`, `ParallelDigest`.

## How to read it

A word is a natural below 2^64 and bit operations are recursions on its lowest bit, so that every bit,
byte and lane fact is proved, not assumed. A boolean wire is a word whose top bit is set. `Lo(x, k)` is
`x mod 2^k`, `Hi(x, k)` is `x >> k`, `Up(x, k)` is `x << k` (`HiLoValue` and `UpValue` say so);
`Wrap(x, n)` is `x mod n` (`WrapIsRemainder`). Gates are
functions that compute what the gate's evaluation computes; `Carry` proves that the constraints of the
adder and subtractor gates have exactly that solution.

Compression, leaf hashing, the challenger's squeezing and the lane compression are function parameters.
Where the system allocator or the thread scheduler chooses, the choice is an input: the place of a new
block, how far a vector grows, the interleaving of forked halves, the order and worker of a batch.

Where two sides share a definition, as prover and verifier share the challenger, or a circuit and its
specification share a table, the shared definition is pinned down on its own, in plain arithmetic and byte
strings: `ObserveConcat`, `SampledBits`, `RunReplays` and `ProofLayout` for the tape, `OneBlockDigest` and
`LastBlock` for the lane hash, `RipemdReference` for RIPEMD-160, `CarryBit`, `BorrowBit` and `SarBit` for words.

Collision resistance is stated by extraction: an accepted opening equals the committed data unless
something the verifier hashed collides with a node or leaf of the tree (`MultiOpenBinding`,
`VectorBinding`). `AcceptedIsCommitted` and `VectorIsCommitted` turn this around: if nothing hashed in
building the tree and in reading the tape collides, what is accepted is what was committed.
`MerkleConsistency` needs no honest prover: for any root, all that one run of the verifier receives as one
leaf of one commitment, by openings or in vectors, is the same unless what it hashed collides
(`RunIsConsistent`). `RunIsCommitted` is the same for a commitment an honest prover made: what is received is
what was committed.

## Findings

Properties that fail in general, each with the exact condition under which they hold.

* `BufferPool`: the drop test (`crates/compute/src/buffer_pool.rs:220-227`) does not only pass blocks the
  pool handed out, as the comment at line 233 says. A vector that outgrew its block is reclaimed when its own
  storage happens to be 64-byte aligned and whole chunks, and then the layout it is rebuilt with is not the
  one it was allocated with. `RestoredIff`: over a whole run from the empty pool, every free block can at all
  times be rebuilt with its own layout if and only if no step drops a buffer that outgrew its block, holds
  elements aligned less than 64 bytes, and passes the test. `GrownBlockReclaimed` is a run that does: a
  `u64` buffer of eight, extended by 24. `RightIff` adds the layouts with which blocks go back to the
  allocator, from growth and from drops: all of them and all free ones are right throughout a run if and only
  if no step drops such a buffer and none grows elements aligned less than 64 bytes out of a block of the
  pool. `ServedIff`: a free block can ever be handed out again if and only if its key is a power of two.
* `Rs256`, quotients: the honest witness cuts each quotient to 32 limbs. It satisfies the circuit if and only
  if signature^2 < modulus * 2^2048 (`HonestIff`); signature < modulus suffices (`SignatureBelowModulus`);
  the modulus 1 and the signature 2^1024 fail (`HonestRejected`).
* `Rs256`, remainder: the circuit does not bound the last remainder by the modulus. When satisfied, the
  encoded message is congruent to signature^65537, and it is the residue if and only if it is below the
  modulus (`ChainIsPower`, `Rs256Verify.VerifySignature`). For every hash there is an accepted input on which
  it is not: the signature that is the encoded message E itself, under the modulus E - 1
  (`Rs256Verify.UnreducedAccepted`).
* `Rs256`, widths: all wires of a modulus vector count, though its length wire must say 256. The number they
  spell is the one the 256 content bytes spell if and only if the vector has 32 wires or they are all zero
  (`WidthIff`), and then the congruence holds modulo the contents. `WideModulusAccepted` is an accepted
  modulus on 33 wires modulo whose contents it does not. A signature vector wider than 32 wires is cut and
  its length wire is not looked at (`LengthsAccepted`, part of `Accepts`): `WideSignatureAccepted` has 33
  wires and says zero.
* `JwtClaims`: each attribute is promised to be checked against its string value
  (`crates/circuits/src/jwt_claims.rs:34`), but the scan stops at the first quote, escaped or not, and at a comma
  or a closing brace. The value found is the whole string if and only if no comma, no closing brace and no quote
  stands in its text (`EndsAtQuoteIff`); in `{"n":"a,b"}`, `{"n":"a}b"}` and `{"n":"a\"b"}` it is cut short
  (`CommaEndsValue`, `BraceEndsValue`, `QuoteEndsValue`). The name, too, is matched inside strings: in
  `{"a\"n":"x"}` a value is found for n (`QuoteInKeyFound`). What is found is the value of the member with that
  name if and only if the name is spelled as JSON spells strings, its occurrence opens a string, and the
  terminator is a quote that is not escaped (`FindsMemberIff`).
* `Slice`: the assertions do not bound the input length by the input array. When they hold, the wanted bytes
  are the input's if and only if the slice ends inside the array (`CopiesIff`); `SlicePastArray` is one word
  claimed to be sixteen bytes long, sliced at byte eight, which returns the word itself. `ReadsWord` names
  the input word behind every output word, wanted or not.
* `Multiplexer`, rotation: the documented `words[(shift + i) % n]` is what comes back if and only if nothing is
  asked for or the shift and its low ceil(log2 n) bits, which are all the code reads, agree modulo n
  (`AsDocumentedIff`). It holds for every 64-bit shift if and only if n is a power of two or needs all 64 bits
  (`AlwaysDocumentedIff`). Three words rotated by four start at word 0, not 1 (`RotatesOtherwise`).
* `Multiplexer`, selection: the input picked is the one the selector's low bits name if and only if they name
  one (`PicksNamedInput`); of three inputs, selector 3 picks the last (`PicksAnother`).
* `Base64`: the documentation announces a panic when the decoded length is not a multiple of three; the code
  has none, and the model follows the code.

## Model

| member | source | states |
|---|---|---|
| `MerkleTree.PosInjective` | crates/hash-prover/src/binary_merkle_tree.rs:246-255 | No two tree nodes share a slot of the flat buffer. |
| `MerkleTree.PosSurjective` | crates/hash-prover/src/binary_merkle_tree.rs:246-255 | Every slot of the flat buffer belongs to a tree node. |
| `MerkleTree.NodeOffset` | crates/hash-prover/src/binary_merkle_tree.rs:250-255 | The offset arithmetic lands on the slot of the node above the given leaf range. |
| `MerkleTree.SubtreeSplits` | crates/hash-prover/src/binary_merkle_tree.rs:282-306 | A subtree is its root and its two halves, and the halves share no node: the safety argument of the parallel writes. |
| `MerkleTree.FoldLayer` | crates/hash-prover/src/binary_merkle_tree.rs:264-277 | One level of a small subtree: each slot written once, from two written slots, with their compression, and nothing else touched. |
| `MerkleTree.FoldSmallSubtree` | crates/hash-prover/src/binary_merkle_tree.rs:262-279 | Starting from an untouched subtree, every inner node of it ends as its digest, no slot outside it changes, and the root is returned. |
| `MerkleTree.BuildNode` | crates/hash-prover/src/binary_merkle_tree.rs:287-306 | The same for a subtree of any size, past the cutoff; no slot is written twice or read before it is written. |
| `MerkleTree.JoinHalves` | crates/hash-prover/src/binary_merkle_tree.rs:292-306 | The two halves of the join may run in either order with the same result. |
| `MerkleSchedule.InterleavingIff` | crates/hash-prover/src/binary_merkle_tree.rs:282-306 | The interleavings of two orders are exactly the merges of them: every labelling of a sequence by side is one. |
| `MerkleSchedule.EveryMergeIsAnOrder` | crates/hash-prover/src/binary_merkle_tree.rs:287-306 | Above the cutoff every merge of orders of the two halves, then the root, is an order the task may take. |
| `MerkleSchedule.TaskWrites` | crates/hash-prover/src/binary_merkle_tree.rs:262-306 | In every interleaving of the forked tasks, a task writes exactly the inner nodes of its subtree. |
| `MerkleSchedule.TaskOrdered` | crates/hash-prover/src/binary_merkle_tree.rs:262-306 | In every interleaving, each write finds both children written and its own slot unwritten. |
| `MerkleSchedule.AnyInterleavingBuildsTree` | crates/hash-prover/src/binary_merkle_tree.rs:156-306 | Every interleaving writes each node of the tree exactly once and leaves every node holding its digest. |
| `MerkleSchedule.SequentialOrder` | crates/hash-prover/src/binary_merkle_tree.rs:282-306 | Such an order exists for every subtree. |
| `MerkleBranch.StrictLog2` | crates/hash-prover/src/binary_merkle_tree.rs:103-130 | Finds the exponent exactly when the leaf count is a power of two. |
| `MerkleBranch.FromLeaves` | crates/hash-prover/src/binary_merkle_tree.rs:156-232 | Every slot of the finished buffer holds the digest of its node over the hashed leaves, for every power-of-two leaf count including one. |
| `MerkleBranch.New` | crates/hash-prover/src/binary_merkle_tree.rs:103-134 | Which error is returned when, and otherwise a tree over the hashed batches. |
| `MerkleBranch.SiblingSlot` | crates/hash-prover/src/binary_merkle_tree.rs:341-363 | The xor and shift arithmetic of a branch lands on the sibling of the path's node at that height, inside the buffer. |
| `MerkleBranch.LayersFold` | crates/hash-prover/src/binary_merkle_tree.rs:323-336 | Every layer is the naive pairwise fold of the layer below, down to the leaves. |
| `MerkleBranch.RootDigest` | crates/hash-prover/src/binary_merkle_tree.rs:311-336 | The last slot is the root digest, and layer 0 is that one digest. |
| `MerkleBranch.TreeServes` | crates/hash-prover/src/binary_merkle_tree.rs:311-363 | Layer, branch and root read from the buffer are the ones defined on the leaves. |
| `MerkleBranch.ClimbStep` | crates/iop/src/merkle_tree/scheme.rs:249-263 | A path node and its sibling, ordered by the low index bit, compress to the next path node. |
| `MerkleBranch.BranchOpensLeaf` | crates/hash-prover/src/binary_merkle_tree.rs:338-363 | Folding leaf `index` with its branch along the bits of the index gives the entry `index >> (L - d)` of layer `d`, and at depth 0 the root. |
| `MerkleScheme.OptimalIsSmallest` | crates/iop/src/merkle_tree/scheme.rs:148-177 | No layer makes the proof smaller than the one chosen, and every higher layer makes it larger. |
| `MerkleScheme.FoldToRootInPlace` | crates/iop/src/merkle_tree/scheme.rs:67-106 | The buffer-reusing fold, overwriting digests in place, equals the layer-by-layer fold. |
| `MerkleScheme.FoldHonestLayer` | crates/iop/src/merkle_tree/scheme.rs:205-224 | Folding any layer of an honest tree gives its root. |
| `MerkleScheme.LayerBinding` | crates/iop/src/merkle_tree/scheme.rs:205-224 | A layer accepted against the root is the tree's layer, or folding it exhibits a collision. |
| `MerkleScheme.ClimbBinding` | crates/iop/src/merkle_tree/scheme.rs:226-274 | A digest that climbs to a tree node is the tree's node below it on the path, or the climb exhibits a collision. |
| `MerkleTape.ObserveConcat` | crates/transcript/src/fiat_shamir/buffer.rs:23-56 | The challenger absorbs every byte of a string, in order, however the string is cut. |
| `MerkleTape.SampleConcat` | crates/transcript/src/transcript.rs:153-163 | Sampling m + n bytes is sampling m, then n. |
| `MerkleTape.SampledBits` | crates/transcript/src/fiat_shamir/sampling.rs:34-47 | The sampled bits are the low min(bits, 32) bits of four sampled bytes, the first lowest. |
| `MerkleTape.LeBytesValue` | crates/transcript/src/transcript.rs:367-383 | The nonce's bytes, the lowest first, are the nonce cut to their number. |
| `ProofLayout.LeafStands` | crates/hash-prover/src/binary_merkle_tree.rs:103-134 | Leaf k is the k-th stretch of the committed data. |
| `ProofLayout.LeafValueStands` | crates/iop/src/merkle_channel.rs:220-253 | The values received are the leaves asked for, in the order of the list. |
| `ProofLayout.LeafOpens` | crates/iop-prover/src/merkle_tree/prover.rs:70-81 | How long an opening is, and that it starts with the leaf. |
| `ProofLayout.SiblingStands` | crates/iop-prover/src/merkle_tree/prover.rs:70-81 | Where in an opening the digest beside the path stands, at every height below the layer. |
| `ProofLayout.MultiOpenSize` | crates/iop/src/merkle_tree/scheme.rs:156-174 | A multi-opening takes up the leaves asked for and the digests counted by the scheme, for the layer chosen. |
| `ProofLayout.LayerEntryStands` | crates/iop-prover/src/merkle_channel.rs:233-264 | The layer comes first, its digests from left to right. |
| `ProofLayout.MultiOpenStands` | crates/iop-prover/src/merkle_channel.rs:233-264 | After it, at equal distances, the openings in the order asked for. |
| `MerkleTape.MultiOpenReadBack` | crates/iop/src/merkle_channel.rs:220-253 | Reading what the prover wrote for any index list succeeds, consumes exactly it, and yields the committed leaves. |
| `MerkleTape.VectorReadBack` | crates/iop/src/merkle_channel.rs:255-265 | The same for a whole committed vector. |
| `MerkleTape.MultiOpenBinding` | crates/iop/src/merkle_channel.rs:220-253 | On any tape whatever, an accepted multi-opening gives the committed leaves, or exhibits a collision. |
| `MerkleTape.VectorBinding` | crates/iop/src/merkle_channel.rs:255-265 | On any tape whatever, an accepted vector is the committed data, or exhibits a collision. |
| `MerkleTape.AcceptedIsCommitted` | crates/iop/src/merkle_channel.rs:220-253 | On any tape whatever, if no two of the pairs and leaves hashed in building the tree and in reading the openings collide, an accepted multi-opening gives the committed leaves. |
| `MerkleTape.VectorIsCommitted` | crates/iop/src/merkle_channel.rs:255-265 | The same for an accepted vector. |
| `MerkleTape.HonestHashesNothingNew` | crates/iop/src/merkle_tree/scheme.rs:205-274 | Reading an honest multi-opening hashes no pair and no leaf that building the tree did not, so that the hypothesis then asks nothing beyond the tree. |
| `MerkleConsistency.PathLeadsUp` | crates/iop/src/merkle_tree/scheme.rs:205-224 | An accepted layer contains, for each of its entries, a path of siblings to the root that hashes no pair the fold does not. |
| `MerkleConsistency.ClimbsAgree` | crates/iop/src/merkle_tree/scheme.rs:226-274 | Two climbs of one path to one digest start at one digest, or two hashed pairs collide. |
| `MerkleConsistency.MultiOpeningsAgree` | crates/iop/src/merkle_channel.rs:220-253 | For any root and any two tapes, accepted multi-openings, of any two index lists, agree on every index they share, or what the verifier hashed for the two collides. |
| `MerkleConsistency.VectorAgrees` | crates/iop/src/merkle_channel.rs:255-265 | For any root, an accepted vector agrees with any accepted opening of a leaf and, leaf by leaf, with any other accepted vector, or what was hashed for the two collides. |
| `MerkleConsistency.ReceivedIsClaimed` | crates/iop/src/merkle_channel.rs:220-265 | The bytes an accepted opening or vector step returns are exactly the leaves it claims, in order. |
| `MerkleConsistency.RunIsConsistent` | crates/iop/src/merkle_channel.rs:187-265 | In any finished run of the verifier, on any tape, all claims of one leaf of one commitment are equal, or what was hashed for two of them collides. |
| `MerkleConsistency.FreeRunIsConsistent` | crates/iop/src/merkle_channel.rs:187-265 | If nothing hashed for two claims of one leaf in a run collides, they hold the same bytes. |
| `MerkleConsistency.RunIsCommitted` | crates/iop/src/merkle_channel.rs:187-265 | In any finished run of the verifier, on any tape, every claim on a commitment an honest prover made names one of its leaves and holds the committed leaf, or what was hashed collides. |
| `MerkleChannel.StepExchanges` | crates/transcript/src/transcript.rs:300-388 | What each step feeds the challenger and draws from it, and its event: roots, messages, statements and nonces go in; layers, openings and vectors do not. |
| `MerkleChannel.RunReplays` | crates/transcript/src/transcript.rs:300-388 | After any script the challenger is what these exchanges, in order, make of it. |
| `MerkleChannel.StepAccepted` | crates/iop/src/merkle_channel.rs:187-265 | For every kind of step, the verifier accepts the prover's bytes, consumes exactly them, and both sides keep equal challengers and commitments. |
| `MerkleChannel.RunAccepted` | crates/iop/src/merkle_channel.rs:187-265 | The same over any script from any pair of states in step. |
| `MerkleChannel.ProofAccepted` | crates/iop-prover/src/merkle_channel.rs:187-277 | For any script of steps, the verifier accepts the finished proof, leaves nothing unread, draws the same challenges and receives the committed leaves. |
| `ProverChannel.Channel.SendMerkleCommitment` | crates/iop-prover/src/merkle_channel.rs:214-231 | Builds the tree and sends its root: exactly the model's commit step, with a tree that can open the commitment. |
| `ProverChannel.Channel.ProveOpening` | crates/iop-prover/src/merkle_tree/prover.rs:70-81 | Appends one leaf and its honest branch and nothing else. |
| `ProverChannel.Channel.SendOpenings` | crates/iop-prover/src/merkle_channel.rs:233-264 | Exactly the model's opening step for any index list: the optimal layer, then every leaf and branch; the challenger does not move. |
| `ProverChannel.Channel.SendCommittedVector` | crates/iop-prover/src/merkle_channel.rs:266-277 | Exactly the model's vector step. |
| `ProverChannel.Channel.Grind` | crates/transcript/src/transcript.rs:361-387 | Finds the first nonce that lands and takes the model's grind step; zero bits write nothing and move nothing. |
| `VerifierChannel.Channel.RecvMerkleCommitment` | crates/iop/src/merkle_channel.rs:208-218 | Exactly the model's commit step of the verifier. |
| `VerifierChannel.Channel.VerifyOpening` | crates/iop/src/merkle_tree/scheme.rs:226-274 | Reading siblings as it climbs agrees, acceptance, failure and tape position, with reading the whole branch first. |
| `VerifierChannel.Channel.RecvOpenings` | crates/iop/src/merkle_channel.rs:220-253 | Exactly the model's opening step: the same values, the same failure, the same rest of the tape. |
| `VerifierChannel.Channel.RecvCommittedVector` | crates/iop/src/merkle_channel.rs:255-265 | Exactly the model's vector step. |
| `VerifierChannel.Channel.VerifyGrind` | crates/transcript/src/transcript.rs:126-139 | Exactly the model's grind step, and on too little work tape and challenger still move as for a landing nonce. |
| `Carry.CarryWordIsRipple` | crates/core/src/word.rs:106-115 | At every bit position and any width, the closed-form carry word is the ripple adder's carry. |
| `Carry.BorrowWordIsRipple` | crates/core/src/word.rs:123-131 | At every bit position and any width, the closed-form borrow word is the ripple subtractor's borrow. |
| `Carry.TopCarry` | crates/core/src/word.rs:99-115 | The top carry is set exactly when the sum with carry-in overflows the width. |
| `Carry.TopBorrow` | crates/core/src/word.rs:117-131 | The top borrow is set exactly when lhs < rhs + bin. |
| `Carry.CarryWordUnique` | crates/frontend/src/gates/iadd_cin_cout.rs:44-61 | The carry constraint alone pins down the carry word. |
| `Carry.AdderGateIsAddition` | crates/frontend/src/gates/iadd_cin_cout.rs:44-61 | The adder gate's constraints have exactly one solution: the wrapped sum and its carry word. |
| `Carry.SubtractorGateIsSubtraction` | crates/frontend/src/gates/isub_bin_bout.rs:26-44 | The subtractor gate's constraints have exactly one solution: the wrapped difference and its borrow word. |
| `HalfwordAdder.HalvesAddIndependently` | crates/core/src/word.rs:68-90 | Each half's sum and every bit of its carry word are those of a 32-bit ripple adder with its own carry-in; nothing crosses between the halves. |
| `Words.IsubBinBout` | crates/core/src/word.rs:117-131 | With any borrow-in: the wrapped difference, and a borrow word whose top bit says lhs < rhs + bin. |
| `Words.CarryBit` | crates/core/src/word.rs:92-115 | Bit i of the carry word says whether the low i + 1 bits overflow. |
| `Words.BorrowBit` | crates/core/src/word.rs:117-131 | Bit i of the borrow word says whether the low i + 1 bits fall short, with any borrow-in. |
| `HalfwordAdder.Iadd32IsHalves` | crates/frontend/src/builder/mod.rs:1097-1106 | Without carries in, each half of the sum is the halves' sum modulo 2^32. |
| `Comparison.UltGateIsLess` | crates/frontend/src/gates/icmp_ult.rs:42-68 | The less-than gate's constraint has exactly one solution, the wire its evaluation computes, and that wire is true exactly when x < y. |
| `Comparison.EqGateIsEqual` | crates/frontend/src/gates/icmp_eq.rs:56-83 | The equality gate's constraint has exactly one solution, the wire its evaluation computes, and that wire is true exactly when x = y. |
| `Bytes.ExtractByteIsByte` | crates/frontend/src/builder/mod.rs:1682-1699 | The mask-and-shift gate reads the byte it names. |
| `Shift.SarBit` | crates/core/src/word.rs:144-147 | Bit i of an arithmetic shift is the bit n places above, or the top bit past it. |
| `Shift.StepStep` | crates/circuits/src/shift.rs:126-146 | Two constant shifts are one by the sum, in all three directions, saturation included. |
| `Shift.VarShiftBlocks` | crates/circuits/src/shift.rs:126-146 | The barrel of conditional shifts is one shift by the named number of blocks. |
| `Shift.VarSraBytes` | crates/circuits/src/shift.rs:122-124 | The arithmetic byte shift moves by the shift's low three bits of bytes and copies the top bit in. |
| `Multiplexer.MuxIndexInRange` | crates/circuits/src/multiplexer.rs:56-112 | A selector whose low bits name an input picks that input, for any number of inputs. |
| `Multiplexer.SingleWireMultiplex` | crates/circuits/src/multiplexer.rs:79-112 | Returns inputs[sel mod 2^b] when in range, at the cost of exactly N - 1 selects. |
| `Multiplexer.RotateLeftDynamic` | crates/circuits/src/multiplexer.rs:138-167 | Returns the first n_out words of the rotation by shift mod 2^ceil(log2 n), for every n, n_out <= n and 64-bit shift, despite the shrinking windows. |
| `Multiplexer.WrapWindow` | crates/circuits/src/multiplexer.rs:114-137 | Wrapping in a window is wrapping in the whole array whenever the window is wide enough or whole. |
| `Multiplexer.PicksNamedInput` | crates/circuits/src/multiplexer.rs:56-112 | The tree picks the input named by the selector's low bits if and only if they name one. |
| `Multiplexer.PicksAnother` | crates/circuits/src/multiplexer.rs:79-112 | Three inputs and selector 3: none is named, the last is picked. |
| `Multiplexer.AsDocumentedIff` | crates/circuits/src/multiplexer.rs:114-167 | Every position is the documented one if and only if none is asked for or shift = low bits of shift modulo n. |
| `Multiplexer.AlwaysDocumentedIff` | crates/circuits/src/multiplexer.rs:114-167 | All 64-bit shifts rotate as documented if and only if n is a power of two or needs 64 selector bits. |
| `Multiplexer.RotatesOtherwise` | crates/circuits/src/multiplexer.rs:114-167 | Three words, shift four: word 0 comes first, the documentation says word 1. |
| `Slice.AssertSliceEq` | crates/circuits/src/slice.rs:23-60 | Satisfied if and only if the first min(len, 8n) bytes agree, for any 64-bit length wire. |
| `Slice.Slice` | crates/circuits/src/slice.rs:95-162 | Satisfied if and only if the slice fits the claimed length and the output; then, for a claimed length inside the array, the output's wanted bytes are that stretch of the claimed bytes; every output word is the splice of two named input words, window and wrap-around included; satisfied, output byte p is input byte offset + p for every wanted byte inside the array, and for all wanted bytes if and only if the slice ends inside it. |
| `Slice.CopiesIff` | crates/circuits/src/slice.rs:103-162 | The wanted bytes are the input's if and only if nothing is wanted or offset + len_slice <= 8 * input.len(). |
| `Slice.SlicePastArray` | crates/circuits/src/slice.rs:103-162 | An input on which the assertions hold and no wanted byte is the input's. |
| `FixedByteVec.ExtractedByte` | crates/circuits/src/fixed_byte_vec.rs:273-324 | Byte p of a constant-range extraction is byte start + p of the data, across word boundaries. |
| `FixedByteVec.SliceConstRange` | crates/circuits/src/fixed_byte_vec.rs:228-256 | The emitted check holds exactly when the length reaches the end of the range, including where it is elided. |
| `FixedByteVec.SlicedContents` | crates/circuits/src/fixed_byte_vec.rs:228-256 | When the check holds, the slice's contents are that range of the vector's. |
| `Concat.AssertConstSliceEq` | crates/circuits/src/concat.rs:163-189 | Satisfied if and only if the region's first len bytes agree; the partial word ignores what comes after. |
| `Concat.AssertRegionEq` | crates/circuits/src/concat.rs:105-150 | A term at a constant offset with a run-time length: satisfied if and only if its bytes stand there. |
| `Concat.AssertDynamicEq` | crates/circuits/src/concat.rs:105-150 | A term at a run-time offset: satisfied if and only if its bytes stand there. |
| `Concat.Concat` | crates/circuits/src/concat.rs:82-154 | For any terms with lengths in range and any proposed output: satisfied if and only if the first sum(len) bytes are the terms' contents joined, whichever branch each term takes. |
| `ConcatHint.Execute` | crates/circuits/src/concat.rs:32-58 | The hint's outputs are the inputs' capped byte prefixes joined, packed little-endian and zero-padded. |
| `ConcatHint.ProposesJoined` | crates/circuits/src/concat.rs:32-104 | On in-range lengths the hint proposes exactly the joined contents. |
| `ConcatHint.ConcatWithHint` | crates/circuits/src/concat.rs:82-154 | Completeness: the hint's output always satisfies the constraints. |
| `JwtClaims.FindValueStart` | crates/circuits/src/jwt_claims.rs:84-126 | Finds the end of the last in-bounds occurrence of the pattern, or none. |
| `JwtClaims.FindTerminator` | crates/circuits/src/jwt_claims.rs:128-168 | Finds the first quote, comma or brace at or after the start, inside the length. |
| `JwtClaims.SpanUnique` | crates/circuits/src/jwt_claims.rs:68-197 | There is at most one value span. |
| `JwtClaims.LastMemberFound` | crates/circuits/src/jwt_claims.rs:84-126 | Of two members of one name the last is found. |
| `JwtClaims.ClaimsIff` | crates/circuits/src/jwt_claims.rs:170-197 | Given the span, the claim is that the length wire is the span's length, the value wires can hold it, and start with its text. |
| `JwtClaims.EndsAtQuoteIff` | crates/circuits/src/jwt_claims.rs:31-61 | The span ends at the string's closing quote, its first quote that is not escaped, if and only if no comma, no closing brace and no quote stands in the string's text. |
| `JwtClaims.CommaEndsValue` | crates/circuits/src/jwt_claims.rs:128-168 | An object whose member has the value a,b and whose span is a. |
| `JwtClaims.BraceEndsValue` | crates/circuits/src/jwt_claims.rs:128-168 | The same with a closing brace. |
| `JwtClaims.QuoteEndsValue` | crates/circuits/src/jwt_claims.rs:128-168 | An object without comma or brace in the string whose span ends at an escaped quote. |
| `JwtClaims.FindsMemberIff` | crates/circuits/src/jwt_claims.rs:31-168 | The span is the value of a member with the attribute's name if and only if the name is spelled as strings are, its occurrence opens a string of the JSON, and the terminator is a quote that is not escaped. |
| `JwtClaims.MemberIsScanned` | crates/circuits/src/jwt_claims.rs:31-42 | Read from its first byte, the JSON enters a string where such a member's value starts, is in it up to the closing quote, and leaves it there. |
| `JwtClaims.QuoteInKeyFound` | crates/circuits/src/jwt_claims.rs:84-126 | An object without a member of the attribute's name in which a span is found. |
| `JwtClaims.CheckAttribute` | crates/circuits/src/jwt_claims.rs:80-197 | Satisfied if and only if the JSON gives the attribute exactly the claimed value and length. |
| `JwtClaims.New` | crates/circuits/src/jwt_claims.rs:62-204 | Satisfied if and only if the length fits the array and 32 bits and every attribute's claim holds. |
| `Base64.AlphabetChars` | crates/circuits/src/base64.rs:277-304 | The alphabet, as characters. |
| `Base64.DecodeEncode` | crates/circuits/src/base64.rs:10-39 | The reference text of section 5 of RFC 4648, unpadded, decodes to its input. |
| `Base64.EncodedChar` | crates/circuits/src/base64.rs:131-187 | The text character by character: which six bits, and how many characters a partial group has. |
| `Base64.SixBitValues` | crates/circuits/src/base64.rs:210-229 | The shift-and-mask extractors give the four six-bit values of a group. |
| `Base64.ExpectedCharIsAlphabet` | crates/circuits/src/base64.rs:277-304 | The range checks and additions spell the URL-safe alphabet for every six-bit value. |
| `Base64.VerifyGroup` | crates/circuits/src/base64.rs:141-187 | One group's assertions hold exactly when no byte lies past the length and its four characters are the demanded ones. |
| `Base64.GroupsAreText` | crates/circuits/src/base64.rs:61-187 | All groups hold exactly when the decoded array is zero past the length and the encoded array is the text followed by zeros. |
| `Base64.New` | crates/circuits/src/base64.rs:61-83 | Satisfied if and only if len fits, decoded bytes past it are zero, and encoded is the unpadded base64url text of the first len bytes, then zeros. |
| `Base64.EncodedDetermines` | crates/circuits/src/base64.rs:61-187 | The encoded array of a satisfied circuit determines length and decoded array. |
| `Popcount.Popcount` | crates/circuits/src/popcount.rs:48-106 | Returns the number of ones of every word. |
| `Popcount.OnesIsCardinality` | crates/circuits/src/popcount.rs:34-47 | That number is the cardinality of the set of one positions. |
| `Popcount.SubtractStep` | crates/circuits/src/popcount.rs:60-65 | The subtraction leaves every 2-bit lane its own count and borrows across none, for any number of lanes. |
| `Popcount.MaskThenAdd` | crates/circuits/src/popcount.rs:67-77 | Masking then adding leaves every doubled lane its own count. |
| `Popcount.AddThenMask` | crates/circuits/src/popcount.rs:79-100 | Adding then masking does so too from 4-bit lanes on. |
| `Popcount.SumFits` | crates/circuits/src/popcount.rs:79-104 | The unmasked sum never carries out of the top lane. |
| `Popcount.LaneCount` | crates/circuits/src/popcount.rs:48-106 | Lane k of the counts holds the number of ones of lane k of the input. |
| `Popcount.ClearHighBitsKeepsLow` | crates/circuits/src/util.rs:25-27 | The pair of shifts keeps exactly the low 64 - n bits. |
| `Ripemd.LowSelect` | crates/circuits/src/ripemd.rs:168-191 | The gate forms of the five selection functions are their definitions on the low halves, whatever the upper halves hold. |
| `Ripemd.LowRotl` | crates/circuits/src/ripemd.rs:218-225 | The half-wise rotation rotates the low half, whatever the upper half holds. |
| `Ripemd.LowRound` | crates/circuits/src/ripemd.rs:195-225 | A round on dirty wires is the hash function's round on their low halves. |
| `Ripemd.Compress` | crates/circuits/src/ripemd.rs:29-166 | Eighty rounds of both lines give the 32-bit compression function of the low halves, with clean upper halves. |
| `Ripemd.Pad` | crates/circuits/src/ripemd.rs:284-333 | A whole number of 16-word blocks; message, delimiter, zeros and length each on their wires. |
| `Ripemd.PaddedWireByte` | crates/circuits/src/ripemd.rs:284-333 | Every byte of every padded wire is that byte of the padding of sections 3.1 and 3.2 of RFC 1320, whatever the message wires hold above or past it. |
| `Ripemd.Ripemd160Fixed` | crates/circuits/src/ripemd.rs:260-358 | The circuit computes RIPEMD-160 of the message's bytes, for any length below 2^29 bytes and any dirty wires, with clean outputs. |
| `RipemdReference.Schedule` | crates/circuits/src/ripemd.rs:92-132 | Which selection function each of the eighty rounds of either line takes, by truth table on every bit. |
| `RipemdReference.RolIsRotation` | crates/circuits/src/ripemd.rs:218-225 | Rotation in arithmetic: the low bits move up, the high ones come down. |
| `RipemdReference.RotatesBothHalves` | crates/circuits/src/ripemd.rs:218-225 | The gate rotates each half of a word on its own. |
| `RipemdReference.RoundIs` | crates/circuits/src/ripemd.rs:195-225 | One round in sums modulo 2^32. |
| `RipemdReference.BlockIs` | crates/circuits/src/ripemd.rs:157-166 | The end of a block: which three variables each of the five sums adds. |
| `RipemdReference.InitialBytes` | crates/circuits/src/ripemd.rs:260-270 | The first state, byte by byte. |
| `RipemdReference.TableEntries` | crates/circuits/src/ripemd.rs:40-76 | Every entry of the tables: the word orders follow one permutation from their first rows, and a rotation depends on the word and the group of rounds alone, on both lines. |
| `RipemdReference.Roots` | crates/circuits/src/ripemd.rs:34-39 | The added constants are 2^30 times the square roots, and the cube roots, of 2, 3, 5 and 7. |
| `RipemdReference.PaddingIs` | crates/circuits/src/ripemd.rs:284-333 | The padding as one string: message, 0x80, zeros, and the length in bits, the lowest byte first. |
| `Rs256.ModexpVerify` | crates/circuits/src/rs256.rs:249-282 | Satisfied if and only if all seventeen reductions hold. |
| `Rs256.ChainIsPower` | crates/circuits/src/rs256.rs:248-282 | Whatever the witness, satisfied reductions make the last remainder congruent to base^65537 modulo m, and for m > 0 equal to the residue if and only if it is below m. |
| `Rs256.UnreducedChain` | crates/circuits/src/rs256.rs:249-282 | The reductions alone, for signature 2 and modulus 3, accept the last remainder 8. |
| `Rs256.PopulateWitness` | crates/circuits/src/rs256.rs:323-363 | The witness holds the honest quotients and remainders, each modulo 2^2048. |
| `Rs256.HonestIff` | crates/circuits/src/rs256.rs:249-363 | The honest witness satisfies the circuit if and only if base^2 < m * 2^2048. |
| `Rs256.HonestRejected` | crates/circuits/src/rs256.rs:323-363 | For modulus 1 and signature 2^1024, of 256 bytes each, the honest witness does not satisfy the circuit. |
| `Rs256.SignatureBelowModulus` | crates/circuits/src/rs256.rs:249-363 | For signature < modulus it always does, and the last remainder is signature^65537 mod modulus. |
| `Rs256.SwappedByte` | crates/circuits/src/bytes.rs:38-123 | The mask-and-shift byte swap reverses the eight bytes of a word. |
| `Rs256.ToBigUintIsBigEndian` | crates/circuits/src/rs256.rs:13-27 | The limbs hold the big-endian integer of the bytes on the wires, for any number of wires. |
| `Rs256.PrefixIsEncoding` | crates/circuits/src/rs256.rs:122-184 | The prefix limbs and hash wires spell the encoded message of section 9.2 of RFC 8017 with the SHA-256 identifier. |
| `Rs256Verify.VerifySignature` | crates/circuits/src/rs256.rs:72-192 | What exactly the checks demand of lengths, chain and remainder, given the hash wires; satisfied, the modulus length, and on 32 wires the signature's, is 256, the encoded message of the hash is congruent to signature^65537 modulo the number on the modulus wires, for a positive one it is the residue if and only if it is below it, and the congruence is modulo the contents whenever the vector has 32 wires or all are zero. |
| `Rs256Verify.HonestAccepted` | crates/circuits/src/rs256.rs:72-363 | Completeness: for signature < modulus < 2^2048, all checks accept the honest witness if and only if the lengths are accepted and the encoded message is signature^65537 mod modulus. |
| `Rs256Verify.WidthIff` | crates/circuits/src/rs256.rs:13-99 | The number taken from a vector's wires is the one its 256 content bytes spell if and only if it has 32 wires or they are all zero. |
| `Rs256Verify.UnreducedAccepted` | crates/circuits/src/rs256.rs:72-192 | For every hash, a 256-byte signature and modulus that all checks accept although the encoded message is not signature^65537 mod modulus. |
| `Rs256Verify.WideSignatureAccepted` | crates/circuits/src/rs256.rs:88-97 | For every hash, an accepted signature vector of 33 wires whose length wire is zero. |
| `Rs256Verify.WideModulusAccepted` | crates/circuits/src/rs256.rs:98-192 | For every hash that ends in even words, the last not zero, an accepted modulus vector of 33 wires modulo whose contents the encoded message is not congruent to the signature's power. |
| `Transpose.Interleave` | crates/field/src/packed.rs:105-120 | Where each lane of the two results comes from. |
| `Transpose.Round` | crates/field/src/transpose.rs:38-57 | One round exchanges one bit of the element index with one bit of the lane index for every scalar, in place. |
| `Transpose.OriginIsTransposed` | crates/field/src/transpose.rs:28-58 | All the rounds together read from the transposed place. |
| `Transpose.TransposeSquareBlocks` | crates/field/src/transpose.rs:28-58 | In place, for any log_n, array length and lane width, every scalar ends at its transposed place. |
| `Transpose.TransposedByParts` | crates/field/src/transpose.rs:10-28 | In rows and columns: element (r, w), lane i * 2^n + j moves to element (j, w), lane i * 2^n + r. |
| `Transpose.TransposedScalars` | crates/field/src/transpose.rs:10-28 | What the transposition promises, in the array's own indices: element j * 2^w + c, lane i * 2^n + r holds what stood in element r * 2^w + c, lane i * 2^n + j. |
| `Transpose.TransposedTwice` | crates/field/src/transpose.rs:28-58 | Transposing twice is the identity. |
| `LinearTransformation.ExpandSubset` | crates/field/src/util.rs:127-165 | Doubling in place fills entry `mask` with the combination of exactly the elements whose bit is set, for any operation. |
| `LinearTransformation.UpperEntry` | crates/field/src/util.rs:156-163 | One doubling: an upper entry is its lower twin combined with the next element. |
| `LinearTransformation.CombinedSplit` | crates/field/src/linear_transformation.rs:41-50 | A combination splits into the chunks' combinations selected by the corresponding bits. |
| `LinearTransformation.New` | crates/field/src/linear_transformation.rs:33-53 | Filling each eight columns' table by the doubling loop gives the tables of all their subset combinations. |
| `LinearTransformation.TransformIsProduct` | crates/field/src/linear_transformation.rs:65-79 | The bytewise lookup is the exclusive or of the columns selected by the input's bits, for any columns and width. |
| `LinearTransformation.TransformIsLinear` | crates/field/src/linear_transformation.rs:59-79 | It is linear, maps zero to zero and the unit vectors to the columns. |
| `BufferPool.HandedOut` | crates/compute/src/buffer_pool.rs:75-117 | A buffer comes empty, with room for the request, on an aligned block of a power of two bytes, less than twice the request unless one chunk. |
| `BufferPool.ApartIff` | crates/compute/src/buffer_pool.rs:68-126 | Blocks are kept apart exactly in that no byte belongs to two of them. |
| `BufferPool.StepContents` | crates/compute/src/buffer_pool.rs:75-242 | What each step does to the contents of its buffer, and that it changes no other. |
| `BufferPool.StepKeeps` | crates/compute/src/buffer_pool.rs:68-242 | Every step keeps the invariant: one owner a block, nothing leaked, blocks apart, keys exact, contents within capacity. |
| `BufferPool.PoolIsSound` | crates/compute/src/buffer_pool.rs:68-242 | In every run, a free block has exactly its key's chunks and is aligned, no two owners share a byte, and every allocated block has an owner. |
| `BufferPool.CloneIsAllocThenExtend` | crates/compute/src/buffer_pool.rs:199-209 | A clone is an allocation of the length and an extension that never outgrows it. |
| `BufferPool.DropThenAlloc` | crates/compute/src/buffer_pool.rs:75-126 | A dropped block is the one the next request of its byte size gets, whatever the element type, and the rest of the free list is as before. |
| `BufferPool.LayoutsKeptIff` | crates/compute/src/buffer_pool.rs:211-242 | One step: every free block stays rebuildable with its own layout if and only if the step does not drop an outgrown buffer of elements aligned less than 64 bytes that passes the test. |
| `BufferPool.AlignmentsKept` | crates/compute/src/buffer_pool.rs:75-209 | While free layouts are restorable, a buffer in use has its element's alignment if it outgrew its block since it was handed out, and 64 otherwise. |
| `BufferPool.RestoredIff` | crates/compute/src/buffer_pool.rs:68-242 | The same equivalence over every run from the empty pool, at all of its prefixes. |
| `BufferPool.RightIff` | crates/compute/src/buffer_pool.rs:68-242 | The same for every layout under which a block is or may be given back, growth and drops to the allocator included: all are right throughout a run if and only if, beside such a drop, no step grows small-aligned elements out of a pool block. |
| `BufferPool.RunInside` | crates/compute/src/buffer_pool.rs:187-242 | If no vector outgrows its block, every block of the run has the pool's alignment and a power of two bytes. |
| `BufferPool.GrownBlockReclaimed` | crates/compute/src/buffer_pool.rs:211-242 | A run in which a vector of capacity 8, extended by 24 elements, is reclaimed with its own storage. |
| `BufferPool.OddKeysStay` | crates/compute/src/buffer_pool.rs:86-101 | Over every run that follows, a block under a key that is no power of two stays where it is on the free list, and no buffer in use has it. |
| `BufferPool.ServedIff` | crates/compute/src/buffer_pool.rs:86-126 | Some run that follows hands a free block out again if and only if its key is a power of two. |
| `BufferPoolProgram.Pool.AllocData` | crates/compute/src/buffer_pool.rs:75-117 | The method's whole new state is the model's allocation step. |
| `BufferPoolProgram.PoolVec.ExtendFromSlice` | crates/compute/src/buffer_pool.rs:187-196 | The model's extension step, contents appended, growth or not. |
| `BufferPoolProgram.PoolVec.Clone` | crates/compute/src/buffer_pool.rs:199-209 | The model's clone step: equal contents, original untouched. |
| `BufferPoolProgram.PoolVec.Drop` | crates/compute/src/buffer_pool.rs:211-242 | The model's drop step, on every early return and on reclaim. |
| `HashBuffer.HashBuffer.AdvanceMut` | crates/hash/src/serialization.rs:48-57 | Contents grow by exactly the next bytes of the block, read around its end for any count, and the index stays below the block size. |
| `HashBuffer.HashBuffer.PutSlice` | crates/hash/src/serialization.rs:41-63 | A write of any length appends exactly its bytes. |
| `HashBuffer.Absorb` | crates/hash/src/serialization.rs:24-69 | However a stream is split into writes, by drop the digest has absorbed exactly the concatenation. |
| `HashBuffer.HashSerialize` | crates/hash/src/serialization.rs:72-87 | The result is the hash of the items' concatenated bytes. |
| `BlakeLanes.OneBlockDigest` | crates/hash-prover/src/blake3/portable.rs:285-305 | A message of at most 64 bytes: filled up with zeros and compressed once, with its length and flags 11. |
| `BlakeLanes.FirstBlock` | crates/hash-prover/src/blake3/portable.rs:269-280 | The first block of a longer message has length 64 and flag 1. |
| `BlakeLanes.MiddleBlock` | crates/hash-prover/src/blake3/portable.rs:269-280 | Every further whole block but the last has length 64 and no flag. |
| `BlakeLanes.LastBlock` | crates/hash-prover/src/blake3/portable.rs:285-305 | The last block of a longer message is filled up with zeros and has its own length and flags 10. |
| `BlakeLanes.CompressStep` | crates/hash-prover/src/blake3/portable.rs:269-280 | Compressing a full buffer keeps what the lane has absorbed. |
| `BlakeLanes.RootStep` | crates/hash-prover/src/blake3/portable.rs:285-305 | Compressing the padded last block with the root flags gives the message's digest, empty message included. |
| `BlakeLanes.Lanes.Update` | crates/hash-prover/src/blake3/portable.rs:315-342 | Every lane whose input is as long as the longest absorbs exactly its own, whatever the other lanes hold. |
| `BlakeLanes.Lanes.WriteRoot` | crates/hash-prover/src/blake3/portable.rs:285-305 | Each such lane yields the digest of its stream. |
| `BlakeLanes.Lanes.FinalizeReset` | crates/hash-prover/src/blake3/portable.rs:348-359 | The same digests, and every lane has then absorbed nothing, whatever bytes its block still holds. |
| `ParallelDigest.DigestBatch` | crates/hash-prover/src/parallel_digest.rs:137-150 | Every leaf as long as the longest lane, stale lanes of a ragged batch included, gets its own digest. |
| `ParallelDigest.MultiDigest` | crates/hash-prover/src/parallel_digest.rs:131-165 | For leaves of any lengths, any batch order and any assignment of batches to workers, out[i] is the digest of leaf i for every leaf as long as the longest lane of its batch; if all leaves have one length, for every leaf. |
| `ParallelDigest.LongEnoughIf` | crates/hash-prover/src/parallel_digest.rs:137-150 | It is enough that the leaves of one batch have one length and no lane left stale is longer. |
| `ParallelDigest.DigestAdapter` | crates/hash-prover/src/parallel_digest.rs:190-207 | On one recycled hasher, in any order, out[i] is the hash of leaf i. |

## Left out

- Machine limits: sizes, offsets and lengths do not overflow `usize`; running out of memory, and the unsafe
  memory operations themselves, are not modelled.
- Constant folding, gate fusion and constraint lowering of the circuit builder: gates are the word functions
  their evaluation computes.
- `Concat.Concat`: assumes each length wire lies in its recorded range, which the code leaves to whoever
  builds the vector, and the size checks that the code makes by panicking.
- `Multiplexer.SingleWireMultiplex`: an empty input list, on which the code returns a constant, gives the default
  argument; `multi_wire_multiplex` applies the single-wire tree to each column and is not repeated.
- `Rs256.ModexpVerify`: reductions are taken at the contract of `ModReduce` (dividend = quotient * modulus +
  remainder) on integers; bignum multiplication, addition with carries and the SHA-256 circuit are not part
  of this model.
- `Rs256Verify.VerifySignature`: the four hash wires are given; the SHA-256 circuit that computes them from the
  message is not part of this model.
- `MerkleChannel.ProofAccepted`: the challenger absorbs and squeezes byte by byte; how the hash challenger
  switches between its two modes inside is not modelled. Field elements are byte strings of one fixed size.
- `ParallelDigest.MultiDigest`: a batch runs to its end before another one touches the same worker's buffers,
  as the thread pool guarantees; the bound of one chunk on a leaf, which the lane hash documents, is not modelled.
- `BlakeLanes.Lanes.Update`: the seven-round block function is a parameter applied lane by lane; its vector
  kernels are not modelled.
- `Transpose.TransposeSquareBlocks`: the fixed-size variant performs the same rounds over an array of known
  length and is not repeated.
- `LinearTransformation.ExpandSubset`: one generic method stands for the sum, product and exclusive-or
  expansions, which differ in the operation and its unit.
- `BufferPool.HandedOut`: element types are a size and an alignment; destructors and uninitialised spare
  capacity are not modelled.
- JWT signatures, SHA-512, HMAC, sumcheck, the polynomial commitment layers, field arithmetic and the
  floating-point soundness calculator.
