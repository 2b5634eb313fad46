/** The prover's side of the channel as a program: each operation takes the prover's step. */
module ProverChannel {
  import opened Options
  import opened Bits
  import opened Bytes
  import opened MerkleTree
  import opened MerkleBranch
  import opened MerkleScheme
  import opened MerkleTape
  import opened MerkleChannel

  lemma LandingNonce<C>(suite: Suite<C>, c: C, bits: nat, nonce: nat)
    requires suite.CanGrind(c, bits) && suite.IsNonce(c, bits, nonce)
    ensures nonce == NonceFor(suite, c, bits)
  {
  }

  class Channel<!C> {
    const suite: Suite<C>
    var tape: ByteString
    var challenger: C
    ghost var commitments: seq<Committed>

    constructor (suite: Suite<C>, initial: C)
      ensures this.suite == suite && State() == Prover([], initial, [])
    {
      this.suite, tape, challenger, commitments := suite, [], initial, [];
    }

    ghost function State(): Prover<C>
      reads this
    {
      Prover(tape, challenger, commitments)
    }

    method WriteMessage(bs: ByteString)
      modifies this
      ensures State() == MerkleChannel.WriteMessage(suite, old(State()), bs)
    {
      tape := tape + bs;
      challenger := suite.Observe(challenger, bs);
    }

    /** Builds the tree over the data and sends its root. */
    method SendMerkleCommitment(data: ByteString, leafSize: nat) returns (tree: Tree<ByteString>)
      requires ProverValid(State()) && StrictLog2(leafSize).Some?
      requires leafSize * suite.scalarSize > 0 && |data| % (leafSize * suite.scalarSize) == 0
      requires StrictLog2(|data| / (leafSize * suite.scalarSize)).Some?
      modifies this
      ensures var c := Cut(suite, data, leafSize, tree.logLen);
              c.Valid() && Commits(suite.compress, c.LeafDigests(suite), tree)
      ensures State() == ProverStep(suite, old(State()), Commit(data, leafSize, tree.logLen)).0
    {
      hide Digest, Chunks;
      assert |data| / (leafSize * suite.scalarSize) == Pow2(StrictLog2(|data| / (leafSize * suite.scalarSize)).value);
      var r := New(suite.compress, suite.leafHash, data, leafSize * suite.scalarSize);
      tree := r.value;
      ghost var c := Cut(suite, data, leafSize, tree.logLen);
      RootDigest(suite.compress, c.LeafDigests(suite), tree);
      WriteMessage(MerkleBranch.Root(tree));
      commitments := commitments + [c];
    }

    /** Writes one leaf and its branch up to the layer. */
    method ProveOpening(tree: Tree<ByteString>, data: ByteString, leafBytes: nat, layerDepth: nat, index: nat)
      requires var c := Committed(data, tree.logLen, leafBytes);
               c.Valid() && Commits(suite.compress, c.LeafDigests(suite), tree)
      requires layerDepth <= tree.logLen && index < Pow2(tree.logLen)
      modifies this`tape
      ensures tape == old(tape) + OpeningBytes(suite, Committed(data, tree.logLen, leafBytes), layerDepth, index)
    {
      hide Digest, Layer, LayerOf, Branch, BranchOf, Flatten, Commits;
      ghost var c := Committed(data, tree.logLen, leafBytes);
      CommittedServes(tree, c, index, layerDepth);
      tape := tape + Chunks(data, leafBytes)[index];
      tape := tape + Flatten(Branch(tree, index, layerDepth).value);
    }

    /** Writes the optimal layer, then the leaf and branch of every queried index. */
    method SendOpenings(tree: Tree<ByteString>, data: ByteString, leafSize: nat, indices: seq<nat>, ghost which: nat)
      requires ProverValid(State()) && which < |commitments|
      requires commitments[which] == Cut(suite, data, leafSize, tree.logLen)
      requires Commits(suite.compress, commitments[which].LeafDigests(suite), tree)
      requires Below(indices, Pow2(tree.logLen))
      modifies this
      ensures State() == ProverStep(suite, old(State()), Open(which, indices)).0
    {
      hide ProverStep, Provable, Digest, Layer, Branch, LayerOf, Flatten, Commits, OptimalVerifyLayer, HonestLayer;
      hide OpeningsBytes, OpeningBytes, MultiOpenBytes, Chunks;
      ghost var c := commitments[which];
      var layerDepth := OptimalVerifyLayer(|indices|, tree.logLen);
      OpenStep(State(), which, indices);
      LayerServes(tree, c, layerDepth);
      tape := tape + Flatten(Layer(tree, layerDepth).value);
      ghost var start := tape;
      for i := 0 to |indices|
        invariant challenger == old(challenger) && commitments == old(commitments)
        invariant tape + OpeningsBytes(suite, c, layerDepth, indices[i..])
               == start + OpeningsBytes(suite, c, layerDepth, indices)
      {
        ghost var before := tape;
        OpeningsFirst(c, layerDepth, indices[i..]);
        assert indices[i..][0] == indices[i] && indices[i..][1..] == indices[i + 1..];
        ProveOpening(tree, data, leafSize * suite.scalarSize, layerDepth, indices[i]);
        Regroup(before, OpeningBytes(suite, c, layerDepth, indices[i]),
                OpeningsBytes(suite, c, layerDepth, indices[i + 1..]));
      }
      OpeningsNone(c, layerDepth, indices[|indices|..]);
      assert tape == start + OpeningsBytes(suite, c, layerDepth, indices);
      Regroup(old(tape), Flatten(HonestLayer(suite, c, layerDepth)), OpeningsBytes(suite, c, layerDepth, indices));
    }

    lemma OpenStep(p: Prover<C>, which: nat, indices: seq<nat>)
      requires ProverValid(p) && which < |p.commitments| && Below(indices, Pow2(p.commitments[which].depth))
      ensures var c := p.commitments[which];
              var layerDepth := OptimalVerifyLayer(|indices|, c.depth);
              && Provable(suite, p, Open(which, indices))
              && ProverStep(suite, p, Open(which, indices)).0
                 == p.(tape := p.tape + (Flatten(HonestLayer(suite, c, layerDepth))
                                    + OpeningsBytes(suite, c, layerDepth, indices)))
    {
    }

    lemma LayerServes(tree: Tree<ByteString>, c: Committed, layerDepth: nat)
      requires c.Valid() && c.depth == tree.logLen && Commits(suite.compress, c.LeafDigests(suite), tree)
      requires layerDepth <= tree.logLen
      ensures |tree.innerNodes| == Pow2(tree.logLen + 1) - 1
      ensures Layer(tree, layerDepth) == Ok(HonestLayer(suite, c, layerDepth))
    {
      CommittedServes(tree, c, 0, layerDepth);
    }

    lemma Regroup(a: ByteString, b: ByteString, c: ByteString)
      ensures (a + b) + c == a + (b + c)
    {
    }

    lemma OpeningsFirst(c: Committed, layerDepth: nat, indices: seq<nat>)
      requires c.Valid() && layerDepth <= c.depth && Below(indices, Pow2(c.depth)) && indices != []
      ensures OpeningsBytes(suite, c, layerDepth, indices)
           == OpeningBytes(suite, c, layerDepth, indices[0]) + OpeningsBytes(suite, c, layerDepth, indices[1..])
    {
    }

    lemma OpeningsNone(c: Committed, layerDepth: nat, indices: seq<nat>)
      requires c.Valid() && layerDepth <= c.depth && indices == []
      ensures OpeningsBytes(suite, c, layerDepth, indices) == []
    {
    }

    lemma CommittedServes(tree: Tree<ByteString>, c: Committed, index: nat, layerDepth: nat)
      requires c.Valid() && c.depth == tree.logLen && Commits(suite.compress, c.LeafDigests(suite), tree)
      requires layerDepth <= tree.logLen && index < Pow2(tree.logLen)
      ensures |tree.innerNodes| == Pow2(tree.logLen + 1) - 1
      ensures Layer(tree, layerDepth) == Ok(LayerOf(suite.compress, c.LeafDigests(suite), c.depth, layerDepth))
      ensures Branch(tree, index, layerDepth)
              == Ok(BranchOf(suite.compress, c.LeafDigests(suite), c.depth, index, layerDepth))
    {
      TreeServes(suite.compress, c.LeafDigests(suite), tree, index, layerDepth);
    }

    /** Opens the whole commitment by writing all that was committed. */
    method SendCommittedVector(data: ByteString, ghost which: nat)
      requires ProverValid(State()) && which < |commitments| && commitments[which].data == data
      modifies this
      ensures State() == ProverStep(suite, old(State()), SendVector(which)).0
    {
      tape := tape + data;
    }

    /** Tries nonces in order until one lands; zero difficulty writes nothing. */
    method Grind(bits: nat) returns (nonce: nat)
      requires ProverValid(State()) && Provable(suite, State(), Step.Grind(bits))
      modifies this
      ensures State() == ProverStep(suite, old(State()), Step.Grind(bits)).0
      ensures if bits == 0 then nonce == 0 else suite.IsNonce(old(challenger), bits, nonce)
    {
      if bits == 0 {
        return 0;
      }
      hide *;
      nonce := 0;
      ghost var found := NonceFor(suite, challenger, bits);
      while !suite.Lands(challenger, bits, nonce)
        invariant nonce <= found
        invariant forall m: nat :: m < nonce ==> !suite.Lands(challenger, bits, m)
        decreases found - nonce
      {
        nonce := nonce + 1;
      }
      LandingNonce(suite, challenger, bits, nonce);
      WriteMessage(LeBytes(nonce, 8));
      challenger := suite.SampleBits(challenger, bits).1;
    }
  }
}
