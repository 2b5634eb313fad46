/** Where everything stands in what the prover writes to open a commitment, byte by byte, and how much
    that is. */
module ProofLayout {
  import opened Bits
  import opened Bytes
  import opened MerkleTree
  import opened MerkleBranch
  import opened MerkleScheme
  import opened MerkleTape

  /** Where item `k` of several of one size starts. */
  function Offset(k: nat, size: nat): nat {
    MulSign(size, k);
    k * size
  }

  /** `item` stands in `s` from place `from` on. */
  predicate StandsAt<F(==)>(s: seq<F>, from: nat, item: seq<F>) {
    from + |item| <= |s| && s[from..from + |item|] == item
  }

  lemma StandsLater<F>(before: seq<F>, s: seq<F>, from: nat, item: seq<F>)
    requires StandsAt(s, from, item)
    ensures StandsAt(before + s, |before| + from, item)
  {
    assert (before + s)[|before| + from..|before| + from + |item|] == s[from..from + |item|];
  }

  lemma StandsBefore<F>(s: seq<F>, after: seq<F>, from: nat, item: seq<F>)
    requires StandsAt(s, from, item)
    ensures StandsAt(s + after, from, item)
  {
    assert (s + after)[from..from + |item|] == s[from..from + |item|];
  }

  lemma StandsFirst<F>(s: seq<F>, after: seq<F>)
    ensures StandsAt(s + after, 0, s)
  {
  }

  /** Items of one size, one after the other. */
  lemma {:induction false} FlattenAt<F>(cs: seq<seq<F>>, size: nat, k: nat)
    requires k < |cs| && forall c :: c in cs ==> |c| == size
    ensures StandsAt(Flatten(cs), Offset(k, size), cs[k])
  {
    hide StandsAt, Offset;
    NoneYet(size);
    if k == 0 {
      StandsFirst(cs[0], Flatten(cs[1..]));
    } else {
      FlattenAt(cs[1..], size, k - 1);
      StandsLater(cs[0], Flatten(cs[1..]), Offset(k - 1, size), cs[k]);
      OneMore(k, size);
    }
  }

  lemma NoneYet(size: nat)
    ensures Offset(0, size) == 0
  {
  }

  lemma OneMore(k: nat, size: nat)
    requires k > 0
    ensures Offset(k, size) == size + Offset(k - 1, size)
  {
  }

  lemma {:induction false} FlattenLength<F>(cs: seq<seq<F>>, size: nat)
    requires forall c :: c in cs ==> |c| == size
    ensures |Flatten(cs)| == Offset(|cs|, size)
  {
    hide Offset;
    NoneYet(size);
    if cs != [] {
      FlattenLength(cs[1..], size);
      OneMore(|cs|, size);
    }
  }

  // ---- Leaves. ----

  /** Leaf `index` is its stretch of the data. */
  lemma {:induction false} LeafStands(c: Committed, index: nat)
    requires c.Valid() && index < Pow2(c.depth)
    ensures StandsAt(c.data, Offset(index, c.leafBytes), c.Leaf(index))
  {
    hide StandsAt, Offset;
    FlattenAt(Chunks(c.data, c.leafBytes), c.leafBytes, index);
  }

  /** The values of a list of leaves are the leaves, in the order of the list. */
  lemma {:induction false} LeafValueStands(c: Committed, indices: seq<nat>, k: nat)
    requires c.Valid() && Below(indices, Pow2(c.depth)) && k < |indices|
    ensures |LeafValues(c, indices)| == Offset(|indices|, c.leafBytes)
    ensures StandsAt(LeafValues(c, indices), Offset(k, c.leafBytes), c.Leaf(indices[k]))
  {
    hide StandsAt, Chunks;
    var leaves := seq(|indices|, i requires 0 <= i < |indices| => c.Leaf(indices[i]));
    LeafValuesFlat(c, indices);
    FlattenLength(leaves, c.leafBytes);
    FlattenAt(leaves, c.leafBytes, k);
  }

  lemma {:induction false} LeafValuesFlat(c: Committed, indices: seq<nat>)
    requires c.Valid() && Below(indices, Pow2(c.depth))
    ensures LeafValues(c, indices) == Flatten(seq(|indices|, i requires 0 <= i < |indices| => c.Leaf(indices[i])))
  {
    hide Chunks;
    if indices != [] {
      LeafValuesFlat(c, indices[1..]);
      var leaves := seq(|indices|, i requires 0 <= i < |indices| => c.Leaf(indices[i]));
      assert leaves[1..] == seq(|indices| - 1, i requires 0 <= i < |indices| - 1 => c.Leaf(indices[1..][i]));
    }
  }

  // ---- One opening. ----

  /** What one opening takes up. */
  function OpeningSize<C>(suite: Suite<C>, c: Committed, layerDepth: nat): nat
    requires layerDepth <= c.depth
  {
    c.leafBytes + Offset(c.depth - layerDepth, suite.digestSize)
  }

  /** An opening starts with the leaf. */
  lemma {:induction false} LeafOpens<C>(suite: Suite<C>, c: Committed, layerDepth: nat, index: nat)
    requires suite.Valid() && c.Valid() && layerDepth <= c.depth && index < Pow2(c.depth)
    ensures |OpeningBytes(suite, c, layerDepth, index)| == OpeningSize(suite, c, layerDepth)
    ensures StandsAt(OpeningBytes(suite, c, layerDepth, index), 0, c.Leaf(index))
  {
    hide Digest, Chunks, BranchOf, StandsAt, Offset;
    var branch := BranchOf(suite.compress, c.LeafDigests(suite), c.depth, index, layerDepth);
    BranchDigestSizes(suite, c, index, layerDepth);
    FlattenLength(branch, suite.digestSize);
    StandsFirst(c.Leaf(index), Flatten(branch));
  }

  /** Then comes the digest beside the path, at every height below the layer. */
  lemma {:induction false} SiblingStands<C>(suite: Suite<C>, c: Committed, layerDepth: nat, index: nat, j: nat)
    requires suite.Valid() && c.Valid() && layerDepth <= c.depth && index < Pow2(c.depth) && j < c.depth - layerDepth
    ensures IsNode(c.depth, j, Sibling(Hi(index, j)))
    ensures StandsAt(OpeningBytes(suite, c, layerDepth, index), c.leafBytes + Offset(j, suite.digestSize),
                     Digest(suite.compress, c.LeafDigests(suite), c.depth, j, Sibling(Hi(index, j))))
  {
    hide Digest, Chunks, Sibling, Hi, IsNode, StandsAt, Offset;
    var branch := BranchOf(suite.compress, c.LeafDigests(suite), c.depth, index, layerDepth);
    SiblingsExist(c.depth, index);
    BranchDigestSizes(suite, c, index, layerDepth);
    FlattenAt(branch, suite.digestSize, j);
    StandsLater(c.Leaf(index), Flatten(branch), Offset(j, suite.digestSize), branch[j]);
  }

  // ---- A multi-opening. ----

  /** The openings stand one after the other. */
  lemma {:induction false} OpeningStands<C>(suite: Suite<C>, c: Committed, layerDepth: nat, indices: seq<nat>, k: nat)
    requires suite.Valid() && c.Valid() && layerDepth <= c.depth && Below(indices, Pow2(c.depth)) && k < |indices|
    ensures StandsAt(OpeningsBytes(suite, c, layerDepth, indices), Offset(k, OpeningSize(suite, c, layerDepth)),
                     OpeningBytes(suite, c, layerDepth, indices[k]))
  {
    hide OpeningBytes, OpeningSize, StandsAt, Offset;
    var first := OpeningBytes(suite, c, layerDepth, indices[0]);
    var rest := OpeningsBytes(suite, c, layerDepth, indices[1..]);
    LeafOpens(suite, c, layerDepth, indices[0]);
    NoneYet(OpeningSize(suite, c, layerDepth));
    if k == 0 {
      StandsFirst(first, rest);
    } else {
      OpeningStands(suite, c, layerDepth, indices[1..], k - 1);
      StandsLater(first, rest, Offset(k - 1, OpeningSize(suite, c, layerDepth)),
                  OpeningBytes(suite, c, layerDepth, indices[k]));
      OneMore(k, OpeningSize(suite, c, layerDepth));
    }
  }

  lemma {:induction false} OpeningsSize<C>(suite: Suite<C>, c: Committed, layerDepth: nat, indices: seq<nat>)
    requires suite.Valid() && c.Valid() && layerDepth <= c.depth && Below(indices, Pow2(c.depth))
    ensures |OpeningsBytes(suite, c, layerDepth, indices)| == Offset(|indices|, OpeningSize(suite, c, layerDepth))
  {
    hide OpeningBytes, OpeningSize, StandsAt, Offset;
    NoneYet(OpeningSize(suite, c, layerDepth));
    if indices != [] {
      LeafOpens(suite, c, layerDepth, indices[0]);
      OpeningsSize(suite, c, layerDepth, indices[1..]);
      OneMore(|indices|, OpeningSize(suite, c, layerDepth));
    }
  }

  lemma Regrouped(n: nat, leaf: nat, height: nat, size: nat, width: nat)
    ensures Offset(n, leaf + Offset(height, size)) + Offset(width, size)
            == Offset(n, leaf) + Offset(height * n + width, size)
  {
  }

  /** A multi-opening takes up the leaves asked for and, in digests, what the choice of the layer makes
      smallest. */
  lemma {:induction false} MultiOpenSize<C>(suite: Suite<C>, c: Committed, indices: seq<nat>)
    requires suite.Valid() && c.Valid() && Below(indices, Pow2(c.depth))
    ensures var d := LayerDepth(c.depth, |indices|);
            && d <= c.depth
            && |MultiOpenBytes(suite, c, indices)|
               == Offset(|indices|, c.leafBytes) + Offset(ProofDigests(c.depth, |indices|, d), suite.digestSize)
  {
    hide Digest, Chunks, OpeningsBytes, LayerDepth, LayerOf, Offset;
    var d := LayerDepth(c.depth, |indices|);
    DepthBound(c.depth, |indices|);
    LayerDigestSizes(suite, c, d);
    FlattenLength(LayerOf(suite.compress, c.LeafDigests(suite), c.depth, d), suite.digestSize);
    OpeningsSize(suite, c, d, indices);
    Regrouped(|indices|, c.leafBytes, c.depth - d, suite.digestSize, Pow2(d));
  }

  /** The layer's digests come first, from left to right. */
  lemma {:induction false} LayerEntryStands<C>(suite: Suite<C>, c: Committed, indices: seq<nat>, j: nat)
    requires suite.Valid() && c.Valid() && Below(indices, Pow2(c.depth)) && j < Pow2(LayerDepth(c.depth, |indices|))
    ensures LayerDepth(c.depth, |indices|) <= c.depth
    ensures StandsAt(MultiOpenBytes(suite, c, indices), Offset(j, suite.digestSize),
                     Digest(suite.compress, c.LeafDigests(suite), c.depth,
                            c.depth - LayerDepth(c.depth, |indices|), j))
  {
    hide Digest, Chunks, OpeningsBytes, LayerDepth, StandsAt, Offset;
    var d := LayerDepth(c.depth, |indices|);
    DepthBound(c.depth, |indices|);
    LayerDigestSizes(suite, c, d);
    var layer := LayerOf(suite.compress, c.LeafDigests(suite), c.depth, d);
    FlattenAt(layer, suite.digestSize, j);
    StandsBefore(Flatten(layer), OpeningsBytes(suite, c, d, indices), Offset(j, suite.digestSize), layer[j]);
  }

  /** After the layer, the openings, in the order asked for. */
  lemma {:induction false} MultiOpenStands<C>(suite: Suite<C>, c: Committed, indices: seq<nat>, k: nat)
    requires suite.Valid() && c.Valid() && Below(indices, Pow2(c.depth)) && k < |indices|
    ensures var d := LayerDepth(c.depth, |indices|);
            && d <= c.depth
            && StandsAt(MultiOpenBytes(suite, c, indices),
                        Offset(Pow2(d), suite.digestSize) + Offset(k, OpeningSize(suite, c, d)),
                        OpeningBytes(suite, c, d, indices[k]))
  {
    hide Digest, Chunks, OpeningsBytes, OpeningBytes, OpeningSize, LayerDepth, LayerOf, StandsAt, Offset;
    var d := LayerDepth(c.depth, |indices|);
    DepthBound(c.depth, |indices|);
    LayerDigestSizes(suite, c, d);
    var layer := LayerOf(suite.compress, c.LeafDigests(suite), c.depth, d);
    FlattenLength(layer, suite.digestSize);
    OpeningStands(suite, c, d, indices, k);
    StandsLater(Flatten(layer), OpeningsBytes(suite, c, d, indices), Offset(k, OpeningSize(suite, c, d)),
                OpeningBytes(suite, c, d, indices[k]));
  }
}
