/** The verifier's view of a Merkle commitment: recomputing digests from a layer, from an opening,
    or from the whole vector, and what an accepted recomputation pins down. */
module MerkleScheme {
  import opened Bits
  import opened MerkleTree
  import opened MerkleBranch

  /** The layer whose height balances its width against the branches of `nQueries` openings. */
  function OptimalVerifyLayer(nQueries: nat, treeDepth: nat): (d: nat)
    ensures d <= treeDepth
  {
    if Log2Ceil(nQueries) < treeDepth then Log2Ceil(nQueries) else treeDepth
  }

  /** How many digests a multi-opening sends: one a level for each branch, and the layer once. */
  function ProofDigests(treeDepth: nat, nQueries: nat, layerDepth: nat): nat
    requires layerDepth <= treeDepth
  {
    (treeDepth - layerDepth) * nQueries + Pow2(layerDepth)
  }

  /** One layer further down costs its width and saves a digest a query. */
  lemma NextLayer(treeDepth: nat, nQueries: nat, e: nat)
    requires e < treeDepth
    ensures ProofDigests(treeDepth, nQueries, e + 1) == ProofDigests(treeDepth, nQueries, e) + Pow2(e) - nQueries
  {
    assert (treeDepth - e) * nQueries == (treeDepth - (e + 1)) * nQueries + nQueries;
  }

  lemma {:induction false} BelowOptimum(treeDepth: nat, nQueries: nat, d: nat, e: nat)
    requires d <= e <= treeDepth && nQueries <= Pow2(d)
    ensures ProofDigests(treeDepth, nQueries, d) <= ProofDigests(treeDepth, nQueries, e)
    decreases e
  {
    hide ProofDigests;
    if d < e {
      BelowOptimum(treeDepth, nQueries, d, e - 1);
      NextLayer(treeDepth, nQueries, e - 1);
      Pow2Mono(d, e - 1);
    }
  }

  lemma {:induction false} AboveOptimum(treeDepth: nat, nQueries: nat, d: nat, e: nat)
    requires e < d <= treeDepth && Pow2(d) < 2 * nQueries
    ensures ProofDigests(treeDepth, nQueries, d) < ProofDigests(treeDepth, nQueries, e)
    decreases d - e
  {
    hide ProofDigests;
    NextLayer(treeDepth, nQueries, e);
    Pow2Mono(e + 1, d);
    assert Pow2(e + 1) == 2 * Pow2(e);
    if e + 1 < d {
      AboveOptimum(treeDepth, nQueries, d, e + 1);
    }
  }

  /** No layer makes a proof smaller, and among the smallest the highest is taken. */
  lemma {:induction false} OptimalIsSmallest(treeDepth: nat, nQueries: nat, e: nat)
    requires e <= treeDepth
    ensures var d := OptimalVerifyLayer(nQueries, treeDepth);
            if e < d then ProofDigests(treeDepth, nQueries, d) < ProofDigests(treeDepth, nQueries, e)
            else ProofDigests(treeDepth, nQueries, d) <= ProofDigests(treeDepth, nQueries, e)
  {
    hide ProofDigests;
    var d := OptimalVerifyLayer(nQueries, treeDepth);
    if e < d {
      Pow2Mono(d, Log2Ceil(nQueries));
      AboveOptimum(treeDepth, nQueries, d, e);
    } else if d < treeDepth {
      BelowOptimum(treeDepth, nQueries, d, e);
    }
  }

  /** Folds a layer of 2^d digests to the digest above them all. */
  function FoldToRoot<D>(compress: (D, D) -> D, digests: seq<D>, d: nat): D
    requires |digests| == Pow2(d)
    decreases d
  {
    if d == 0 then digests[0] else FoldToRoot(compress, FoldPairs(compress, digests), d - 1)
  }

  /** One round in place: a parent lands strictly below both children it replaces. */
  method FoldRoundInPlace<D>(compress: (D, D) -> D, layer: array<D>, len: nat)
    requires len <= layer.Length && len % 2 == 0
    modifies layer
    ensures layer[..len / 2] == FoldPairs(compress, old(layer[..len]))
  {
    hide FoldPairs;
    ghost var before := layer[..len];
    ghost var parents := FoldPairs(compress, before);
    FoldHalves(compress, before);
    for i := 0 to len / 2
      invariant forall k :: 0 <= k < i ==> layer[k] == parents[k]
      invariant forall k :: 2 * i <= k < len ==> layer[k] == before[k]
    {
      PairAt(compress, before, i);
      layer[i] := compress(layer[2 * i], layer[2 * i + 1]);
    }
  }

  /** The fold as the code runs it: the first round writes fresh space, every later one is in place. */
  method FoldToRootInPlace<D>(compress: (D, D) -> D, digests: seq<D>, d: nat) returns (root: D)
    requires |digests| == Pow2(d)
    ensures root == FoldToRoot(compress, digests, d)
  {
    hide FoldPairs;
    if |digests| == 1 {
      assert d == 0;
      return digests[0];
    }
    assert d > 0;
    var first := FoldPairs(compress, digests);
    FoldHalves(compress, digests);
    var layer := new D[|first|](i requires 0 <= i < |first| => first[i]);
    var len := |first|;
    ghost var level: nat := d - 1;
    assert layer[..len] == first;
    while len > 1
      invariant 0 < len <= layer.Length && len == Pow2(level)
      invariant FoldToRoot(compress, layer[..len], level) == FoldToRoot(compress, digests, d)
      decreases len
    {
      FoldHalves(compress, layer[..len]);
      FoldRoundInPlace(compress, layer, len);
      len := len / 2;
      level := level - 1;
    }
    root := layer[0];
  }

  lemma PairAt<D>(compress: (D, D) -> D, layer: seq<D>, i: nat)
    requires 2 * i + 1 < |layer|
    ensures |FoldPairs(compress, layer)| == |layer| / 2
    ensures FoldPairs(compress, layer)[i] == compress(layer[2 * i], layer[2 * i + 1])
  {
  }

  lemma FoldHalves<D>(compress: (D, D) -> D, layer: seq<D>)
    ensures |FoldPairs(compress, layer)| == |layer| / 2
  {
  }

  lemma {:induction false} FoldLayerOf<D>(compress: (D, D) -> D, leaves: seq<D>, logLen: nat, d: nat)
    requires |leaves| == Pow2(logLen) && 0 < d <= logLen
    ensures FoldPairs(compress, LayerOf(compress, leaves, logLen, d)) == LayerOf(compress, leaves, logLen, d - 1)
  {
    hide Digest;
    var folded := FoldPairs(compress, LayerOf(compress, leaves, logLen, d));
    var upper := LayerOf(compress, leaves, logLen, d - 1);
    forall k: nat | k < Pow2(d - 1)
      ensures folded[k] == upper[k]
    {
      DigestOfChildren(compress, leaves, logLen, logLen - d + 1, k);
    }
  }

  lemma TopLayer<D>(compress: (D, D) -> D, leaves: seq<D>, logLen: nat)
    requires |leaves| == Pow2(logLen)
    ensures LayerOf(compress, leaves, logLen, 0) == [Digest(compress, leaves, logLen, logLen, 0)]
  {
    hide Digest;
  }

  /** Folding any honest layer gives the root. */
  lemma {:induction false} FoldHonestLayer<D>(compress: (D, D) -> D, leaves: seq<D>, logLen: nat, d: nat)
    requires |leaves| == Pow2(logLen) && d <= logLen
    ensures FoldToRoot(compress, LayerOf(compress, leaves, logLen, d), d) == Digest(compress, leaves, logLen, logLen, 0)
  {
    hide Digest, LayerOf, FoldPairs;
    if d == 0 {
      TopLayer(compress, leaves, logLen);
    } else {
      FoldLayerOf(compress, leaves, logLen, d);
      FoldHonestLayer(compress, leaves, logLen, d - 1);
    }
  }

  lemma FoldLeaves<D>(compress: (D, D) -> D, leaves: seq<D>, logLen: nat)
    requires |leaves| == Pow2(logLen)
    ensures FoldToRoot(compress, leaves, logLen) == Digest(compress, leaves, logLen, logLen, 0)
  {
    FoldHonestLayer(compress, leaves, logLen, logLen);
    assert LayerOf(compress, leaves, logLen, logLen) == leaves;
  }

  // ---- Binding: what an accepted recomputation says, or the collision it exhibits. ----

  /** Some pair in `hashed` compresses to the digest of a tree node without being its children. */
  ghost predicate Collides<D>(compress: (D, D) -> D, leaves: seq<D>, logLen: nat, hashed: set<(D, D)>)
    requires |leaves| == Pow2(logLen)
  {
    exists p, h: nat, k: nat {:trigger p in hashed, IsNode(logLen, h, k)} ::
      && p in hashed && h > 0 && IsNode(logLen, h, k)
      && compress(p.0, p.1) == Digest(compress, leaves, logLen, h, k)
      && (p.0 != Digest(compress, leaves, logLen, h - 1, 2 * k)
          || p.1 != Digest(compress, leaves, logLen, h - 1, 2 * k + 1))
  }

  /** The pairs compressed when a layer is folded to the root. */
  ghost function FoldInputs<D>(compress: (D, D) -> D, digests: seq<D>, d: nat): set<(D, D)>
    requires |digests| == Pow2(d)
    decreases d
  {
    if d == 0 then {}
    else
      var pairs := set i | 0 <= i < Pow2(d - 1) :: (digests[2 * i], digests[2 * i + 1]);
      pairs + FoldInputs(compress, FoldPairs(compress, digests), d - 1)
  }

  /** The pairs compressed when a digest is folded with siblings. */
  ghost function ClimbInputs<D>(compress: (D, D) -> D, digest: D, index: nat, siblings: seq<D>): set<(D, D)>
    decreases |siblings|
  {
    if siblings == [] then {}
    else
      var p := if index % 2 == 0 then (digest, siblings[0]) else (siblings[0], digest);
      {p} + ClimbInputs(compress, compress(p.0, p.1), index / 2, siblings[1..])
  }

  lemma CollidesMore<D>(compress: (D, D) -> D, leaves: seq<D>, logLen: nat, s: set<(D, D)>, t: set<(D, D)>)
    requires |leaves| == Pow2(logLen) && s <= t && Collides(compress, leaves, logLen, s)
    ensures Collides(compress, leaves, logLen, t)
  {
  }

  /** A pair that compresses to a node's digest is its children, or a collision. */
  lemma PairBinding<D>(compress: (D, D) -> D, leaves: seq<D>, logLen: nat, h: nat, k: nat, p: (D, D),
                       hashed: set<(D, D)>)
    requires |leaves| == Pow2(logLen) && h > 0 && IsNode(logLen, h, k) && p in hashed
    requires compress(p.0, p.1) == Digest(compress, leaves, logLen, h, k)
    requires !Collides(compress, leaves, logLen, hashed)
    ensures IsNode(logLen, h - 1, 2 * k) && p.0 == Digest(compress, leaves, logLen, h - 1, 2 * k)
    ensures IsNode(logLen, h - 1, 2 * k + 1) && p.1 == Digest(compress, leaves, logLen, h - 1, 2 * k + 1)
  {
    hide Digest;
    DigestOfChildren(compress, leaves, logLen, h, k);
  }

  /** If the layer above is honest, so is this one, or compressing its pairs exhibits a collision. */
  lemma {:induction false} LowerLayerBinding<D>(compress: (D, D) -> D, leaves: seq<D>, logLen: nat, layer: seq<D>,
                                                d: nat, hashed: set<(D, D)>)
    requires |leaves| == Pow2(logLen) && 0 < d <= logLen && |layer| == Pow2(d)
    requires FoldPairs(compress, layer) == LayerOf(compress, leaves, logLen, d - 1)
    requires forall i :: 0 <= i < Pow2(d - 1) ==> (layer[2 * i], layer[2 * i + 1]) in hashed
    requires !Collides(compress, leaves, logLen, hashed)
    ensures layer == LayerOf(compress, leaves, logLen, d)
  {
    hide Digest, Collides;
    var honest := LayerOf(compress, leaves, logLen, d);
    forall i: nat | i < |layer|
      ensures layer[i] == honest[i]
    {
      var k := i / 2;
      assert FoldPairs(compress, layer)[k] == LayerOf(compress, leaves, logLen, d - 1)[k];
      PairBinding(compress, leaves, logLen, logLen - d + 1, k, (layer[2 * k], layer[2 * k + 1]), hashed);
      assert i == 2 * k || i == 2 * k + 1;
    }
  }

  lemma {:induction false} FoldStep<D>(compress: (D, D) -> D, layer: seq<D>, d: nat)
    requires |layer| == Pow2(d) && d > 0
    ensures |FoldPairs(compress, layer)| == Pow2(d - 1)
    ensures FoldInputs(compress, FoldPairs(compress, layer), d - 1) <= FoldInputs(compress, layer, d)
    ensures forall i :: 0 <= i < Pow2(d - 1) ==> (layer[2 * i], layer[2 * i + 1]) in FoldInputs(compress, layer, d)
  {
    FoldHalves(compress, layer);
    hide FoldPairs;
    var pairs := set i | 0 <= i < Pow2(d - 1) :: (layer[2 * i], layer[2 * i + 1]);
    assert FoldInputs(compress, layer, d) == pairs + FoldInputs(compress, FoldPairs(compress, layer), d - 1);
    forall i | 0 <= i < Pow2(d - 1)
      ensures (layer[2 * i], layer[2 * i + 1]) in pairs
    {
    }
  }

  lemma {:induction false} FoldRootStep<D>(compress: (D, D) -> D, layer: seq<D>, d: nat)
    requires |layer| == Pow2(d) && d > 0
    ensures |FoldPairs(compress, layer)| == Pow2(d - 1)
    ensures FoldToRoot(compress, layer, d) == FoldToRoot(compress, FoldPairs(compress, layer), d - 1)
  {
    FoldHalves(compress, layer);
    hide FoldPairs;
  }

  /** A layer that folds to the root is the honest layer, or folding it exhibits a collision. */
  lemma {:induction false} LayerBinding<D>(compress: (D, D) -> D, leaves: seq<D>, logLen: nat, layer: seq<D>, d: nat)
    requires |leaves| == Pow2(logLen) && d <= logLen && |layer| == Pow2(d)
    requires FoldToRoot(compress, layer, d) == Digest(compress, leaves, logLen, logLen, 0)
    requires !Collides(compress, leaves, logLen, FoldInputs(compress, layer, d))
    ensures layer == LayerOf(compress, leaves, logLen, d)
    decreases d
  {
    hide Digest, Collides, LayerOf, FoldInputs, FoldPairs;
    if d == 0 {
      TopLayer(compress, leaves, logLen);
      assert layer == [layer[0]];
    } else {
      hide FoldToRoot;
      FoldStep(compress, layer, d);
      FoldRootStep(compress, layer, d);
      var upper, inputs := FoldPairs(compress, layer), FoldInputs(compress, layer, d);
      if Collides(compress, leaves, logLen, FoldInputs(compress, upper, d - 1)) {
        CollidesMore(compress, leaves, logLen, FoldInputs(compress, upper, d - 1), inputs);
      }
      LayerBinding(compress, leaves, logLen, upper, d - 1);
      LowerLayerBinding(compress, leaves, logLen, layer, d, inputs);
    }
  }

  /** A digest that climbs to a tree node is the digest of the node below it on the path, or the
      climb exhibits a collision. */
  lemma {:induction false} ClimbBinding<D>(compress: (D, D) -> D, leaves: seq<D>, logLen: nat, h: nat, k: nat,
                                           digest: D, siblings: seq<D>)
    requires |leaves| == Pow2(logLen) && h + |siblings| <= logLen && IsNode(logLen, h, k)
    requires IsNode(logLen, h + |siblings|, Hi(k, |siblings|))
    requires Climb(compress, digest, k, siblings) == Digest(compress, leaves, logLen, h + |siblings|, Hi(k, |siblings|))
    requires !Collides(compress, leaves, logLen, ClimbInputs(compress, digest, k, siblings))
    ensures digest == Digest(compress, leaves, logLen, h, k)
    decreases |siblings|
  {
    hide Digest, Collides;
    if siblings != [] {
      var p := if k % 2 == 0 then (digest, siblings[0]) else (siblings[0], digest);
      var parent := compress(p.0, p.1);
      var inputs := ClimbInputs(compress, digest, k, siblings);
      if Collides(compress, leaves, logLen, ClimbInputs(compress, parent, k / 2, siblings[1..])) {
        CollidesMore(compress, leaves, logLen, ClimbInputs(compress, parent, k / 2, siblings[1..]), inputs);
      }
      assert Pow2(logLen - h) == 2 * Pow2(logLen - h - 1);
      ClimbBinding(compress, leaves, logLen, h + 1, k / 2, parent, siblings[1..]);
      PairBinding(compress, leaves, logLen, h + 1, k / 2, p, inputs);
    }
  }
}
