/** Committing a vector to a Merkle tree, and reading layers, branches and the root back. */
module MerkleBranch {
  import opened Options
  import opened Bits
  import opened MerkleTree

  /** The finished tree: every digest, widest layer first, the root last. */
  datatype Tree<D> = Tree(logLen: nat, innerNodes: seq<D>)

  /** `t` holds, at every slot, the digest of the node the slot belongs to. */
  ghost predicate Commits<D>(compress: (D, D) -> D, leaves: seq<D>, t: Tree<D>) {
    && |leaves| == Pow2(t.logLen) && |t.innerNodes| == Pow2(t.logLen + 1) - 1
    && forall h: nat, k: nat :: IsNode(t.logLen, h, k) ==>
         t.innerNodes[Pos(t.logLen, h, k)] == Digest(compress, leaves, t.logLen, h, k)
  }

  /** The exponent of a power of two; nothing else has one. */
  function StrictLog2(n: nat): (r: Option<nat>)
    ensures r.Some? ==> n == Pow2(r.value)
    ensures r.None? ==> forall k: nat :: n != Pow2(k)
  {
    if n == 0 then None
    else if n == 1 then assert Pow2(0) == 1; Some(0)
    else
      var r := StrictLog2(n / 2);
      if n % 2 == 1 || r.None? then
        assert forall k: nat :: n == Pow2(k) ==> k > 0 && n == 2 * Pow2(k - 1);
        None
      else Some(r.value + 1)
  }

  lemma AllWritten<D>(compress: (D, D) -> D, leaves: seq<D>, logLen: nat, s: seq<Option<D>>)
    requires |leaves| == Pow2(logLen) && |s| == Pow2(logLen + 1) - 1
    requires LeavesWritten(leaves, logLen, s) && Built(compress, leaves, logLen, logLen, 0, s)
    ensures forall h: nat, k: nat :: IsNode(logLen, h, k) ==>
      s[Pos(logLen, h, k)] == Some(Digest(compress, leaves, logLen, h, k))
    ensures forall p :: 0 <= p < |s| ==> s[p].Some?
  {
    forall h: nat, k: nat | IsNode(logLen, h, k)
      ensures s[Pos(logLen, h, k)] == Some(Digest(compress, leaves, logLen, h, k))
    {
      if h == 0 {
        assert Pos(logLen, 0, k) == k;
      } else {
        UpValue(1, logLen - h);
        UpValue(0, logLen - h);
        assert InSubtree(logLen, 0, h, k);
      }
    }
    forall p | 0 <= p < |s|
      ensures s[p].Some?
    {
      var h, k := PosSurjective(logLen, p, 0);
    }
  }

  lemma NothingBuilt<D>(compress: (D, D) -> D, leaves: seq<D>, logLen: nat, s: seq<Option<D>>)
    requires |leaves| == Pow2(logLen) && |s| == Pow2(logLen + 1) - 1
    requires forall j :: Pow2(logLen) <= j < |s| ==> s[j] == None
    ensures Untouched(compress, leaves, logLen, logLen, 0, s)
    ensures logLen == 0 ==> Built(compress, leaves, logLen, logLen, 0, s)
  {
    forall h: nat, k: nat | h > 0 && IsNode(logLen, h, k)
      ensures s[Pos(logLen, h, k)] == None
    {
      Pow2Mono(logLen - h + 1, logLen);
    }
  }

  function Hashes<X, D>(leafHash: X -> D, leaves: seq<X>): (ds: seq<D>)
    ensures |ds| == |leaves|
  {
    seq(|leaves|, i requires 0 <= i < |leaves| => leafHash(leaves[i]))
  }

  /** Hashes every leaf into the widest layer, then builds every layer above it. */
  method FromLeaves<X, D>(compress: (D, D) -> D, leafHash: X -> D, leaves: seq<X>, logLen: nat) returns (t: Tree<D>)
    requires |leaves| == Pow2(logLen)
    ensures t.logLen == logLen
    ensures Commits(compress, Hashes(leafHash, leaves), t)
  {
    ghost var digests := Hashes(leafHash, leaves);
    var totalLength := Pow2(logLen + 1) - 1;
    var nodes := new Option<D>[totalLength](_ => None);
    for i := 0 to Pow2(logLen)
      invariant forall j :: 0 <= j < i ==> nodes[j] == Some(digests[j])
      invariant forall j :: i <= j < totalLength ==> nodes[j] == None
    {
      Write(nodes, i, leafHash(leaves[i]));
    }
    UpValue(0, logLen);
    ghost var hashed := nodes[..];
    NothingBuilt(compress, digests, logLen, hashed);
    if logLen > 0 {
      var root := BuildNode(nodes, compress, digests, logLen, 0, logLen, 0);
      LeavesStay(digests, logLen, logLen, 0, hashed, nodes[..]);
    }
    AllWritten(compress, digests, logLen, nodes[..]);
    var s := nodes[..];
    t := Tree(logLen, seq(totalLength, p requires 0 <= p < totalLength && s[p].Some? => s[p].value));
  }

  /** Commits a vector, cut into leaves of `batchSize` values. */
  method New<F, D>(compress: (D, D) -> D, leafHash: seq<F> -> D, elements: seq<F>, batchSize: nat)
    returns (r: Result<Tree<D>>)
    ensures r == Err(IncorrectBatchSize(|elements|, batchSize)) <==> batchSize == 0 || |elements| % batchSize != 0
    ensures batchSize != 0 && |elements| % batchSize == 0 ==>
      (r.Err? <==> forall k: nat :: |elements| / batchSize != Pow2(k))
    ensures batchSize != 0 && |elements| % batchSize == 0 && r.Err? ==>
      r == Err(PowerOfTwoLengthRequired(|elements| / batchSize))
    ensures r.Ok? ==> Commits(compress, Hashes(leafHash, Chunks(elements, batchSize)), r.value)
  {
    if batchSize == 0 || |elements| % batchSize != 0 {
      return Err(IncorrectBatchSize(|elements|, batchSize));
    }
    var len := |elements| / batchSize;
    var logLen := StrictLog2(len);
    if logLen == None {
      return Err(PowerOfTwoLengthRequired(len));
    }
    var chunks := Chunks(elements, batchSize);
    var t := FromLeaves(compress, leafHash, chunks, logLen.value);
    r := Ok(t);
  }

  /** The consecutive chunks of a vector that splits evenly. */
  function Chunks<F>(elements: seq<F>, size: nat): (cs: seq<seq<F>>)
    requires size > 0 && |elements| % size == 0
    ensures |cs| == |elements| / size
    ensures forall i :: 0 <= i < |cs| ==> |cs[i]| == size
    ensures Flatten(cs) == elements
  {
    if |elements| == 0 then []
    else
      DivStep(|elements|, size);
      [elements[..size]] + Chunks(elements[size..], size)
  }

  function Flatten<F>(cs: seq<seq<F>>): seq<F> {
    if cs == [] then [] else cs[0] + Flatten(cs[1..])
  }

  lemma {:induction false} DivStep(n: nat, size: nat)
    requires size > 0 && n % size == 0 && n > 0
    ensures n >= size && (n - size) % size == 0 && (n - size) / size == n / size - 1
  {
    assert n == size * (n / size);
    MulSign(size, n / size);
    DivUnique(n - size, size, n / size - 1, 0);
  }

  function Root<D>(t: Tree<D>): D
    requires |t.innerNodes| > 0
  {
    t.innerNodes[|t.innerNodes| - 1]
  }

  /** One whole layer, counting depth from the root. */
  function Layer<D>(t: Tree<D>, layerDepth: nat): (r: Result<seq<D>>)
    requires |t.innerNodes| == Pow2(t.logLen + 1) - 1
    ensures r.Err? <==> layerDepth > t.logLen
    ensures r.Err? ==> r.error == IncorrectLayerDepth(layerDepth, t.logLen)
    ensures r.Ok? ==> |r.value| == Pow2(layerDepth)
  {
    if layerDepth > t.logLen then Err(IncorrectLayerDepth(layerDepth, t.logLen))
    else
      Pow2Mono(layerDepth + 1, t.logLen + 1);
      var rangeStart := |t.innerNodes| + 1 - Pow2(layerDepth + 1);
      Ok(t.innerNodes[rangeStart..rangeStart + Pow2(layerDepth)])
  }

  /** Where a branch finds the sibling of the node on its path at height `j`. */
  function SiblingIndex(logLen: nat, index: nat, j: nat): nat
    requires j <= logLen
  {
    Or(Up(Pow2(j) - 1, logLen + 1 - j), Xor(Hi(index, j), 1))
  }

  function Sibling(k: nat): nat {
    if k % 2 == 0 then k + 1 else k - 1
  }

  lemma XorOne(x: nat)
    ensures Xor(x, 1) == Sibling(x)
  {
    ZeroOps(x / 2);
  }

  lemma LayerBase(logLen: nat, j: nat)
    requires j <= logLen
    ensures Up(Pow2(j) - 1, logLen + 1 - j) == Pow2(logLen + 1) - Pow2(logLen + 1 - j)
  {
    UpValue(Pow2(j) - 1, logLen + 1 - j);
    Pow2Add(j, logLen + 1 - j);
    assert (Pow2(j) - 1) * Pow2(logLen + 1 - j) == Pow2(j) * Pow2(logLen + 1 - j) - Pow2(logLen + 1 - j);
  }

  /** The bit arithmetic lands on the sibling's slot. */
  lemma SiblingSlot(logLen: nat, index: nat, j: nat)
    requires index < Pow2(logLen) && j < logLen
    ensures IsNode(logLen, j, Hi(index, j)) && IsNode(logLen, j, Sibling(Hi(index, j)))
    ensures SiblingIndex(logLen, index, j) == Pos(logLen, j, Sibling(Hi(index, j))) < Pow2(logLen + 1) - 1
  {
    HiBound(index, j, logLen);
    var x := Hi(index, j);
    XorOne(x);
    assert Pow2(logLen - j) == 2 * Pow2(logLen - j - 1);
    LayerBase(logLen, j);
    OrDisjoint(Pow2(j) - 1, Sibling(x), logLen + 1 - j);
  }

  /** The sibling digests that open a leaf up to the layer at `layerDepth`. */
  function Branch<D>(t: Tree<D>, index: nat, layerDepth: nat): (r: Result<seq<D>>)
    requires |t.innerNodes| == Pow2(t.logLen + 1) - 1
    ensures r.Err? <==> index >= Pow2(t.logLen) || layerDepth > t.logLen
    ensures index >= Pow2(t.logLen) ==> r == Err(IndexOutOfRange(index, t.logLen))
    ensures index < Pow2(t.logLen) && layerDepth > t.logLen ==> r == Err(IncorrectLayerDepth(layerDepth, t.logLen))
    ensures r.Ok? ==> |r.value| == t.logLen - layerDepth
  {
    if index >= Pow2(t.logLen) then Err(IndexOutOfRange(index, t.logLen))
    else if layerDepth > t.logLen then Err(IncorrectLayerDepth(layerDepth, t.logLen))
    else
      var n := t.logLen - layerDepth;
      assert forall j: nat :: j < n ==> SiblingIndex(t.logLen, index, j) < |t.innerNodes| by {
        forall j: nat | j < n
          ensures SiblingIndex(t.logLen, index, j) < |t.innerNodes|
        {
          SiblingSlot(t.logLen, index, j);
        }
      }
      Ok(seq(n, j requires 0 <= j < n => t.innerNodes[SiblingIndex(t.logLen, index, j)]))
  }

  /** Folding a digest with its path's siblings: the low bit of the running index says which side
      the running digest is on. */
  function Climb<D>(compress: (D, D) -> D, digest: D, index: nat, siblings: seq<D>): D {
    if siblings == [] then digest
    else
      var parent := if index % 2 == 0 then compress(digest, siblings[0]) else compress(siblings[0], digest);
      Climb(compress, parent, index / 2, siblings[1..])
  }

  /** A layer holds exactly the digests of its height. */
  lemma LayerDigests<D>(compress: (D, D) -> D, leaves: seq<D>, t: Tree<D>, layerDepth: nat, k: nat)
    requires Commits(compress, leaves, t) && layerDepth <= t.logLen && k < Pow2(layerDepth)
    ensures Layer(t, layerDepth).value[k] == Digest(compress, leaves, t.logLen, t.logLen - layerDepth, k)
  {
    assert IsNode(t.logLen, t.logLen - layerDepth, k);
    assert Pos(t.logLen, t.logLen - layerDepth, k) == |t.innerNodes| + 1 - Pow2(layerDepth + 1) + k;
  }

  lemma RootDigest<D>(compress: (D, D) -> D, leaves: seq<D>, t: Tree<D>)
    requires Commits(compress, leaves, t)
    ensures |t.innerNodes| > 0 && Root(t) == Digest(compress, leaves, t.logLen, t.logLen, 0)
    ensures Layer(t, 0) == Ok([Root(t)])
  {
    Pow2Mono(1, t.logLen + 1);
    assert Pow2(0) == 1 && Pow2(1) == 2;
    assert IsNode(t.logLen, t.logLen, 0);
    assert Pos(t.logLen, t.logLen, 0) == |t.innerNodes| - 1;
    assert Layer(t, 0).value == [Root(t)];
  }

  /** One round of the naive fold: neighbours are compressed pair by pair. */
  function FoldPairs<D>(compress: (D, D) -> D, layer: seq<D>): seq<D> {
    seq(|layer| / 2, i requires 0 <= i < |layer| / 2 => compress(layer[2 * i], layer[2 * i + 1]))
  }

  /** Every layer of the tree is the naive fold of the layer below it. */
  lemma LayersFold<D>(compress: (D, D) -> D, leaves: seq<D>, t: Tree<D>, layerDepth: nat)
    requires Commits(compress, leaves, t) && layerDepth < t.logLen
    ensures Layer(t, layerDepth).value == FoldPairs(compress, Layer(t, layerDepth + 1).value)
    ensures Layer(t, t.logLen).value == leaves
  {
    hide Digest, Layer;
    var upper, lower := Layer(t, layerDepth).value, Layer(t, layerDepth + 1).value;
    forall k: nat | k < |upper|
      ensures 2 * k + 1 < |lower| && upper[k] == compress(lower[2 * k], lower[2 * k + 1])
    {
      DigestOfChildren(compress, leaves, t.logLen, t.logLen - layerDepth, k);
      LayerDigests(compress, leaves, t, layerDepth, k);
      LayerDigests(compress, leaves, t, layerDepth + 1, 2 * k);
      LayerDigests(compress, leaves, t, layerDepth + 1, 2 * k + 1);
    }
    assert upper == FoldPairs(compress, lower);
    forall k: nat | k < |leaves|
      ensures Layer(t, t.logLen).value[k] == leaves[k]
    {
      LayerDigests(compress, leaves, t, t.logLen, k);
      LeafDigest(compress, leaves, t.logLen, k);
    }
  }

  /** Entry `j` of a branch is the digest of the sibling at height `j`. */
  lemma BranchSibling<D>(compress: (D, D) -> D, leaves: seq<D>, t: Tree<D>, index: nat, layerDepth: nat, j: nat)
    requires Commits(compress, leaves, t) && index < Pow2(t.logLen) && layerDepth <= t.logLen
    requires j < t.logLen - layerDepth
    ensures IsNode(t.logLen, j, Sibling(Hi(index, j)))
    ensures Branch(t, index, layerDepth).value[j] == Digest(compress, leaves, t.logLen, j, Sibling(Hi(index, j)))
  {
    hide Digest, Sibling;
    SiblingSlot(t.logLen, index, j);
  }

  lemma HiNext(index: nat, j: nat)
    ensures Hi(index, j + 1) == Hi(index, j) / 2
  {
    HiHi(index, j, 1);
    assert Hi(Hi(index, j), 1) == Hi(Hi(index, j) / 2, 0);
  }

  /** A whole layer of an honest tree, counting depth from the root. */
  function LayerOf<D>(compress: (D, D) -> D, leaves: seq<D>, logLen: nat, depth: nat): (layer: seq<D>)
    requires |leaves| == Pow2(logLen) && depth <= logLen
    ensures |layer| == Pow2(depth)
  {
    seq(Pow2(depth), k requires 0 <= k < Pow2(depth) => Digest(compress, leaves, logLen, logLen - depth, k))
  }

  /** The siblings an honest branch holds. */
  function BranchOf<D>(compress: (D, D) -> D, leaves: seq<D>, logLen: nat, index: nat, depth: nat): (b: seq<D>)
    requires |leaves| == Pow2(logLen) && depth <= logLen && index < Pow2(logLen)
    ensures |b| == logLen - depth
  {
    SiblingsExist(logLen, index);
    seq(logLen - depth, j requires 0 <= j < logLen - depth =>
      Digest(compress, leaves, logLen, j, Sibling(Hi(index, j))))
  }

  lemma SiblingsExist(logLen: nat, index: nat)
    requires index < Pow2(logLen)
    ensures forall j: nat :: j < logLen ==> IsNode(logLen, j, Hi(index, j)) && IsNode(logLen, j, Sibling(Hi(index, j)))
  {
    forall j: nat | j < logLen
      ensures IsNode(logLen, j, Hi(index, j)) && IsNode(logLen, j, Sibling(Hi(index, j)))
    {
      SiblingSlot(logLen, index, j);
    }
  }

  /** One step of the climb: a node and its sibling compress to their parent. */
  lemma {:induction false} ClimbStep<D>(compress: (D, D) -> D, leaves: seq<D>, logLen: nat, index: nat, j: nat)
    requires |leaves| == Pow2(logLen) && index < Pow2(logLen) && j < logLen
    ensures IsNode(logLen, j, Hi(index, j)) && IsNode(logLen, j, Sibling(Hi(index, j)))
    ensures IsNode(logLen, j + 1, Hi(index, j + 1)) && Hi(index, j + 1) == Hi(index, j) / 2
    ensures var (d, s) := (Digest(compress, leaves, logLen, j, Hi(index, j)),
                           Digest(compress, leaves, logLen, j, Sibling(Hi(index, j))));
            Digest(compress, leaves, logLen, j + 1, Hi(index, j + 1))
            == if Hi(index, j) % 2 == 0 then compress(d, s) else compress(s, d)
  {
    hide Digest, Hi;
    SiblingSlot(logLen, index, j);
    HiNext(index, j);
    HiBound(index, j, logLen);
    HiBound(index, j + 1, logLen);
    DigestOfChildren(compress, leaves, logLen, j + 1, Hi(index, j + 1));
  }

  /** Climbing an honest branch from height `j` reaches the layer's node. */
  lemma {:induction false} ClimbFrom<D>(compress: (D, D) -> D, leaves: seq<D>, logLen: nat, index: nat, depth: nat,
                                        j: nat)
    requires |leaves| == Pow2(logLen) && index < Pow2(logLen) && depth <= logLen && j <= logLen - depth
    ensures IsNode(logLen, j, Hi(index, j)) && IsNode(logLen, logLen - depth, Hi(index, logLen - depth))
    ensures Climb(compress, Digest(compress, leaves, logLen, j, Hi(index, j)), Hi(index, j),
                  BranchOf(compress, leaves, logLen, index, depth)[j..])
         == Digest(compress, leaves, logLen, logLen - depth, Hi(index, logLen - depth))
    decreases logLen - depth - j
  {
    hide Digest;
    HiBound(index, j, logLen);
    HiBound(index, logLen - depth, logLen);
    var branch := BranchOf(compress, leaves, logLen, index, depth);
    if j < logLen - depth {
      ClimbStep(compress, leaves, logLen, index, j);
      assert branch[j..][1..] == branch[j + 1..];
      ClimbFrom(compress, leaves, logLen, index, depth, j + 1);
    } else {
      assert branch[j..] == [];
    }
  }

  /** A leaf climbs its honest branch to the layer entry above it. */
  lemma HonestClimb<D>(compress: (D, D) -> D, leaves: seq<D>, logLen: nat, index: nat, depth: nat)
    requires |leaves| == Pow2(logLen) && index < Pow2(logLen) && depth <= logLen
    ensures Hi(index, logLen - depth) < Pow2(depth)
    ensures Climb(compress, leaves[index], index, BranchOf(compress, leaves, logLen, index, depth))
         == LayerOf(compress, leaves, logLen, depth)[Hi(index, logLen - depth)]
  {
    hide Digest, BranchOf, Climb;
    LeafDigest(compress, leaves, logLen, index);
    ClimbFrom(compress, leaves, logLen, index, depth, 0);
    assert BranchOf(compress, leaves, logLen, index, depth)[0..] == BranchOf(compress, leaves, logLen, index, depth);
  }

  /** What the tree stores is the honest layer, branch and root. */
  lemma TreeServes<D>(compress: (D, D) -> D, leaves: seq<D>, t: Tree<D>, index: nat, depth: nat)
    requires Commits(compress, leaves, t) && depth <= t.logLen && index < Pow2(t.logLen)
    ensures Layer(t, depth) == Ok(LayerOf(compress, leaves, t.logLen, depth))
    ensures Branch(t, index, depth) == Ok(BranchOf(compress, leaves, t.logLen, index, depth))
    ensures |t.innerNodes| > 0 && Root(t) == Digest(compress, leaves, t.logLen, t.logLen, 0)
  {
    hide Digest, Layer, Branch;
    forall k: nat | k < Pow2(depth)
      ensures Layer(t, depth).value[k] == LayerOf(compress, leaves, t.logLen, depth)[k]
    {
      LayerDigests(compress, leaves, t, depth, k);
    }
    forall j: nat | j < t.logLen - depth
      ensures Branch(t, index, depth).value[j] == BranchOf(compress, leaves, t.logLen, index, depth)[j]
    {
      BranchSibling(compress, leaves, t, index, depth, j);
    }
    assert Layer(t, depth).value == LayerOf(compress, leaves, t.logLen, depth);
    assert Branch(t, index, depth).value == BranchOf(compress, leaves, t.logLen, index, depth);
    RootDigest(compress, leaves, t);
  }

  /** Folding a leaf with its branch gives the entry of the named layer above it; at depth 0, the
      root. */
  lemma {:induction false} BranchOpensLeaf<D>(compress: (D, D) -> D, leaves: seq<D>, t: Tree<D>, index: nat,
                                              layerDepth: nat)
    requires Commits(compress, leaves, t) && index < Pow2(t.logLen) && layerDepth <= t.logLen
    ensures Hi(index, t.logLen - layerDepth) < Pow2(layerDepth)
    ensures Climb(compress, leaves[index], index, Branch(t, index, layerDepth).value)
         == Layer(t, layerDepth).value[Hi(index, t.logLen - layerDepth)]
    ensures layerDepth == 0 ==> Climb(compress, leaves[index], index, Branch(t, index, 0).value) == Root(t)
  {
    hide Digest, Branch, Climb, BranchOf, LayerOf, Layer;
    TreeServes(compress, leaves, t, index, layerDepth);
    HonestClimb(compress, leaves, t.logLen, index, layerDepth);
    RootDigest(compress, leaves, t);
  }
}
