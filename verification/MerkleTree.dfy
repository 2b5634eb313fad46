/** A binary Merkle tree laid out in one flat buffer of layers, widest first, and built in place by
    a fork/join recursion that folds small subtrees level by level. */
module MerkleTree {
  import opened Options
  import opened Bits

  datatype Error =
    | IncorrectBatchSize(nValues: nat, batchSize: nat)
    | PowerOfTwoLengthRequired(nLeaves: nat)
    | IncorrectLayerDepth(layerDepth: nat, logLen: nat)
    | IndexOutOfRange(index: nat, logLen: nat)

  datatype Result<+T> = Ok(value: T) | Err(error: Error)

  /** Leaf-span depth up to which a subtree folds level by level, without forking. */
  const SUBTREE_LOG_DEPTH: nat := 6

  /** There is a node `k` at height `h`, counted from the leaves, of a tree over 2^logLen leaves. */
  predicate IsNode(logLen: nat, h: nat, k: nat) {
    h <= logLen && k < Pow2(logLen - h)
  }

  /** The digest of that node: a leaf, or the compression of its two children. */
  function Digest<D>(compress: (D, D) -> D, leaves: seq<D>, logLen: nat, h: nat, k: nat): D
    requires |leaves| == Pow2(logLen) && IsNode(logLen, h, k)
  {
    if h == 0 then leaves[k]
    else compress(Digest(compress, leaves, logLen, h - 1, 2 * k), Digest(compress, leaves, logLen, h - 1, 2 * k + 1))
  }

  /** Its slot in the flat buffer. */
  function Pos(logLen: nat, h: nat, k: nat): (p: nat)
    requires IsNode(logLen, h, k)
    ensures Pow2(logLen + 1) - Pow2(logLen - h + 1) <= p < Pow2(logLen + 1) - Pow2(logLen - h)
  {
    Pow2Mono(logLen - h + 1, logLen + 1);
    Pow2(logLen + 1) - Pow2(logLen - h + 1) + k
  }

  /** No two nodes share a slot. */
  lemma PosInjective(logLen: nat, h: nat, k: nat, h': nat, k': nat)
    requires IsNode(logLen, h, k) && IsNode(logLen, h', k') && Pos(logLen, h, k) == Pos(logLen, h', k')
    ensures h == h' && k == k'
  {
    if h < h' {
      Pow2Mono(logLen - h' + 1, logLen - h);
    } else if h' < h {
      Pow2Mono(logLen - h + 1, logLen - h');
    }
  }

  /** Every slot belongs to some node. */
  lemma {:induction false} PosSurjective(logLen: nat, p: nat, h: nat) returns (h': nat, k': nat)
    requires h <= logLen && Pow2(logLen + 1) - Pow2(logLen - h + 1) <= p < Pow2(logLen + 1) - 1
    ensures h <= h' && IsNode(logLen, h', k') && Pos(logLen, h', k') == p
    decreases logLen - h
  {
    Pow2Mono(logLen - h + 1, logLen + 1);
    var k := p - (Pow2(logLen + 1) - Pow2(logLen - h + 1));
    if k < Pow2(logLen - h) {
      h', k' := h, k;
    } else {
      h', k' := PosSurjective(logLen, p, h + 1);
    }
  }

  /** Node (h', k') lies in the subtree rooted at (h, k), at the root or below. */
  predicate InSubtree(h: nat, k: nat, h': nat, k': nat) {
    h' <= h && Up(k, h - h') <= k' < Up(k + 1, h - h')
  }

  /** A subtree is its root and the subtrees of the root's two children, which share no node. */
  lemma SubtreeSplits(h: nat, k: nat, h': nat, k': nat)
    requires h > 0
    ensures InSubtree(h, k, h', k') <==>
      (|| (h' == h && k' == k) || InSubtree(h - 1, 2 * k, h', k') || InSubtree(h - 1, 2 * k + 1, h', k'))
    ensures !(InSubtree(h - 1, 2 * k, h', k') && InSubtree(h - 1, 2 * k + 1, h', k'))
  {
    if h' < h {
      var n := h - 1 - h';
      UpDouble(k, n);
      UpDouble(k + 1, n);
      UpDouble(2 * k, n);
      UpDouble(2 * k + 1, n);
    }
  }

  lemma {:induction false} UpMono(x: nat, y: nat, n: nat)
    requires x <= y
    ensures Up(x, n) <= Up(y, n)
  {
    if n > 0 {
      UpMono(x, y, n - 1);
    }
  }

  lemma SubtreeNodesExist(logLen: nat, h: nat, k: nat, h': nat, k': nat)
    requires IsNode(logLen, h, k) && InSubtree(h, k, h', k')
    ensures IsNode(logLen, h', k')
  {
    UpMono(k + 1, Pow2(logLen - h), h - h');
    UpValue(Pow2(logLen - h), h - h');
    Pow2Add(logLen - h, h - h');
  }

  // ---- The buffer while the tree is being built: a slot is None until it is written. ----

  ghost predicate LeavesWritten<D>(leaves: seq<D>, logLen: nat, s: seq<Option<D>>)
    requires |leaves| == Pow2(logLen) && |s| == Pow2(logLen + 1) - 1
  {
    forall i :: 0 <= i < |leaves| ==> s[i] == Some(leaves[i])
  }

  /** How far the subtree at (h, k) has been built: every layer below `depth`, and the first `i`
      nodes of layer `depth`, hold their digests; every other inner node is unwritten. */
  ghost predicate Progress<D>(compress: (D, D) -> D, leaves: seq<D>, logLen: nat, h: nat, k: nat,
                              depth: nat, i: nat, s: seq<Option<D>>)
    requires |leaves| == Pow2(logLen) && |s| == Pow2(logLen + 1) - 1 && depth <= h + 1
  {
    forall h': nat, k': nat {:trigger Pos(logLen, h', k')} ::
      h' > 0 && IsNode(logLen, h', k') && InSubtree(h, k, h', k') ==>
      s[Pos(logLen, h', k')] ==
        if h' < depth || (h' == depth && k' < Up(k, h - depth) + i)
        then Some(Digest(compress, leaves, logLen, h', k')) else None
  }

  ghost predicate Untouched<D>(compress: (D, D) -> D, leaves: seq<D>, logLen: nat, h: nat, k: nat, s: seq<Option<D>>)
    requires |leaves| == Pow2(logLen) && |s| == Pow2(logLen + 1) - 1
  {
    Progress(compress, leaves, logLen, h, k, 0, 0, s)
  }

  ghost predicate Built<D>(compress: (D, D) -> D, leaves: seq<D>, logLen: nat, h: nat, k: nat, s: seq<Option<D>>)
    requires |leaves| == Pow2(logLen) && |s| == Pow2(logLen + 1) - 1
  {
    Progress(compress, leaves, logLen, h, k, h + 1, 0, s)
  }

  /** No slot outside the inner nodes of the subtree differs between the two buffers. */
  ghost predicate SameOutside<D>(logLen: nat, h: nat, k: nat, s: seq<Option<D>>, t: seq<Option<D>>)
    requires |s| == |t| == Pow2(logLen + 1) - 1
  {
    forall h': nat, k': nat {:trigger Pos(logLen, h', k')} ::
      IsNode(logLen, h', k') && !(h' > 0 && InSubtree(h, k, h', k')) ==>
      s[Pos(logLen, h', k')] == t[Pos(logLen, h', k')]
  }

  /** A layer that is wholly written is the next layer not yet begun. */
  lemma LayerDone<D>(compress: (D, D) -> D, leaves: seq<D>, logLen: nat, h: nat, k: nat, depth: nat, s: seq<Option<D>>)
    requires |leaves| == Pow2(logLen) && |s| == Pow2(logLen + 1) - 1 && 0 < depth <= h <= logLen
    requires Progress(compress, leaves, logLen, h, k, depth, Pow2(h - depth), s)
    ensures Progress(compress, leaves, logLen, h, k, depth + 1, 0, s)
  {
    UpDouble(k, h - depth);
    forall h': nat, k': nat | h' > 0 && IsNode(logLen, h', k') && InSubtree(h, k, h', k')
      ensures s[Pos(logLen, h', k')] ==
        if h' < depth + 1 || (h' == depth + 1 && depth < h && k' < Up(k, h - depth - 1))
        then Some(Digest(compress, leaves, logLen, h', k')) else None
    {
    }
  }

  lemma LayerBegun<D>(compress: (D, D) -> D, leaves: seq<D>, logLen: nat, h: nat, k: nat, s: seq<Option<D>>)
    requires |leaves| == Pow2(logLen) && |s| == Pow2(logLen + 1) - 1 && h <= logLen
    requires Untouched(compress, leaves, logLen, h, k, s)
    ensures Progress(compress, leaves, logLen, h, k, 1, 0, s)
  {
  }

  /** The `i`-th node of layer `depth` of the subtree is a node, and so are its two children. */
  lemma NextNode(logLen: nat, h: nat, k: nat, depth: nat, i: nat)
    requires IsNode(logLen, h, k) && 0 < depth <= h && i < Pow2(h - depth)
    ensures var n := Up(k, h - depth) + i;
            && IsNode(logLen, depth, n) && InSubtree(h, k, depth, n)
            && IsNode(logLen, depth - 1, 2 * n) && InSubtree(h, k, depth - 1, 2 * n)
            && IsNode(logLen, depth - 1, 2 * n + 1) && InSubtree(h, k, depth - 1, 2 * n + 1)
  {
    UpDouble(k, h - depth);
    SubtreeNodesExist(logLen, h, k, depth, Up(k, h - depth) + i);
    ChildrenInSubtree(h, k, depth, Up(k, h - depth) + i);
  }

  /** The slot of the next node is unwritten, and both its children are ready to be read. */
  lemma ReadyToAdvance<D>(compress: (D, D) -> D, leaves: seq<D>, logLen: nat, h: nat, k: nat, depth: nat, i: nat,
                          s: seq<Option<D>>)
    requires |leaves| == Pow2(logLen) && |s| == Pow2(logLen + 1) - 1
    requires IsNode(logLen, h, k) && 0 < depth <= h && i < Pow2(h - depth)
    requires LeavesWritten(leaves, logLen, s) && Progress(compress, leaves, logLen, h, k, depth, i, s)
    ensures var n := Up(k, h - depth) + i;
            && IsNode(logLen, depth, n) && IsNode(logLen, depth - 1, 2 * n) && IsNode(logLen, depth - 1, 2 * n + 1)
            && s[Pos(logLen, depth, n)] == None
            && s[Pos(logLen, depth - 1, 2 * n)] == Some(Digest(compress, leaves, logLen, depth - 1, 2 * n))
            && s[Pos(logLen, depth - 1, 2 * n + 1)] == Some(Digest(compress, leaves, logLen, depth - 1, 2 * n + 1))
  {
    NextNode(logLen, h, k, depth, i);
  }

  /** Writing the next node's digest advances the build and touches nothing else. */
  lemma Advance<D>(compress: (D, D) -> D, leaves: seq<D>, logLen: nat, h: nat, k: nat, depth: nat, i: nat,
                   s: seq<Option<D>>, t: seq<Option<D>>)
    requires |leaves| == Pow2(logLen) && |s| == Pow2(logLen + 1) - 1
    requires IsNode(logLen, h, k) && 0 < depth <= h && i < Pow2(h - depth)
    requires Progress(compress, leaves, logLen, h, k, depth, i, s)
    requires IsNode(logLen, depth, Up(k, h - depth) + i)
    requires t == s[Pos(logLen, depth, Up(k, h - depth) + i) :=
                    Some(Digest(compress, leaves, logLen, depth, Up(k, h - depth) + i))]
    ensures Progress(compress, leaves, logLen, h, k, depth, i + 1, t)
    ensures SameOutside(logLen, h, k, s, t)
  {
    hide Digest, Pos, InSubtree;
    var n := Up(k, h - depth) + i;
    NextNode(logLen, h, k, depth, i);
    forall h': nat, k': nat | IsNode(logLen, h', k')
      ensures t[Pos(logLen, h', k')] ==
        if h' == depth && k' == n then Some(Digest(compress, leaves, logLen, depth, n)) else s[Pos(logLen, h', k')]
    {
      if Pos(logLen, h', k') == Pos(logLen, depth, n) {
        PosInjective(logLen, h', k', depth, n);
      }
    }
  }

  lemma ChildrenInSubtree(h: nat, k: nat, depth: nat, n: nat)
    requires 0 < depth && InSubtree(h, k, depth, n)
    ensures InSubtree(h, k, depth - 1, 2 * n) && InSubtree(h, k, depth - 1, 2 * n + 1)
  {
  }

  /** Writes a slot that nothing has written before. */
  method Write<D>(nodes: array<Option<D>>, p: nat, d: D)
    requires p < nodes.Length && nodes[p] == None
    modifies nodes
    ensures nodes[..] == old(nodes[..])[p := Some(d)]
  {
    nodes[p] := Some(d);
  }

  /** Reads a slot that has been written. */
  method Read<D>(nodes: array<Option<D>>, p: nat) returns (d: D)
    requires p < nodes.Length && nodes[p].Some?
    ensures nodes[p] == Some(d)
  {
    d := nodes[p].value;
  }

  /** Where the node spanning 2^logWidth leaves from `leavesStart` lives, past the leaf layer. */
  function NodeOffset(logLen: nat, leavesStart: nat, logWidth: nat): (p: nat)
    requires IsNode(logLen, logWidth, Hi(leavesStart, logWidth)) && logWidth > 0
    ensures Pow2(logLen) + p == Pos(logLen, logWidth, Hi(leavesStart, logWidth))
  {
    var layerDepth := logLen - logWidth;
    Pow2Mono(layerDepth + 1, logLen);
    var layerStart := Pow2(logLen) - Pow2(layerDepth + 1);
    layerStart + Hi(leavesStart, logWidth)
  }

  lemma LeavesStay<D>(leaves: seq<D>, logLen: nat, h: nat, k: nat, s: seq<Option<D>>, t: seq<Option<D>>)
    requires |leaves| == Pow2(logLen) && |s| == |t| == Pow2(logLen + 1) - 1
    requires LeavesWritten(leaves, logLen, s) && SameOutside(logLen, h, k, s, t)
    ensures LeavesWritten(leaves, logLen, t)
  {
    forall i | 0 <= i < |leaves|
      ensures t[i] == Some(leaves[i])
    {
      assert Pos(logLen, 0, i) == i;
    }
  }

  lemma OutsideTrans<D>(logLen: nat, h: nat, k: nat, s: seq<Option<D>>, t: seq<Option<D>>, u: seq<Option<D>>)
    requires |s| == |t| == |u| == Pow2(logLen + 1) - 1
    requires SameOutside(logLen, h, k, s, t) && SameOutside(logLen, h, k, t, u)
    ensures SameOutside(logLen, h, k, s, u)
  {
  }

  /** Both halves of an untouched subtree are untouched. */
  lemma HalvesUntouched<D>(compress: (D, D) -> D, leaves: seq<D>, logLen: nat, h: nat, k: nat, half: nat,
                           s: seq<Option<D>>)
    requires |leaves| == Pow2(logLen) && |s| == Pow2(logLen + 1) - 1 && 0 < h && 2 * k <= half <= 2 * k + 1
    requires Untouched(compress, leaves, logLen, h, k, s)
    ensures Untouched(compress, leaves, logLen, h - 1, half, s)
  {
    forall h': nat, k': nat | InSubtree(h - 1, half, h', k')
      ensures InSubtree(h, k, h', k')
    {
      SubtreeSplits(h, k, h', k');
    }
  }

  /** Building one half leaves the other as it was. */
  lemma OtherHalf<D>(compress: (D, D) -> D, leaves: seq<D>, logLen: nat, h: nat, k: nat, half: nat, depth: nat,
                     s: seq<Option<D>>, t: seq<Option<D>>)
    requires |leaves| == Pow2(logLen) && |s| == |t| == Pow2(logLen + 1) - 1
    requires 0 < h && 2 * k <= half <= 2 * k + 1 && depth <= h
    requires SameOutside(logLen, h - 1, half, s, t)
    requires Progress(compress, leaves, logLen, h - 1, 4 * k + 1 - half, depth, 0, s)
    ensures Progress(compress, leaves, logLen, h - 1, 4 * k + 1 - half, depth, 0, t)
  {
    var g, other := h - 1, 4 * k + 1 - half;
    forall h': nat, k': nat | InSubtree(g, other, h', k')
      ensures !InSubtree(g, half, h', k')
    {
      SubtreeSplits(h, k, h', k');
    }
  }

  /** With both halves built, only the subtree's root is missing. */
  lemma HalvesBuilt<D>(compress: (D, D) -> D, leaves: seq<D>, logLen: nat, h: nat, k: nat,
                       s: seq<Option<D>>, t: seq<Option<D>>, u: seq<Option<D>>, first: nat)
    requires |leaves| == Pow2(logLen) && |s| == |t| == |u| == Pow2(logLen + 1) - 1
    requires 0 < h && IsNode(logLen, h, k) && 2 * k <= first <= 2 * k + 1
    requires Untouched(compress, leaves, logLen, h, k, s)
    requires SameOutside(logLen, h - 1, first, s, t) && SameOutside(logLen, h - 1, 4 * k + 1 - first, t, u)
    requires Built(compress, leaves, logLen, h - 1, 2 * k, u) && Built(compress, leaves, logLen, h - 1, 2 * k + 1, u)
    ensures Progress(compress, leaves, logLen, h, k, h, 0, u)
    ensures SameOutside(logLen, h, k, s, u)
  {
    hide Digest;
    forall h': nat, k': nat | IsNode(logLen, h', k')
      ensures InSubtree(h, k, h', k') <==>
        (|| (h' == h && k' == k) || InSubtree(h - 1, 2 * k, h', k') || InSubtree(h - 1, 2 * k + 1, h', k'))
    {
      SubtreeSplits(h, k, h', k');
    }
  }

  /** Compresses one layer of a subtree, pair by pair, into the layer above it. */
  method FoldLayer<D>(nodes: array<Option<D>>, compress: (D, D) -> D, ghost leaves: seq<D>,
                      logLen: nat, h: nat, ghost k: nat, curStart: nat, outStart: nat, depth: nat)
    requires |leaves| == Pow2(logLen) && nodes.Length == Pow2(logLen + 1) - 1
    requires IsNode(logLen, h, k) && 0 < depth <= h
    requires IsNode(logLen, depth - 1, Up(k, h - depth + 1)) && curStart == Pos(logLen, depth - 1, Up(k, h - depth + 1))
    requires IsNode(logLen, depth, Up(k, h - depth)) && outStart == Pos(logLen, depth, Up(k, h - depth))
    requires LeavesWritten(leaves, logLen, nodes[..])
    requires Progress(compress, leaves, logLen, h, k, depth, 0, nodes[..])
    modifies nodes
    ensures Progress(compress, leaves, logLen, h, k, depth + 1, 0, nodes[..])
    ensures SameOutside(logLen, h, k, old(nodes[..]), nodes[..])
  {
    hide Progress, SameOutside, LeavesWritten, Digest;
    var width := Pow2(h - depth);
    SameOutsideRefl(logLen, h, k, nodes[..]);
    for i := 0 to width
      invariant Progress(compress, leaves, logLen, h, k, depth, i, nodes[..])
      invariant SameOutside(logLen, h, k, old(nodes[..]), nodes[..])
      invariant LeavesWritten(leaves, logLen, nodes[..])
    {
      ghost var s := nodes[..];
      ReadyToAdvance(compress, leaves, logLen, h, k, depth, i, s);
      ChildSlots(logLen, h, k, depth, i);
      var left := Read(nodes, curStart + 2 * i);
      var right := Read(nodes, curStart + 2 * i + 1);
      DigestOfChildren(compress, leaves, logLen, depth, Up(k, h - depth) + i);
      Write(nodes, outStart + i, compress(left, right));
      Advance(compress, leaves, logLen, h, k, depth, i, s, nodes[..]);
      OutsideTrans(logLen, h, k, old(nodes[..]), s, nodes[..]);
      LeavesStay(leaves, logLen, h, k, s, nodes[..]);
    }
    LayerDone(compress, leaves, logLen, h, k, depth, nodes[..]);
  }

  lemma SameOutsideRefl<D>(logLen: nat, h: nat, k: nat, s: seq<Option<D>>)
    requires |s| == Pow2(logLen + 1) - 1
    ensures SameOutside(logLen, h, k, s, s)
  {
  }

  lemma ChildSlots(logLen: nat, h: nat, k: nat, depth: nat, i: nat)
    requires IsNode(logLen, h, k) && 0 < depth <= h && i < Pow2(h - depth)
    ensures var n, first := Up(k, h - depth) + i, Up(k, h - depth + 1);
            && IsNode(logLen, depth, n) && IsNode(logLen, depth, Up(k, h - depth)) && IsNode(logLen, depth - 1, first)
            && IsNode(logLen, depth - 1, 2 * n) && IsNode(logLen, depth - 1, 2 * n + 1)
            && Pos(logLen, depth, n) == Pos(logLen, depth, Up(k, h - depth)) + i
            && Pos(logLen, depth - 1, 2 * n) == Pos(logLen, depth - 1, first) + 2 * i
            && Pos(logLen, depth - 1, 2 * n + 1) == Pos(logLen, depth - 1, first) + 2 * i + 1
  {
    NextNode(logLen, h, k, depth, i);
    NextNode(logLen, h, k, depth, 0);
  }

  lemma DigestOfChildren<D>(compress: (D, D) -> D, leaves: seq<D>, logLen: nat, h: nat, k: nat)
    requires |leaves| == Pow2(logLen) && 0 < h && IsNode(logLen, h, k)
    ensures IsNode(logLen, h - 1, 2 * k) && IsNode(logLen, h - 1, 2 * k + 1)
    ensures Digest(compress, leaves, logLen, h, k)
         == compress(Digest(compress, leaves, logLen, h - 1, 2 * k), Digest(compress, leaves, logLen, h - 1, 2 * k + 1))
  {
  }

  /** Folds the 2^logWidth leaves from `leavesStart` level by level, to their root. */
  method FoldSmallSubtree<D>(nodes: array<Option<D>>, compress: (D, D) -> D, ghost leaves: seq<D>,
                             logLen: nat, leavesStart: nat, logWidth: nat, ghost k: nat)
    returns (d: D)
    requires |leaves| == Pow2(logLen) && nodes.Length == Pow2(logLen + 1) - 1
    requires IsNode(logLen, logWidth, k) && leavesStart == Up(k, logWidth)
    requires LeavesWritten(leaves, logLen, nodes[..])
    requires Untouched(compress, leaves, logLen, logWidth, k, nodes[..])
    modifies nodes
    ensures d == Digest(compress, leaves, logLen, logWidth, k)
    ensures Built(compress, leaves, logLen, logWidth, k, nodes[..])
    ensures SameOutside(logLen, logWidth, k, old(nodes[..]), nodes[..])
  {
    hide Progress, SameOutside, LeavesWritten, Digest;
    var cur := leavesStart;
    LayerStart(logLen, logWidth, k, 0);
    LayerBegun(compress, leaves, logLen, logWidth, k, nodes[..]);
    SameOutsideRefl(logLen, logWidth, k, nodes[..]);
    for depth := 1 to logWidth + 1
      invariant IsNode(logLen, depth - 1, Up(k, logWidth - depth + 1))
      invariant cur == Pos(logLen, depth - 1, Up(k, logWidth - depth + 1))
      invariant Progress(compress, leaves, logLen, logWidth, k, depth, 0, nodes[..])
      invariant SameOutside(logLen, logWidth, k, old(nodes[..]), nodes[..])
      invariant LeavesWritten(leaves, logLen, nodes[..])
    {
      ghost var s := nodes[..];
      LayerStart(logLen, logWidth, k, depth);
      var out := Pow2(logLen) + NodeOffset(logLen, leavesStart, depth);
      FoldLayer(nodes, compress, leaves, logLen, logWidth, k, cur, out, depth);
      OutsideTrans(logLen, logWidth, k, old(nodes[..]), s, nodes[..]);
      LeavesStay(leaves, logLen, logWidth, k, s, nodes[..]);
      cur := out;
    }
    RootSlot(compress, leaves, logLen, logWidth, k, nodes[..]);
    d := Read(nodes, cur);
  }

  /** The first node of each layer of a subtree is the one the subtree's first leaf lies under. */
  lemma LayerStart(logLen: nat, h: nat, k: nat, depth: nat)
    requires IsNode(logLen, h, k) && depth <= h
    ensures Hi(Up(k, h), depth) == Up(k, h - depth) && IsNode(logLen, depth, Up(k, h - depth))
    ensures IsNode(logLen, 0, Up(k, h)) && Pos(logLen, 0, Up(k, h)) == Up(k, h)
  {
    UpMono(k + 1, Pow2(logLen - h), h - depth);
    UpValue(Pow2(logLen - h), h - depth);
    Pow2Add(logLen - h, h - depth);
    UpDouble(k, h - depth);
    HiUp(k, h, depth);
    SubtreeNodesExist(logLen, h, k, 0, Up(k, h)) by {
      UpDouble(k, h);
    }
  }

  lemma {:induction false} HiUp(x: nat, n: nat, d: nat)
    requires d <= n
    ensures Hi(Up(x, n), d) == Up(x, n - d)
  {
    if d > 0 {
      assert Up(x, n) / 2 == Up(x, n - 1);
      HiUp(x, n - 1, d - 1);
    }
  }

  lemma RootSlot<D>(compress: (D, D) -> D, leaves: seq<D>, logLen: nat, h: nat, k: nat, s: seq<Option<D>>)
    requires |leaves| == Pow2(logLen) && |s| == Pow2(logLen + 1) - 1 && IsNode(logLen, h, k)
    requires LeavesWritten(leaves, logLen, s) && Built(compress, leaves, logLen, h, k, s)
    ensures s[Pos(logLen, h, k)] == Some(Digest(compress, leaves, logLen, h, k))
  {
    if h == 0 {
      assert Pos(logLen, 0, k) == k;
    } else {
      assert InSubtree(h, k, h, k);
    }
  }

  /** Builds every node above the 2^logWidth leaves from `leavesStart`. Each slot is written once,
      after both its children. */
  method BuildNode<D>(nodes: array<Option<D>>, compress: (D, D) -> D, ghost leaves: seq<D>,
                      logLen: nat, leavesStart: nat, logWidth: nat, ghost k: nat)
    returns (node: D)
    requires |leaves| == Pow2(logLen) && nodes.Length == Pow2(logLen + 1) - 1
    requires IsNode(logLen, logWidth, k) && leavesStart == Up(k, logWidth)
    requires LeavesWritten(leaves, logLen, nodes[..])
    requires Untouched(compress, leaves, logLen, logWidth, k, nodes[..])
    modifies nodes
    ensures node == Digest(compress, leaves, logLen, logWidth, k)
    ensures Built(compress, leaves, logLen, logWidth, k, nodes[..])
    ensures SameOutside(logLen, logWidth, k, old(nodes[..]), nodes[..])
    decreases logWidth, 1
  {
    hide Progress, SameOutside, LeavesWritten, Digest;
    if logWidth <= SUBTREE_LOG_DEPTH {
      node := FoldSmallSubtree(nodes, compress, leaves, logLen, leavesStart, logWidth, k);
      return;
    }
    var left, right := JoinHalves(nodes, compress, leaves, logLen, leavesStart, logWidth, k);
    ghost var u := nodes[..];
    DigestOfChildren(compress, leaves, logLen, logWidth, k);
    node := compress(left, right);
    HalfNodes(logLen, logWidth, k);
    var offset := Pow2(logLen) + NodeOffset(logLen, leavesStart, logWidth);
    ReadyToAdvance(compress, leaves, logLen, logWidth, k, logWidth, 0, u);
    Write(nodes, offset, node);
    Advance(compress, leaves, logLen, logWidth, k, logWidth, 0, u, nodes[..]);
    LayerDone(compress, leaves, logLen, logWidth, k, logWidth, nodes[..]);
    OutsideTrans(logLen, logWidth, k, old(nodes[..]), u, nodes[..]);
  }

  /** The fork and join: the two halves are built in either order. */
  method JoinHalves<D>(nodes: array<Option<D>>, compress: (D, D) -> D, ghost leaves: seq<D>,
                       logLen: nat, leavesStart: nat, logWidth: nat, ghost k: nat)
    returns (left: D, right: D)
    requires |leaves| == Pow2(logLen) && nodes.Length == Pow2(logLen + 1) - 1
    requires 0 < logWidth && IsNode(logLen, logWidth, k) && leavesStart == Up(k, logWidth)
    requires LeavesWritten(leaves, logLen, nodes[..])
    requires Untouched(compress, leaves, logLen, logWidth, k, nodes[..])
    modifies nodes
    ensures IsNode(logLen, logWidth - 1, 2 * k) && left == Digest(compress, leaves, logLen, logWidth - 1, 2 * k)
    ensures IsNode(logLen, logWidth - 1, 2 * k + 1)
    ensures right == Digest(compress, leaves, logLen, logWidth - 1, 2 * k + 1)
    ensures Progress(compress, leaves, logLen, logWidth, k, logWidth, 0, nodes[..])
    ensures LeavesWritten(leaves, logLen, nodes[..])
    ensures SameOutside(logLen, logWidth, k, old(nodes[..]), nodes[..])
    decreases logWidth, 0
  {
    hide Progress, SameOutside, LeavesWritten, Digest, IsNode;
    var half := logWidth - 1;
    var mid := leavesStart + Pow2(half);
    HalfNodes(logLen, logWidth, k);
    ghost var s := nodes[..];
    HalvesUntouched(compress, leaves, logLen, logWidth, k, 2 * k, s);
    HalvesUntouched(compress, leaves, logLen, logWidth, k, 2 * k + 1, s);
    if * {
      left := BuildNode(nodes, compress, leaves, logLen, leavesStart, half, 2 * k);
      ghost var t := nodes[..];
      LeavesStay(leaves, logLen, half, 2 * k, s, t);
      OtherHalf(compress, leaves, logLen, logWidth, k, 2 * k, 0, s, t);
      right := BuildNode(nodes, compress, leaves, logLen, mid, half, 2 * k + 1);
      LeavesStay(leaves, logLen, half, 2 * k + 1, t, nodes[..]);
      OtherHalf(compress, leaves, logLen, logWidth, k, 2 * k + 1, logWidth, t, nodes[..]);
      HalvesBuilt(compress, leaves, logLen, logWidth, k, s, t, nodes[..], 2 * k);
    } else {
      right := BuildNode(nodes, compress, leaves, logLen, mid, half, 2 * k + 1);
      ghost var t := nodes[..];
      LeavesStay(leaves, logLen, half, 2 * k + 1, s, t);
      OtherHalf(compress, leaves, logLen, logWidth, k, 2 * k + 1, 0, s, t);
      left := BuildNode(nodes, compress, leaves, logLen, leavesStart, half, 2 * k);
      LeavesStay(leaves, logLen, half, 2 * k, t, nodes[..]);
      OtherHalf(compress, leaves, logLen, logWidth, k, 2 * k, logWidth, t, nodes[..]);
      HalvesBuilt(compress, leaves, logLen, logWidth, k, s, t, nodes[..], 2 * k + 1);
    }
  }

  lemma HalfNodes(logLen: nat, h: nat, k: nat)
    requires 0 < h && IsNode(logLen, h, k)
    ensures IsNode(logLen, h - 1, 2 * k) && IsNode(logLen, h - 1, 2 * k + 1)
    ensures Up(2 * k, h - 1) == Up(k, h) && Up(2 * k + 1, h - 1) == Up(k, h) + Pow2(h - 1)
    ensures Hi(Up(k, h), h) == k
  {
    UpDouble(k, h - 1);
    UpDouble(2 * k, h - 1);
    UpDouble(k, h);
  }

  lemma LeafDigest<D>(compress: (D, D) -> D, leaves: seq<D>, logLen: nat, i: nat)
    requires |leaves| == Pow2(logLen) && i < |leaves|
    ensures Digest(compress, leaves, logLen, 0, i) == leaves[i]
  {
  }
}
