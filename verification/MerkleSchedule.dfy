/** The parallel build, as the set of orders in which its tasks may write nodes. Forked halves may
    interleave in any way; every order writes each node once, after its children, and leaves the
    same digests. */
module MerkleSchedule {
  import opened Options
  import opened Bits
  import opened MerkleTree

  /** Node `k` of height `h`. */
  datatype Node = Node(h: nat, k: nat) {
    function Left(): Node
      requires h > 0
    {
      Node(h - 1, 2 * k)
    }

    function Right(): Node
      requires h > 0
    {
      Node(h - 1, 2 * k + 1)
    }
  }

  /** The nodes the job of subtree (h, k) must write: its inner nodes. */
  ghost predicate Owns(h: nat, k: nat, n: Node) {
    n.h > 0 && InSubtree(h, k, n.h, n.k)
  }

  ghost predicate NoRepeats(t: seq<Node>) {
    forall i, j :: 0 <= i < j < |t| ==> t[i] != t[j]
  }

  ghost predicate LevelByLevel(t: seq<Node>) {
    forall i, j :: 0 <= i < j < |t| ==> t[i].h <= t[j].h
  }

  /** `m` merges `l` and `r`, keeping the order within each. */
  ghost predicate Interleaving(l: seq<Node>, r: seq<Node>, m: seq<Node>) {
    if m == [] then l == [] && r == []
    else
      || (l != [] && m[0] == l[0] && Interleaving(l[1..], r, m[1..]))
      || (r != [] && m[0] == r[0] && Interleaving(l, r[1..], m[1..]))
  }

  /** `t` is an order in which the job of subtree (h, k) may perform its writes: a small subtree
      goes level by level, in any order within a level; a large one runs its two halves
      concurrently and then writes its root. */
  ghost predicate TaskOrder(h: nat, k: nat, t: seq<Node>) {
    if h <= SUBTREE_LOG_DEPTH then
      NoRepeats(t) && LevelByLevel(t) && forall n :: n in t <==> Owns(h, k, n)
    else
      exists l, r, m :: t == m + [Node(h, k)] && Interleaving(l, r, m)
        && TaskOrder(h - 1, 2 * k, l) && TaskOrder(h - 1, 2 * k + 1, r)
  }

  /** What one side contributes to a merge whose elements are labelled by their side. */
  function Picked(m: seq<Node>, labels: seq<bool>, side: bool): seq<Node>
    requires |labels| == |m|
  {
    if m == [] then []
    else (if labels[0] == side then [m[0]] else []) + Picked(m[1..], labels[1..], side)
  }

  lemma {:induction false} PickedInterleaves(m: seq<Node>, labels: seq<bool>)
    requires |labels| == |m|
    ensures Interleaving(Picked(m, labels, true), Picked(m, labels, false), m)
  {
    if m != [] {
      PickedInterleaves(m[1..], labels[1..]);
      var l, r := Picked(m, labels, true), Picked(m, labels, false);
      if labels[0] {
        assert l[1..] == Picked(m[1..], labels[1..], true) && r == Picked(m[1..], labels[1..], false);
      } else {
        assert r[1..] == Picked(m[1..], labels[1..], false) && l == Picked(m[1..], labels[1..], true);
      }
    }
  }

  /** Every merge counts, and nothing else: one interleaves two orders if and only if its elements can be
      labelled so that the two sides are the two orders. */
  lemma {:induction false} InterleavingIff(l: seq<Node>, r: seq<Node>, m: seq<Node>)
    ensures Interleaving(l, r, m) <==>
      exists labels: seq<bool> {:trigger Picked(m, labels, true)} ::
        |labels| == |m| && Picked(m, labels, true) == l && Picked(m, labels, false) == r
  {
    if Interleaving(l, r, m) {
      var labels := Labels(l, r, m);
      assert Picked(m, labels, true) == l;
    }
    if labels: seq<bool> :| |labels| == |m| && Picked(m, labels, true) == l && Picked(m, labels, false) == r {
      PickedInterleaves(m, labels);
    }
  }

  lemma {:induction false} Labels(l: seq<Node>, r: seq<Node>, m: seq<Node>) returns (labels: seq<bool>)
    requires Interleaving(l, r, m)
    ensures |labels| == |m| && Picked(m, labels, true) == l && Picked(m, labels, false) == r
  {
    if m == [] {
      labels := [];
    } else if l != [] && m[0] == l[0] && Interleaving(l[1..], r, m[1..]) {
      var rest := Labels(l[1..], r, m[1..]);
      labels := [true] + rest;
      assert labels[1..] == rest && l == [l[0]] + l[1..];
    } else {
      var rest := Labels(l, r[1..], m[1..]);
      labels := [false] + rest;
      assert labels[1..] == rest && r == [r[0]] + r[1..];
    }
  }

  /** A large subtree may take any merge of any orders of its halves, whatever the labels. */
  lemma {:induction false} EveryMergeIsAnOrder(h: nat, k: nat, m: seq<Node>, labels: seq<bool>)
    requires h > SUBTREE_LOG_DEPTH && |labels| == |m|
    requires TaskOrder(h - 1, 2 * k, Picked(m, labels, true))
    requires TaskOrder(h - 1, 2 * k + 1, Picked(m, labels, false))
    ensures TaskOrder(h, k, m + [Node(h, k)])
  {
    PickedInterleaves(m, labels);
  }

  // ---- Running an order of writes over a memory of written nodes. ----

  /** One write. It fails when the node was written before, or a child was not. */
  function WriteNode<D>(compress: (D, D) -> D, mem: map<Node, D>, n: Node): Option<map<Node, D>> {
    if n.h == 0 || n in mem then None
    else
      if n.Left() !in mem || n.Right() !in mem then None
      else Some(mem[n := compress(mem[n.Left()], mem[n.Right()])])
  }

  function Run<D>(compress: (D, D) -> D, mem: map<Node, D>, t: seq<Node>): Option<map<Node, D>>
    decreases |t|
  {
    if t == [] then Some(mem)
    else
      var next := WriteNode(compress, mem, t[0]);
      if next == None then None else Run(compress, next.value, t[1..])
  }

  /** Every write of `t` finds its children written and its own slot not, starting from `done`. */
  ghost predicate Ordered(done: set<Node>, t: seq<Node>)
    decreases |t|
  {
    t == [] ||
    (&& t[0].h > 0 && t[0] !in done
     && t[0].Left() in done && t[0].Right() in done
     && Ordered(done + {t[0]}, t[1..]))
  }

  /** Extra nodes written elsewhere do not disturb an order that does not write them. */
  lemma {:induction false} OrderedMore(done: set<Node>, extra: set<Node>, t: seq<Node>)
    requires Ordered(done, t) && forall n :: n in t ==> n !in extra
    ensures Ordered(done + extra, t)
    decreases |t|
  {
    if t != [] {
      OrderedMore(done + {t[0]}, extra, t[1..]);
      assert done + {t[0]} + extra == done + extra + {t[0]};
    }
  }

  lemma {:induction false} OrderedAppend(done: set<Node>, t: seq<Node>, n: Node)
    requires Ordered(done, t) && n.h > 0 && n !in done && n !in t
    requires (n.Left() in done || n.Left() in t) && (n.Right() in done || n.Right() in t)
    ensures Ordered(done, t + [n])
    decreases |t|
  {
    if t == [] {
      assert (t + [n])[1..] == [];
    } else {
      OrderedAppend(done + {t[0]}, t[1..], n);
      assert (t + [n])[1..] == t[1..] + [n];
    }
  }

  lemma {:induction false} InterleavingMembers(l: seq<Node>, r: seq<Node>, m: seq<Node>)
    requires Interleaving(l, r, m)
    ensures forall n :: n in m <==> n in l || n in r
  {
    if m != [] {
      assert m == [m[0]] + m[1..];
      if l != [] && m[0] == l[0] && Interleaving(l[1..], r, m[1..]) {
        assert l == [l[0]] + l[1..];
        InterleavingMembers(l[1..], r, m[1..]);
      } else {
        assert r == [r[0]] + r[1..];
        InterleavingMembers(l, r[1..], m[1..]);
      }
    }
  }

  /** Any interleaving of two orders over disjoint nodes is again an order. */
  lemma {:induction false} InterleavingOrdered(done: set<Node>, l: seq<Node>, r: seq<Node>, m: seq<Node>)
    requires Interleaving(l, r, m) && Ordered(done, l) && Ordered(done, r)
    requires forall n :: n in l ==> n !in r
    ensures Ordered(done, m)
    decreases |m|
  {
    if m != [] {
      if l != [] && m[0] == l[0] && Interleaving(l[1..], r, m[1..]) {
        OrderedMore(done, {l[0]}, r);
        InterleavingOrdered(done + {l[0]}, l[1..], r, m[1..]);
      } else {
        OrderedMore(done, {r[0]}, l);
        InterleavingOrdered(done + {r[0]}, l, r[1..], m[1..]);
      }
    }
  }

  /** Every node of `t` is unwritten, and each child is either written or written by `t`. */
  ghost predicate Closed(done: set<Node>, t: seq<Node>) {
    forall n :: n in t ==>
      (&& n.h > 0 && n !in done
       && (n.Left() in done || n.Left() in t) && (n.Right() in done || n.Right() in t))
  }

  lemma ClosedTail(done: set<Node>, t: seq<Node>)
    requires t != [] && NoRepeats(t) && Closed(done, t)
    ensures Closed(done + {t[0]}, t[1..])
  {
    forall n | n in t[1..]
      ensures n in t && n != t[0]
    {
    }
    forall c | c in t
      ensures c == t[0] || c in t[1..]
    {
    }
  }

  /** Writing level by level never gets ahead of the children. */
  lemma {:induction false} LevelsOrdered(done: set<Node>, t: seq<Node>)
    requires NoRepeats(t) && LevelByLevel(t) && Closed(done, t)
    ensures Ordered(done, t)
    decreases |t|
  {
    if t != [] {
      assert t[0] in t;
      ClosedTail(done, t);
      LevelsOrdered(done + {t[0]}, t[1..]);
    }
  }

  lemma ChildrenOwned(h: nat, k: nat, n: Node)
    requires Owns(h, k, n)
    ensures InSubtree(h, k, n.h - 1, 2 * n.k) && InSubtree(h, k, n.h - 1, 2 * n.k + 1)
  {
    ChildrenInSubtree(h, k, n.h, n.k);
  }

  /** Every order of a task writes exactly the nodes it owns. */
  lemma {:induction false} TaskWrites(h: nat, k: nat, t: seq<Node>)
    requires TaskOrder(h, k, t)
    ensures forall n :: n in t <==> Owns(h, k, n)
  {
    if h > SUBTREE_LOG_DEPTH {
      var l, r, m :| t == m + [Node(h, k)] && Interleaving(l, r, m)
        && TaskOrder(h - 1, 2 * k, l) && TaskOrder(h - 1, 2 * k + 1, r);
      TaskWrites(h - 1, 2 * k, l);
      TaskWrites(h - 1, 2 * k + 1, r);
      InterleavingMembers(l, r, m);
      forall n
        ensures n in t <==> Owns(h, k, n)
      {
        SubtreeSplits(h, k, n.h, n.k);
      }
    }
  }

  lemma {:induction false} TaskHalves(h: nat, k: nat, t: seq<Node>) returns (l: seq<Node>, r: seq<Node>, m: seq<Node>)
    requires h > SUBTREE_LOG_DEPTH && TaskOrder(h, k, t)
    ensures t == m + [Node(h, k)] && Interleaving(l, r, m)
    ensures TaskOrder(h - 1, 2 * k, l) && TaskOrder(h - 1, 2 * k + 1, r)
  {
    l, r, m :| t == m + [Node(h, k)] && Interleaving(l, r, m)
      && TaskOrder(h - 1, 2 * k, l) && TaskOrder(h - 1, 2 * k + 1, r);
  }

  /** Every order of a task finds the children of each node written and the node itself not, given
      its leaves and a memory that has none of the nodes it owns. */
  lemma {:induction false} TaskOrdered(h: nat, k: nat, t: seq<Node>, done: set<Node>)
    requires TaskOrder(h, k, t)
    requires forall i: nat :: InSubtree(h, k, 0, i) ==> Node(0, i) in done
    requires forall n :: Owns(h, k, n) ==> n !in done
    ensures Ordered(done, t)
  {
    hide InSubtree, Interleaving, Ordered, Owns, TaskOrder;
    if h <= SUBTREE_LOG_DEPTH {
      SmallTaskOrdered(h, k, t, done);
    } else {
      var l, r, m := TaskHalves(h, k, t);
      HalvesOwned(h, k, h - 1, 2 * k, 2 * k + 1);
      TaskWrites(h - 1, 2 * k, l);
      TaskWrites(h - 1, 2 * k + 1, r);
      TaskOrdered(h - 1, 2 * k, l, done);
      TaskOrdered(h - 1, 2 * k + 1, r, done);
      JoinOrdered(h, k, l, r, m, done);
    }
  }

  /** Two halves in order, in any interleaving, then the node above them. */
  lemma {:induction false} JoinOrdered(h: nat, k: nat, l: seq<Node>, r: seq<Node>, m: seq<Node>, done: set<Node>)
    requires h > 1 && Interleaving(l, r, m) && Ordered(done, l) && Ordered(done, r)
    requires forall n :: n in l ==> n !in r && n != Node(h, k)
    requires forall n :: n in r ==> n != Node(h, k)
    requires Node(h, k) !in done && Node(h, k).Left() in l && Node(h, k).Right() in r
    ensures Ordered(done, m + [Node(h, k)])
  {
    hide Interleaving, Ordered;
    InterleavingOrdered(done, l, r, m);
    InterleavingMembers(l, r, m);
    OrderedAppend(done, m, Node(h, k));
  }

  lemma {:induction false} SmallTaskOrdered(h: nat, k: nat, t: seq<Node>, done: set<Node>)
    requires h <= SUBTREE_LOG_DEPTH && TaskOrder(h, k, t)
    requires forall i: nat :: InSubtree(h, k, 0, i) ==> Node(0, i) in done
    requires forall n :: Owns(h, k, n) ==> n !in done
    ensures Ordered(done, t)
  {
    hide InSubtree, Ordered;
    forall n | n in t
      ensures n.Left() in done || n.Left() in t
      ensures n.Right() in done || n.Right() in t
    {
      ChildrenOwned(h, k, n);
    }
    LevelsOrdered(done, t);
  }

  /** The two halves of a large subtree own disjoint nodes, and their roots are the root's children. */
  lemma HalvesOwned(h: nat, k: nat, g: nat, l: nat, r: nat)
    requires h > 1 && g == h - 1 && l == 2 * k && r == 2 * k + 1
    ensures forall n :: Owns(g, l, n) || Owns(g, r, n) ==> Owns(h, k, n) && n != Node(h, k)
    ensures forall n :: Owns(g, l, n) ==> !Owns(g, r, n)
    ensures forall i: nat :: InSubtree(g, l, 0, i) || InSubtree(g, r, 0, i) ==> InSubtree(h, k, 0, i)
    ensures Owns(g, l, Node(h, k).Left()) && Owns(g, r, Node(h, k).Right())
    ensures Owns(h, k, Node(h, k))
  {
    forall n | Owns(g, l, n) || Owns(g, r, n)
      ensures Owns(h, k, n) && n != Node(h, k)
      ensures !(Owns(g, l, n) && Owns(g, r, n))
    {
      SubtreeSplits(h, k, n.h, n.k);
    }
    forall i: nat | InSubtree(g, l, 0, i) || InSubtree(g, r, 0, i)
      ensures InSubtree(h, k, 0, i)
    {
      SubtreeSplits(h, k, 0, i);
    }
  }

  /** Every written node holds its digest. */
  ghost predicate Sound<D>(compress: (D, D) -> D, leaves: seq<D>, logLen: nat, mem: map<Node, D>)
    requires |leaves| == Pow2(logLen)
  {
    forall n :: n in mem ==> IsNode(logLen, n.h, n.k) && mem[n] == Digest(compress, leaves, logLen, n.h, n.k)
  }

  lemma {:induction false} OrderedRuns<D>(compress: (D, D) -> D, leaves: seq<D>, logLen: nat, mem: map<Node, D>,
                                          t: seq<Node>)
    requires |leaves| == Pow2(logLen) && Sound(compress, leaves, logLen, mem) && Ordered(mem.Keys, t)
    requires forall n :: n in t ==> IsNode(logLen, n.h, n.k)
    ensures Run(compress, mem, t).Some? && Sound(compress, leaves, logLen, Run(compress, mem, t).value)
    ensures forall n :: n in Run(compress, mem, t).value <==> n in mem || n in t
    decreases |t|
  {
    if t != [] {
      assert t[0] in t;
      DigestOfChildren(compress, leaves, logLen, t[0].h, t[0].k);
      var next := WriteNode(compress, mem, t[0]).value;
      assert next.Keys == mem.Keys + {t[0]};
      OrderedRuns(compress, leaves, logLen, next, t[1..]);
    }
  }

  lemma WholeTree(logLen: nat, h: nat, k: nat)
    ensures InSubtree(logLen, 0, h, k) <==> IsNode(logLen, h, k)
  {
    if h <= logLen {
      UpValue(0, logLen - h);
      UpValue(1, logLen - h);
    }
  }

  function LeafLayer<D>(leaves: seq<D>): map<Node, D> {
    map n: Node | n in (set i | 0 <= i < |leaves| :: Node(0, i)) :: leaves[n.k]
  }

  /** Whatever the interleaving, the parallel build reads nothing unwritten, writes no node twice,
      and ends with exactly the nodes of the tree written, each holding its digest. */
  lemma AnyInterleavingBuildsTree<D>(compress: (D, D) -> D, leaves: seq<D>, logLen: nat, t: seq<Node>)
    requires |leaves| == Pow2(logLen) && TaskOrder(logLen, 0, t)
    ensures NoRepeats(t)
    ensures var run := Run(compress, LeafLayer(leaves), t);
            && run.Some? && Sound(compress, leaves, logLen, run.value)
            && forall n :: n in run.value <==> IsNode(logLen, n.h, n.k)
  {
    hide Digest, InSubtree;
    var mem := LeafLayer(leaves);
    forall h: nat, k: nat
      ensures InSubtree(logLen, 0, h, k) <==> IsNode(logLen, h, k)
    {
      WholeTree(logLen, h, k);
    }
    forall n | n in mem
      ensures IsNode(logLen, n.h, n.k) && mem[n] == Digest(compress, leaves, logLen, n.h, n.k)
    {
      LeafDigest(compress, leaves, logLen, n.k);
    }
    TaskWrites(logLen, 0, t);
    TaskOrdered(logLen, 0, t, mem.Keys);
    OrderedNoRepeats(mem.Keys, t);
    OrderedRuns(compress, leaves, logLen, mem, t);
  }

  lemma {:induction false} OrderedNoRepeats(done: set<Node>, t: seq<Node>)
    requires Ordered(done, t)
    ensures NoRepeats(t) && forall n :: n in t ==> n !in done
    decreases |t|
  {
    if t != [] {
      OrderedNoRepeats(done + {t[0]}, t[1..]);
    }
  }

  // ---- Such an order always exists. ----

  /** The first `n` levels above the leaves of subtree (h, k), each from left to right. */
  function Levels(h: nat, k: nat, n: nat): seq<Node>
    requires n <= h
  {
    if n == 0 then [] else Levels(h, k, n - 1) + seq(Pow2(h - n), i requires 0 <= i => Node(n, Up(k, h - n) + i))
  }

  lemma {:induction false} LevelsMembers(h: nat, k: nat, n: nat, x: Node)
    requires n <= h
    ensures x in Levels(h, k, n) <==> 0 < x.h <= n && InSubtree(h, k, x.h, x.k)
  {
    if n > 0 {
      LevelsMembers(h, k, n - 1, x);
      UpDouble(k, h - n);
      var level := seq(Pow2(h - n), i requires 0 <= i => Node(n, Up(k, h - n) + i));
      if x.h == n && InSubtree(h, k, x.h, x.k) {
        assert level[x.k - Up(k, h - n)] == x;
      }
    }
  }

  lemma {:induction false} LevelsShape(h: nat, k: nat, n: nat)
    requires n <= h
    ensures NoRepeats(Levels(h, k, n)) && LevelByLevel(Levels(h, k, n))
  {
    if n > 0 {
      LevelsShape(h, k, n - 1);
      var before, t := Levels(h, k, n - 1), Levels(h, k, n);
      forall i, j | 0 <= i < j < |t|
        ensures t[i] != t[j] && t[i].h <= t[j].h
      {
        if i < |before| {
          assert t[i] in before;
          LevelsMembers(h, k, n - 1, t[i]);
        }
      }
    }
  }

  lemma {:induction false} OneAfterTheOther(l: seq<Node>, r: seq<Node>)
    ensures Interleaving(l, r, l + r)
    decreases |l| + |r|
  {
    if l != [] {
      OneAfterTheOther(l[1..], r);
      assert (l + r)[1..] == l[1..] + r;
    } else if r != [] {
      OneAfterTheOther([], r[1..]);
      assert l + r == r && [] + r[1..] == r[1..];
    }
  }

  /** Every task has an order: the sequential one. */
  lemma {:induction false} SequentialOrder(h: nat, k: nat) returns (t: seq<Node>)
    ensures TaskOrder(h, k, t)
    decreases h
  {
    if h <= SUBTREE_LOG_DEPTH {
      t := Levels(h, k, h);
      LevelsShape(h, k, h);
      forall n
        ensures n in t <==> Owns(h, k, n)
      {
        LevelsMembers(h, k, h, n);
      }
    } else {
      var l := SequentialOrder(h - 1, 2 * k);
      var r := SequentialOrder(h - 1, 2 * k + 1);
      OneAfterTheOther(l, r);
      t := (l + r) + [Node(h, k)];
    }
  }
}
