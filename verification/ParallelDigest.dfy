/** Hashing every leaf of a vector, in batches of lanes or one by one, in whatever order the batches
    are scheduled and whichever worker's buffers they find. */
module ParallelDigest {
  import opened Bits
  import opened Bytes
  import opened MerkleBranch
  import HashBuffer
  import opened BlakeLanes

  /** A leaf is the items that are serialized into it. */
  type Leaf = seq<ByteString>

  /** The lane buffers of a batch once its leaves are serialized; lanes past its end keep what they
      held. */
  function Refilled(buffers: seq<ByteString>, batch: seq<Leaf>): (filled: seq<ByteString>)
    ensures |filled| == |buffers|
  {
    seq(|buffers|, i requires 0 <= i < |buffers| => if i < |batch| then Flatten(batch[i]) else buffers[i])
  }

  method Serialize(buffers: seq<ByteString>, batch: seq<Leaf>) returns (filled: seq<ByteString>)
    requires |batch| <= |buffers|
    ensures filled == Refilled(buffers, batch)
  {
    filled := buffers;
    for i := 0 to |batch|
      invariant |filled| == |buffers|
      invariant forall j :: 0 <= j < i ==> filled[j] == Flatten(batch[j])
      invariant forall j :: i <= j < |buffers| ==> filled[j] == buffers[j]
    {
      var buf: ByteString := [];
      for k := 0 to |batch[i]|
        invariant buf + Flatten(batch[i][k..]) == Flatten(batch[i])
      {
        assert batch[i][k..][1..] == batch[i][k + 1..];
        assert buf + (batch[i][k] + Flatten(batch[i][k + 1..])) == (buf + batch[i][k]) + Flatten(batch[i][k + 1..]);
        buf := buf + batch[i][k];
      }
      filled := filled[i := buf];
    }
  }

  /** One batch: every leaf as long as the longest lane, stale lanes included, gets its own digest. */
  method DigestBatch<CV>(kernel: Kernel<CV>, buffers: seq<ByteString>, batch: seq<Leaf>)
    returns (filled: seq<ByteString>, digests: seq<CV>)
    requires 0 < |batch| <= |buffers|
    ensures filled == Refilled(buffers, batch) && |digests| == |buffers|
    ensures forall i :: 0 <= i < |batch| && |Flatten(batch[i])| == MaxLen(filled) ==>
              digests[i] == kernel.ChunkDigest(Flatten(batch[i]))
  {
    hide kernel.ChunkDigest, Flatten;
    var hasher := new Lanes(|buffers|, kernel);
    filled := Serialize(buffers, batch);
    ghost var empty: seq<ByteString> := seq(|buffers|, _ => []);
    hasher.Update(filled, empty);
    assert forall i :: 0 <= i < |batch| ==> empty[i] + filled[i] == filled[i];
    if |batch| == |buffers| {
      digests := hasher.FinalizeReset(filled);
    } else {
      digests := hasher.WriteRoot(filled);
    }
  }

  // ---- The schedule. ----

  /** The schedule runs every batch once, and nothing else. */
  ghost predicate Covers(order: seq<nat>, count: nat) {
    && (forall k :: 0 <= k < |order| ==> order[k] < count)
    && (forall b: nat :: b < count ==> b in order)
    && (forall k, l :: 0 <= k < l < |order| ==> order[k] != order[l])
  }

  /** Running the batches in order is such a schedule. */
  lemma InOrderCovers(count: nat)
    ensures Covers(seq(count, b requires 0 <= b < count => b), count)
  {
    var order := seq(count, b requires 0 <= b < count => b);
    forall b: nat | b < count
      ensures b in order
    {
      assert order[b] == b;
    }
  }

  function BatchCount(leaves: nat, lanes: nat): (count: nat)
    requires lanes > 0
    ensures count * lanes >= leaves
    ensures count > 0 ==> (count - 1) * lanes < leaves
  {
    (leaves + lanes - 1) / lanes
  }

  /** Where batch `b` starts. */
  function BatchFrom(b: nat, lanes: nat): nat {
    b * lanes
  }

  /** Leaf `i` is one of batch `b`. */
  predicate IsOf(i: nat, b: nat, lanes: nat) {
    BatchFrom(b, lanes) <= i < BatchFrom(b, lanes) + lanes
  }

  /** Where batch `b` ends. */
  function BatchEnd(leaves: nat, lanes: nat, b: nat): (end: nat)
    requires lanes > 0 && b < BatchCount(leaves, lanes)
    ensures BatchFrom(b, lanes) < end <= leaves && end <= BatchFrom(b, lanes) + lanes
    ensures end < leaves ==> end == BatchFrom(b, lanes) + lanes
  {
    BatchStart(b, BatchCount(leaves, lanes), lanes, leaves);
    if BatchFrom(b, lanes) + lanes < leaves then BatchFrom(b, lanes) + lanes else leaves
  }

  function Batch(leaves: seq<Leaf>, lanes: nat, b: nat): (batch: seq<Leaf>)
    requires lanes > 0 && b < BatchCount(|leaves|, lanes)
    ensures 0 < |batch| <= lanes
  {
    hide BatchFrom, BatchCount;
    leaves[BatchFrom(b, lanes)..BatchEnd(|leaves|, lanes, b)]
  }

  lemma BatchStart(b: nat, count: nat, lanes: nat, leaves: nat)
    requires lanes > 0 && b < count && (count - 1) * lanes < leaves
    ensures BatchFrom(b, lanes) < leaves
  {
    MulSign(lanes, count - b);
    assert lanes * (count - b) == (count - 1) * lanes - b * lanes + lanes;
  }

  /** Every leaf is of one batch, and of no other. */
  lemma {:induction false} BatchOf(i: nat, lanes: nat, leaves: nat)
    requires lanes > 0 && i < leaves
    ensures i / lanes < BatchCount(leaves, lanes) && IsOf(i, i / lanes, lanes)
  {
    var q, count := i / lanes, BatchCount(leaves, lanes);
    assert i == lanes * q + i % lanes;
    MulSign(lanes, q - count + 1);
    assert lanes * (q - count + 1) == q * lanes - count * lanes + lanes;
  }

  lemma OneBatch(i: nat, b: nat, c: nat, lanes: nat)
    requires IsOf(i, b, lanes) && IsOf(i, c, lanes)
    ensures b == c
  {
    MulSign(lanes, b - c);
    assert lanes * (b - c) == b * lanes - c * lanes;
  }

  /** Batch `order[k]` runs `k`th, on worker `workers[k]`. */
  ghost predicate Scheduled(leaves: seq<Leaf>, lanes: nat, order: seq<nat>, workers: seq<nat>) {
    && lanes > 0 && |workers| == |order|
    && forall k :: 0 <= k < |order| ==> order[k] < BatchCount(|leaves|, lanes)
  }

  /** A worker's lane buffers as its batches among the first `k` left them. */
  ghost function BuffersBefore(leaves: seq<Leaf>, lanes: nat, order: seq<nat>, workers: seq<nat>, k: nat, worker: nat):
      (buffers: seq<ByteString>)
    requires Scheduled(leaves, lanes, order, workers) && k <= |order|
    ensures |buffers| == lanes
  {
    if k == 0 then seq(lanes, _ => [])
    else
      var before := BuffersBefore(leaves, lanes, order, workers, k - 1, worker);
      if workers[k - 1] == worker then Refilled(before, Batch(leaves, lanes, order[k - 1])) else before
  }

  /** What the lanes hold when the `k`th batch is hashed. */
  ghost function LanesAt(leaves: seq<Leaf>, lanes: nat, order: seq<nat>, workers: seq<nat>, k: nat):
    (held: seq<ByteString>)
    requires Scheduled(leaves, lanes, order, workers) && k < |order|
    ensures |held| == lanes
  {
    Refilled(BuffersBefore(leaves, lanes, order, workers, k, workers[k]), Batch(leaves, lanes, order[k]))
  }

  /** Leaf `i`, hashed in the `k`th batch, is as long as the longest lane, stale ones included. */
  ghost predicate LongEnough(leaves: seq<Leaf>, lanes: nat, order: seq<nat>, workers: seq<nat>, k: nat, i: nat)
    requires Scheduled(leaves, lanes, order, workers) && k < |order| && i < |leaves|
  {
    |Flatten(leaves[i])| == MaxLen(LanesAt(leaves, lanes, order, workers, k))
  }

  /** Every leaf of the `k`th batch that was long enough has its digest. */
  ghost predicate BatchRight<CV>(kernel: Kernel<CV>, leaves: seq<Leaf>, lanes: nat, order: seq<nat>, workers: seq<nat>,
                                 out: seq<CV>, k: nat)
    requires Scheduled(leaves, lanes, order, workers) && k < |order| && |out| == |leaves|
  {
    forall i: nat :: i < |leaves| && IsOf(i, order[k], lanes) && LongEnough(leaves, lanes, order, workers, k, i) ==>
      out[i] == kernel.ChunkDigest(Flatten(leaves[i]))
  }

  // ---- Running it. ----

  /** Hashes batch `b` in a worker's buffers and writes its chunk of the output, and nothing else. */
  method RunBatch<CV>(kernel: Kernel<CV>, lanes: nat, leaves: seq<Leaf>, out: array<CV>, b: nat,
                      buffers: seq<ByteString>)
    returns (filled: seq<ByteString>)
    requires lanes > 0 && out.Length == |leaves| && b < BatchCount(|leaves|, lanes) && |buffers| == lanes
    modifies out
    ensures filled == Refilled(buffers, Batch(leaves, lanes, b))
    ensures forall i: nat :: i < out.Length && IsOf(i, b, lanes) && |Flatten(leaves[i])| == MaxLen(filled) ==>
              out[i] == kernel.ChunkDigest(Flatten(leaves[i]))
    ensures forall i: nat :: i < out.Length && !IsOf(i, b, lanes) ==> out[i] == old(out[i])
  {
    hide kernel.ChunkDigest, Flatten, Refilled, MaxLen, BatchFrom, BatchCount;
    var batch := Batch(leaves, lanes, b);
    var digests;
    filled, digests := DigestBatch(kernel, buffers, batch);
    var start, end := BatchFrom(b, lanes), BatchEnd(|leaves|, lanes, b);
    for i := start to end
      invariant forall j :: start <= j < i ==> out[j] == digests[j - start]
      invariant forall j :: 0 <= j < start || i <= j < out.Length ==> out[j] == old(out[j])
    {
      out[i] := digests[i - start];
    }
    forall i: nat | i < out.Length && IsOf(i, b, lanes) && |Flatten(leaves[i])| == MaxLen(filled)
      ensures out[i] == kernel.ChunkDigest(Flatten(leaves[i]))
    {
      assert batch[i - start] == leaves[i];
    }
  }

  /** A batch leaves the outputs of other batches alone. */
  lemma OthersStayRight<CV>(kernel: Kernel<CV>, leaves: seq<Leaf>, lanes: nat, order: seq<nat>, workers: seq<nat>,
                            before: seq<CV>, out: seq<CV>, k: nat, b: nat)
    requires Scheduled(leaves, lanes, order, workers) && k < |order| && |out| == |before| == |leaves| && order[k] != b
    requires forall i: nat :: i < |out| && !IsOf(i, b, lanes) ==> out[i] == before[i]
    requires BatchRight(kernel, leaves, lanes, order, workers, before, k)
    ensures BatchRight(kernel, leaves, lanes, order, workers, out, k)
  {
    hide kernel.ChunkDigest, LongEnough, IsOf;
    forall i: nat | i < |leaves| && IsOf(i, order[k], lanes) && LongEnough(leaves, lanes, order, workers, k, i)
      ensures out[i] == kernel.ChunkDigest(Flatten(leaves[i]))
    {
      if IsOf(i, b, lanes) {
        OneBatch(i, order[k], b, lanes);
      }
    }
  }

  /** All leaves, in batches of `lanes`, each in its worker's buffers as earlier batches left them. Every
      leaf as long as the longest lane of its batch gets its digest; if all leaves have one length, every
      leaf does. */
  method MultiDigest<CV>(kernel: Kernel<CV>, lanes: nat, leaves: seq<Leaf>, out: array<CV>, order: seq<nat>,
                         workers: seq<nat>, nWorkers: nat)
    requires lanes > 0 && out.Length == |leaves| && Covers(order, BatchCount(|leaves|, lanes))
    requires |workers| == |order| && forall k :: 0 <= k < |workers| ==> workers[k] < nWorkers
    modifies out
    ensures forall k :: 0 <= k < |order| ==> BatchRight(kernel, leaves, lanes, order, workers, out[..], k)
    ensures (forall i, j :: 0 <= i < |leaves| && 0 <= j < |leaves| ==>
               |Flatten(leaves[i])| == |Flatten(leaves[j])|) ==>
              forall i :: 0 <= i < |leaves| ==> out[i] == kernel.ChunkDigest(Flatten(leaves[i]))
  {
    hide kernel.ChunkDigest, BatchRight, Flatten, Refilled, MaxLen, IsOf, BatchCount, BatchFrom;
    var none: seq<ByteString> := seq(lanes, _ => []);
    var pool := seq(nWorkers, _ => none);
    for k := 0 to |order|
      invariant |pool| == nWorkers
      invariant forall w :: 0 <= w < nWorkers ==> pool[w] == BuffersBefore(leaves, lanes, order, workers, k, w)
      invariant forall l :: 0 <= l < k ==> BatchRight(kernel, leaves, lanes, order, workers, out[..], l)
    {
      ghost var before := out[..];
      var filled := RunBatch(kernel, lanes, leaves, out, order[k], pool[workers[k]]);
      pool := pool[workers[k] := filled];
      ThisIsRight(kernel, leaves, lanes, order, workers, out[..], k, filled);
      forall l | 0 <= l < k
        ensures BatchRight(kernel, leaves, lanes, order, workers, out[..], l)
      {
        OthersStayRight(kernel, leaves, lanes, order, workers, before, out[..], l, order[k]);
      }
    }
    if SameLengths(leaves) {
      AllRight(kernel, leaves, lanes, order, workers, out[..]);
    }
  }

  lemma ThisIsRight<CV>(kernel: Kernel<CV>, leaves: seq<Leaf>, lanes: nat, order: seq<nat>, workers: seq<nat>,
                        out: seq<CV>, k: nat, held: seq<ByteString>)
    requires Scheduled(leaves, lanes, order, workers) && k < |order| && |out| == |leaves|
    requires held == LanesAt(leaves, lanes, order, workers, k)
    requires forall i: nat :: i < |out| && IsOf(i, order[k], lanes) && |Flatten(leaves[i])| == MaxLen(held) ==>
               out[i] == kernel.ChunkDigest(Flatten(leaves[i]))
    ensures BatchRight(kernel, leaves, lanes, order, workers, out, k)
  {
    hide kernel.ChunkDigest, IsOf;
  }

  // ---- When leaves are long enough. ----

  ghost predicate SameLengths(leaves: seq<Leaf>) {
    forall i, j :: 0 <= i < |leaves| && 0 <= j < |leaves| ==> |Flatten(leaves[i])| == |Flatten(leaves[j])|
  }

  lemma MaxIs(data: seq<ByteString>, i: nat)
    requires i < |data| && forall j :: 0 <= j < |data| ==> |data[j]| <= |data[i]|
    ensures MaxLen(data) == |data[i]|
  {
  }

  /** Enough that the leaves of the batch have the leaf's length and no stale lane is longer: leaves of
      other batches may have other lengths. */
  lemma LongEnoughIf(leaves: seq<Leaf>, lanes: nat, order: seq<nat>, workers: seq<nat>, k: nat, i: nat)
    requires Scheduled(leaves, lanes, order, workers) && k < |order| && i < |leaves| && IsOf(i, order[k], lanes)
    requires forall j :: 0 <= j < |leaves| && IsOf(j, order[k], lanes) ==> |Flatten(leaves[j])| == |Flatten(leaves[i])|
    requires forall j :: |Batch(leaves, lanes, order[k])| <= j < lanes ==>
               |BuffersBefore(leaves, lanes, order, workers, k, workers[k])[j]| <= |Flatten(leaves[i])|
    ensures LongEnough(leaves, lanes, order, workers, k, i)
  {
    hide Flatten, BuffersBefore, BatchFrom, BatchCount;
    var batch, held := Batch(leaves, lanes, order[k]), LanesAt(leaves, lanes, order, workers, k);
    var start := BatchFrom(order[k], lanes);
    forall j | 0 <= j < lanes
      ensures |held[j]| <= |Flatten(leaves[i])|
    {
      if j < |batch| {
        assert batch[j] == leaves[start + j] && IsOf(start + j, order[k], lanes);
      }
    }
    assert held[i - start] == Flatten(leaves[i]);
    MaxIs(held, i - start);
  }

  /** Stale lanes hold earlier leaves, or nothing. */
  lemma {:induction false} StaleBound(leaves: seq<Leaf>, lanes: nat, order: seq<nat>, workers: seq<nat>, k: nat,
                                      worker: nat, len: nat)
    requires Scheduled(leaves, lanes, order, workers) && k <= |order|
    requires forall i :: 0 <= i < |leaves| ==> |Flatten(leaves[i])| <= len
    ensures forall j :: 0 <= j < lanes ==> |BuffersBefore(leaves, lanes, order, workers, k, worker)[j]| <= len
  {
    hide Flatten, BatchFrom, BatchCount;
    if k > 0 {
      StaleBound(leaves, lanes, order, workers, k - 1, worker, len);
      var batch := Batch(leaves, lanes, order[k - 1]);
      assert forall j :: 0 <= j < |batch| ==> batch[j] == leaves[BatchFrom(order[k - 1], lanes) + j];
    }
  }

  lemma {:induction false} AllRight<CV>(kernel: Kernel<CV>, leaves: seq<Leaf>, lanes: nat, order: seq<nat>,
                                        workers: seq<nat>, out: seq<CV>)
    requires Scheduled(leaves, lanes, order, workers) && Covers(order, BatchCount(|leaves|, lanes))
    requires SameLengths(leaves)
    requires |out| == |leaves| && forall k :: 0 <= k < |order| ==>
               BatchRight(kernel, leaves, lanes, order, workers, out, k)
    ensures forall i :: 0 <= i < |leaves| ==> out[i] == kernel.ChunkDigest(Flatten(leaves[i]))
  {
    hide kernel.ChunkDigest, IsOf, Flatten, BuffersBefore, LongEnough;
    forall i: nat | i < |leaves|
      ensures out[i] == kernel.ChunkDigest(Flatten(leaves[i]))
    {
      BatchOf(i, lanes, |leaves|);
      assert i / lanes in order;
      var k :| 0 <= k < |order| && order[k] == i / lanes;
      StaleBound(leaves, lanes, order, workers, k, workers[k], |Flatten(leaves[i])|);
      LongEnoughIf(leaves, lanes, order, workers, k, i);
      assert BatchRight(kernel, leaves, lanes, order, workers, out, k);
    }
  }

  /** All leaves, one by one, on a hasher recycled from leaf to leaf. */
  method DigestAdapter<Out>(hash: ByteString -> Out, blockSize: nat, leaves: seq<Leaf>, out: array<Out>,
                            order: seq<nat>)
    requires blockSize > 0 && out.Length == |leaves| && Covers(order, |leaves|)
    modifies out
    ensures forall i :: 0 <= i < |leaves| ==> out[i] == hash(Flatten(leaves[i]))
  {
    var hasher := new HashBuffer.Hasher(hash);
    for k := 0 to |order|
      invariant fresh(hasher) && hasher.absorbed == []
      invariant forall j :: 0 <= j < k ==> out[order[j]] == hash(Flatten(leaves[order[j]]))
    {
      HashBuffer.Absorb(hasher, blockSize, leaves[order[k]]);
      assert hasher.absorbed == Flatten(leaves[order[k]]);
      out[order[k]] := hasher.FinalizeReset();
    }
    forall i: nat | i < |leaves|
      ensures out[i] == hash(Flatten(leaves[i]))
    {
      assert i in order;
    }
  }
}
