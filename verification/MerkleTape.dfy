/** The proof tape of a Merkle-committing protocol: what a prover writes to open a commitment, what
    a verifier reads back, and what an accepted reading pins down. */
module MerkleTape {
  import opened Bits
  import opened Bytes
  import opened MerkleTree
  import opened MerkleBranch
  import opened MerkleScheme

  const MAX_GRINDING_BITS: nat := 32

  /** The hash suite, the serialized sizes of a digest and a scalar, and the challenger, which
      absorbs and squeezes one byte at a time. */
  datatype Suite<!C> = Suite(digestSize: nat, scalarSize: nat,
                             compress: (ByteString, ByteString) -> ByteString, leafHash: ByteString -> ByteString,
                             observe: (C, byte) -> C, sample: C -> (byte, C)) {
    ghost predicate Valid() {
      && digestSize > 0 && scalarSize > 0
      && (forall a, b :: |compress(a, b)| == digestSize)
      && (forall a :: |leafHash(a)| == digestSize)
    }

    function Observe(c: C, bs: ByteString): C {
      if bs == [] then c else Observe(observe(c, bs[0]), bs[1..])
    }

    function Sample(c: C, n: nat): (r: (ByteString, C))
      ensures |r.0| == n
    {
      if n == 0 then ([], c)
      else
        var (b, c') := sample(c);
        var (bs, c'') := Sample(c', n - 1);
        ([b] + bs, c'')
    }

    /** Four sampled bytes, little-endian, masked to `bits` bits (at most 32). */
    function SampleBits(c: C, bits: nat): (nat, C) {
      var (bs, c') := Sample(c, 4);
      (Lo(Pack(bs), if bits < 32 then bits else 32), c')
    }

    /** Observing this nonce makes the next `bits` sampled bits zero. */
    predicate Lands(c: C, bits: nat, nonce: nat) {
      SampleBits(Observe(c, LeBytes(nonce, 8)), bits).0 == 0
    }

    ghost predicate CanGrind(c: C, bits: nat) {
      exists nonce: nat :: nonce < 0x1_0000_0000_0000_0000 && Lands(c, bits, nonce)
    }

    /** The nonce is the first that lands. */
    ghost predicate IsNonce(c: C, bits: nat, nonce: nat) {
      nonce < 0x1_0000_0000_0000_0000 && Lands(c, bits, nonce) && forall m: nat :: m < nonce ==> !Lands(c, bits, m)
    }
  }

  /** The `n` low bytes of a number, the lowest first. */
  function LeBytes(x: nat, n: nat): (bs: ByteString)
    ensures |bs| == n
  {
    if n == 0 then [] else [x % 256] + LeBytes(x / 256, n - 1)
  }

  // ---- What the challenger absorbs and squeezes. ----

  /** Observing a string is observing its bytes, every one of them and in order. */
  lemma {:induction false} ObserveConcat<C>(suite: Suite<C>, c: C, a: ByteString, b: ByteString)
    ensures suite.Observe(c, a + b) == suite.Observe(suite.Observe(c, a), b)
  {
    if a == [] {
      assert a + b == b;
    } else {
      assert (a + b)[1..] == a[1..] + b;
      ObserveConcat(suite, suite.observe(c, a[0]), a[1..], b);
    }
  }

  lemma ObserveByte<C>(suite: Suite<C>, c: C, b: byte)
    ensures suite.Observe(c, []) == c && suite.Observe(c, [b]) == suite.observe(c, b)
  {
    assert [b][1..] == [];
  }

  /** Sampling m + n bytes is sampling m and then n. */
  lemma {:induction false} SampleConcat<C>(suite: Suite<C>, c: C, m: nat, n: nat)
    ensures var (first, c') := suite.Sample(c, m);
            var (second, c'') := suite.Sample(c', n);
            suite.Sample(c, m + n) == (first + second, c'')
  {
    if m == 0 {
      assert [] + suite.Sample(c, n).0 == suite.Sample(c, n).0;
    } else {
      var (b, c') := suite.sample(c);
      SampleConcat(suite, c', m - 1, n);
      var (first, c1) := suite.Sample(c', m - 1);
      var second := suite.Sample(c1, n).0;
      assert ([b] + first) + second == [b] + (first + second);
    }
  }

  lemma SampleByte<C>(suite: Suite<C>, c: C)
    ensures suite.Sample(c, 0) == ([], c)
    ensures suite.Sample(c, 1) == ([suite.sample(c).0], suite.sample(c).1)
  {
    var (b, c') := suite.sample(c);
    assert suite.Sample(c', 0) == ([], c');
    assert [b] + [] == [b];
  }

  /** Sampled bits are the low ones of four sampled bytes, the first byte lowest. */
  lemma {:induction false} SampledBits<C>(suite: Suite<C>, c: C, bits: nat)
    ensures var (b0, c1) := suite.sample(c);
            var (b1, c2) := suite.sample(c1);
            var (b2, c3) := suite.sample(c2);
            var (b3, c4) := suite.sample(c3);
            suite.SampleBits(c, bits)
            == ((b0 + 0x100 * b1 + 0x1_0000 * b2 + 0x100_0000 * b3) % Pow2(if bits < 32 then bits else 32), c4)
  {
    hide Pow2;
    var (b0, c1) := suite.sample(c);
    var (b1, c2) := suite.sample(c1);
    var (b2, c3) := suite.sample(c2);
    var (b3, c4) := suite.sample(c3);
    SampleByte(suite, c);
    SampleByte(suite, c1);
    SampleByte(suite, c2);
    SampleByte(suite, c3);
    SampleConcat(suite, c, 1, 1);
    SampleConcat(suite, c, 2, 1);
    SampleConcat(suite, c, 3, 1);
    assert suite.Sample(c, 2) == ([b0] + [b1], c2);
    assert suite.Sample(c, 3) == ([b0] + [b1] + [b2], c3);
    assert suite.Sample(c, 4) == ([b0] + [b1] + [b2] + [b3], c4);
    assert [b0] + [b1] + [b2] + [b3] == [b0, b1, b2, b3];
    PackedFour(b0, b1, b2, b3);
    HiLoValue(Pack([b0, b1, b2, b3]), if bits < 32 then bits else 32);
  }

  lemma PackedFour(b0: byte, b1: byte, b2: byte, b3: byte)
    ensures Pack([b0, b1, b2, b3]) == b0 + 0x100 * b1 + 0x1_0000 * b2 + 0x100_0000 * b3
  {
    var bs := [b0, b1, b2, b3];
    assert bs[1..] == [b1, b2, b3] && bs[1..][1..] == [b2, b3] && bs[1..][1..][1..] == [b3];
    assert Pack([b3]) == b3 + 256 * Pack([]) && Pack([b2, b3]) == b2 + 256 * Pack([b3]);
    assert Pack([b1, b2, b3]) == b1 + 256 * Pack([b2, b3]);
  }

  /** The bytes of a number, the lowest first, are the number cut to that many bytes. */
  lemma {:induction false} LeBytesValue(x: nat, n: nat)
    ensures Pack(LeBytes(x, n)) == x % Pow2(8 * n)
  {
    if n > 0 {
      LeBytesValue(x / 256, n - 1);
      Pow2Add(8, 8 * (n - 1));
      Pow2Values();
      SplitRemainder(x, Pow2(8 * (n - 1)));
      assert LeBytes(x, n)[1..] == LeBytes(x / 256, n - 1);
    }
  }

  lemma SplitRemainder(x: nat, p: nat)
    requires p > 0
    ensures 256 * p > 0 && x % (256 * p) == x % 256 + 256 * (x / 256 % p)
  {
    var q, r := x / 256 / p, x / 256 % p;
    assert x / 256 == p * q + r;
    assert x == 256 * p * q + (x % 256 + 256 * r);
    DivUnique(x, 256 * p, q, x % 256 + 256 * r);
  }

  // ---- The committed data. ----

  /** A committed vector: 2^depth leaves of `leafBytes` serialized bytes each. */
  datatype Committed = Committed(data: ByteString, depth: nat, leafBytes: nat) {
    predicate Valid() {
      leafBytes > 0 && |data| % leafBytes == 0 && |data| / leafBytes == Pow2(depth)
    }

    /** The bytes of leaf `index`. */
    function Leaf(index: nat): (leaf: ByteString)
      requires Valid() && index < Pow2(depth)
      ensures |leaf| == leafBytes
    {
      Chunks(data, leafBytes)[index]
    }

    function LeafDigests<C>(suite: Suite<C>): (ds: seq<ByteString>)
      requires Valid()
      ensures |ds| == Pow2(depth)
    {
      Hashes(suite.leafHash, Chunks(data, leafBytes))
    }

    function Root<C>(suite: Suite<C>): ByteString
      requires Valid()
    {
      Digest(suite.compress, LeafDigests(suite), depth, depth, 0)
    }
  }

  /** What the verifier knows of a commitment. */
  datatype Commitment = Commitment(root: ByteString, depth: nat, leafBytes: nat)

  /** Every queried index names one of `n` leaves. */
  predicate Below(indices: seq<nat>, n: nat) {
    forall k :: 0 <= k < |indices| ==> indices[k] < n
  }

  // ---- What the prover writes. ----

  function LayerDepth(depth: nat, nQueries: nat): nat {
    OptimalVerifyLayer(nQueries, depth)
  }

  lemma DepthBound(depth: nat, nQueries: nat)
    ensures LayerDepth(depth, nQueries) <= depth
  {
  }

  /** One opening: the leaf, then the siblings up to the layer. */
  function OpeningBytes<C>(suite: Suite<C>, c: Committed, layerDepth: nat, index: nat): ByteString
    requires c.Valid() && layerDepth <= c.depth && index < Pow2(c.depth)
  {
    c.Leaf(index) + Flatten(BranchOf(suite.compress, c.LeafDigests(suite), c.depth, index, layerDepth))
  }

  function OpeningsBytes<C>(suite: Suite<C>, c: Committed, layerDepth: nat, indices: seq<nat>): ByteString
    requires c.Valid() && layerDepth <= c.depth && Below(indices, Pow2(c.depth))
  {
    if indices == [] then []
    else OpeningBytes(suite, c, layerDepth, indices[0]) + OpeningsBytes(suite, c, layerDepth, indices[1..])
  }

  /** A multi-opening: one whole layer, then every opening against it. */
  function MultiOpenBytes<C>(suite: Suite<C>, c: Committed, indices: seq<nat>): ByteString
    requires c.Valid() && Below(indices, Pow2(c.depth))
  {
    var layerDepth := LayerDepth(c.depth, |indices|);
    Flatten(LayerOf(suite.compress, c.LeafDigests(suite), c.depth, layerDepth))
    + OpeningsBytes(suite, c, layerDepth, indices)
  }

  function LeafValues(c: Committed, indices: seq<nat>): ByteString
    requires c.Valid() && Below(indices, Pow2(c.depth))
  {
    if indices == [] then [] else c.Leaf(indices[0]) + LeafValues(c, indices[1..])
  }

  // ---- What the verifier reads. ----

  datatype Failure = NotEnoughBytes | InvalidProof | InsufficientWork

  /** A value read off the tape with what is left of it, or the reason it was rejected. */
  datatype Read<+T> = Got(value: T, rest: ByteString) | Failed(failure: Failure)

  function ReadBytes(tape: ByteString, n: nat): (r: Read<ByteString>)
    ensures r.Got? ==> |r.value| == n && tape == r.value + r.rest
    ensures r.Got? <==> n <= |tape|
  {
    if n <= |tape| then Got(tape[..n], tape[n..]) else Failed(NotEnoughBytes)
  }

  function ReadMany(tape: ByteString, size: nat, count: nat): (r: Read<seq<ByteString>>)
    ensures r.Got? ==> |r.value| == count && tape == Flatten(r.value) + r.rest
    ensures r.Got? ==> forall d :: d in r.value ==> |d| == size
  {
    if count == 0 then Got([], tape)
    else
      match ReadBytes(tape, size)
      case Failed(e) => Failed(e)
      case Got(first, rest) =>
        match ReadMany(rest, size, count - 1)
        case Failed(e) => Failed(e)
        case Got(others, rest') => Got([first] + others, rest')
  }

  /** An opening as read off the tape. */
  datatype Opening = Opening(leaf: ByteString, siblings: seq<ByteString>)

  /** Reads one opening and checks that its leaf climbs to the layer. */
  function ReadOpening<C>(suite: Suite<C>, c: Commitment, layerDepth: nat, layer: seq<ByteString>, index: nat,
                          tape: ByteString): (r: Read<Opening>)
    requires layerDepth <= c.depth && |layer| == Pow2(layerDepth) && index < Pow2(c.depth)
    ensures r.Got? ==> |r.value.siblings| == c.depth - layerDepth && |r.value.leaf| == c.leafBytes
  {
    match ReadBytes(tape, c.leafBytes)
    case Failed(e) => Failed(e)
    case Got(leaf, rest) =>
      match ReadMany(rest, suite.digestSize, c.depth - layerDepth)
      case Failed(e) => Failed(e)
      case Got(siblings, rest') =>
        HiBound(index, c.depth - layerDepth, c.depth);
        if Climb(suite.compress, suite.leafHash(leaf), index, siblings) == layer[Hi(index, c.depth - layerDepth)]
        then Got(Opening(leaf, siblings), rest') else Failed(InvalidProof)
  }

  function ReadOpenings<C>(suite: Suite<C>, c: Commitment, layerDepth: nat, layer: seq<ByteString>, indices: seq<nat>,
                           tape: ByteString): (r: Read<seq<Opening>>)
    requires layerDepth <= c.depth && |layer| == Pow2(layerDepth)
    requires Below(indices, Pow2(c.depth))
    ensures r.Got? ==> |r.value| == |indices|
    decreases |indices|
  {
    if indices == [] then Got([], tape)
    else
      match ReadOpening(suite, c, layerDepth, layer, indices[0], tape)
      case Failed(e) => Failed(e)
      case Got(first, rest) =>
        match ReadOpenings(suite, c, layerDepth, layer, indices[1..], rest)
        case Failed(e) => Failed(e)
        case Got(others, rest') => Got([first] + others, rest')
  }

  /** Reads the layer, checks it against the root, and reads every opening against it. */
  function ReadMultiOpen<C>(suite: Suite<C>, c: Commitment, indices: seq<nat>, tape: ByteString):
    (r: Read<(seq<ByteString>, seq<Opening>)>)
    requires Below(indices, Pow2(c.depth))
    ensures r.Got? ==> |r.value.0| == Pow2(LayerDepth(c.depth, |indices|)) && |r.value.1| == |indices|
  {
    var layerDepth := LayerDepth(c.depth, |indices|);
    match ReadMany(tape, suite.digestSize, Pow2(layerDepth))
    case Failed(e) => Failed(e)
    case Got(layer, rest) =>
      if FoldToRoot(suite.compress, layer, layerDepth) != c.root then Failed(InvalidProof)
      else
        match ReadOpenings(suite, c, layerDepth, layer, indices, rest)
        case Failed(e) => Failed(e)
        case Got(openings, rest') => Got((layer, openings), rest')
  }

  /** The leaf values of the openings, in order. */
  function Values(openings: seq<Opening>): ByteString {
    if openings == [] then [] else openings[0].leaf + Values(openings[1..])
  }

  /** Reads the whole vector and checks it by rebuilding the tree. */
  function ReadVector<C>(suite: Suite<C>, c: Commitment, tape: ByteString): Read<ByteString>
    requires c.leafBytes > 0
  {
    match ReadBytes(tape, c.leafBytes * Pow2(c.depth))
    case Failed(e) => Failed(e)
    case Got(data, rest) =>
      DivUnique(|data|, c.leafBytes, Pow2(c.depth), 0);
      if FoldToRoot(suite.compress, Hashes(suite.leafHash, Chunks(data, c.leafBytes)), c.depth) == c.root
      then Got(data, rest) else Failed(InvalidProof)
  }

  // ---- Reading back what the prover wrote. ----

  lemma {:induction false} ReadManyBack(ds: seq<ByteString>, size: nat, rest: ByteString)
    requires forall d :: d in ds ==> |d| == size
    ensures ReadMany(Flatten(ds) + rest, size, |ds|) == Got(ds, rest)
  {
    hide ReadBytes, ReadMany;
    if ds == [] {
      assert Flatten(ds) + rest == rest;
      ReadNone(rest, size);
    } else {
      var tail := Flatten(ds[1..]) + rest;
      assert Flatten(ds) + rest == ds[0] + tail;
      assert ds == [ds[0]] + ds[1..] && |ds[0]| == size;
      ReadBytesBack(ds[0], tail);
      ReadManyBack(ds[1..], size, rest);
      ReadOneMore(ds[0] + tail, size, |ds|, ds[0], tail);
    }
  }

  lemma ReadNone(tape: ByteString, size: nat)
    ensures ReadMany(tape, size, 0) == Got([], tape)
  {
  }

  lemma {:induction false} ReadOneMore(tape: ByteString, size: nat, count: nat, first: ByteString, rest: ByteString)
    requires count > 0 && ReadBytes(tape, size) == Got(first, rest) && ReadMany(rest, size, count - 1).Got?
    ensures var others := ReadMany(rest, size, count - 1);
            ReadMany(tape, size, count) == Got([first] + others.value, others.rest)
  {
    hide ReadBytes;
  }

  lemma ReadBytesBack(bs: ByteString, rest: ByteString)
    ensures ReadBytes(bs + rest, |bs|) == Got(bs, rest)
  {
    assert (bs + rest)[..|bs|] == bs && (bs + rest)[|bs|..] == rest;
  }

  lemma {:induction false} DigestSize<C>(suite: Suite<C>, leaves: seq<ByteString>, logLen: nat, h: nat, k: nat)
    requires suite.Valid() && |leaves| == Pow2(logLen) && IsNode(logLen, h, k)
    requires forall d :: d in leaves ==> |d| == suite.digestSize
    ensures |Digest(suite.compress, leaves, logLen, h, k)| == suite.digestSize
  {
    if h > 0 {
      DigestOfChildren(suite.compress, leaves, logLen, h, k);
    }
  }

  /** The honest commitment the verifier holds for committed data. */
  function CommitmentTo<C>(suite: Suite<C>, c: Committed): Commitment
    requires c.Valid()
  {
    Commitment(c.Root(suite), c.depth, c.leafBytes)
  }

  lemma BranchDigestSizes<C>(suite: Suite<C>, c: Committed, index: nat, layerDepth: nat)
    requires suite.Valid() && c.Valid() && layerDepth <= c.depth && index < Pow2(c.depth)
    ensures forall d :: d in BranchOf(suite.compress, c.LeafDigests(suite), c.depth, index, layerDepth) ==>
              |d| == suite.digestSize
  {
    var siblings := BranchOf(suite.compress, c.LeafDigests(suite), c.depth, index, layerDepth);
    SiblingsExist(c.depth, index);
    forall j: nat | j < |siblings|
      ensures |siblings[j]| == suite.digestSize
    {
      DigestSize(suite, c.LeafDigests(suite), c.depth, j, Sibling(Hi(index, j)));
    }
  }

  lemma LayerDigestSizes<C>(suite: Suite<C>, c: Committed, depth: nat)
    requires suite.Valid() && c.Valid() && depth <= c.depth
    ensures forall d :: d in LayerOf(suite.compress, c.LeafDigests(suite), c.depth, depth) ==> |d| == suite.digestSize
  {
    var layer := LayerOf(suite.compress, c.LeafDigests(suite), c.depth, depth);
    forall k: nat | k < |layer|
      ensures |layer[k]| == suite.digestSize
    {
      DigestSize(suite, c.LeafDigests(suite), c.depth, c.depth - depth, k);
    }
  }

  /** The opening the prover writes for a leaf. */
  function HonestOpening<C>(suite: Suite<C>, c: Committed, layerDepth: nat, index: nat): Opening
    requires c.Valid() && layerDepth <= c.depth && index < Pow2(c.depth)
  {
    Opening(c.Leaf(index), BranchOf(suite.compress, c.LeafDigests(suite), c.depth, index, layerDepth))
  }

  function HonestOpenings<C>(suite: Suite<C>, c: Committed, layerDepth: nat, indices: seq<nat>): (os: seq<Opening>)
    requires c.Valid() && layerDepth <= c.depth && Below(indices, Pow2(c.depth))
    ensures Values(os) == LeafValues(c, indices)
  {
    if indices == [] then []
    else [HonestOpening(suite, c, layerDepth, indices[0])] + HonestOpenings(suite, c, layerDepth, indices[1..])
  }

  function HonestLayer<C>(suite: Suite<C>, c: Committed, layerDepth: nat): (layer: seq<ByteString>)
    requires c.Valid() && layerDepth <= c.depth
    ensures |layer| == Pow2(layerDepth)
  {
    LayerOf(suite.compress, c.LeafDigests(suite), c.depth, layerDepth)
  }

  lemma {:induction false} OpeningReadBack<C>(suite: Suite<C>, c: Committed, layerDepth: nat, index: nat,
                                              rest: ByteString)
    requires suite.Valid() && c.Valid() && layerDepth <= c.depth && index < Pow2(c.depth)
    ensures ReadOpening(suite, CommitmentTo(suite, c), layerDepth, HonestLayer(suite, c, layerDepth), index,
                        OpeningBytes(suite, c, layerDepth, index) + rest)
         == Got(HonestOpening(suite, c, layerDepth, index), rest)
  {
    hide BranchOf, LayerOf, Digest, Climb, Flatten, ReadMany;
    var siblings := BranchOf(suite.compress, c.LeafDigests(suite), c.depth, index, layerDepth);
    BranchDigestSizes(suite, c, index, layerDepth);
    ReadManyBack(siblings, suite.digestSize, rest);
    var tape := OpeningBytes(suite, c, layerDepth, index) + rest;
    assert tape == c.Leaf(index) + (Flatten(siblings) + rest);
    assert tape[..c.leafBytes] == c.Leaf(index) && tape[c.leafBytes..] == Flatten(siblings) + rest;
    HonestClimb(suite.compress, c.LeafDigests(suite), c.depth, index, layerDepth);
  }

  lemma {:induction false} OpeningsReadBack<C>(suite: Suite<C>, c: Committed, layerDepth: nat, indices: seq<nat>,
                                               rest: ByteString)
    requires suite.Valid() && c.Valid() && layerDepth <= c.depth && Below(indices, Pow2(c.depth))
    ensures ReadOpenings(suite, CommitmentTo(suite, c), layerDepth, HonestLayer(suite, c, layerDepth), indices,
                         OpeningsBytes(suite, c, layerDepth, indices) + rest)
         == Got(HonestOpenings(suite, c, layerDepth, indices), rest)
    decreases |indices|
  {
    hide HonestLayer, OpeningBytes, ReadOpening, HonestOpening;
    if indices == [] {
      assert OpeningsBytes(suite, c, layerDepth, indices) + rest == rest;
    } else {
      var tail := OpeningsBytes(suite, c, layerDepth, indices[1..]) + rest;
      assert OpeningsBytes(suite, c, layerDepth, indices) + rest
          == OpeningBytes(suite, c, layerDepth, indices[0]) + tail;
      OpeningReadBack(suite, c, layerDepth, indices[0], tail);
      OpeningsReadBack(suite, c, layerDepth, indices[1..], rest);
    }
  }

  /** The verifier accepts an honest multi-opening, consumes exactly it, and receives the committed
      leaves. */
  lemma {:induction false} MultiOpenReadBack<C>(suite: Suite<C>, c: Committed, indices: seq<nat>, rest: ByteString)
    requires suite.Valid() && c.Valid() && Below(indices, Pow2(c.depth))
    ensures var layerDepth := LayerDepth(c.depth, |indices|);
            ReadMultiOpen(suite, CommitmentTo(suite, c), indices, MultiOpenBytes(suite, c, indices) + rest)
            == Got((HonestLayer(suite, c, layerDepth), HonestOpenings(suite, c, layerDepth, indices)), rest)
  {
    hide LayerOf, Digest, Flatten, ReadMany, FoldToRoot, OpeningsBytes, ReadOpenings, HonestOpenings, Log2Ceil;
    var layerDepth := LayerDepth(c.depth, |indices|);
    var layer := HonestLayer(suite, c, layerDepth);
    var tail := OpeningsBytes(suite, c, layerDepth, indices) + rest;
    LayerDigestSizes(suite, c, layerDepth);
    ReadManyBack(layer, suite.digestSize, tail);
    FoldHonestLayer(suite.compress, c.LeafDigests(suite), c.depth, layerDepth);
    OpeningsReadBack(suite, c, layerDepth, indices, rest);
    assert MultiOpenBytes(suite, c, indices) + rest == Flatten(layer) + tail;
  }

  /** The verifier accepts the committed vector in full. */
  lemma {:induction false} VectorReadBack<C>(suite: Suite<C>, c: Committed, rest: ByteString)
    requires suite.Valid() && c.Valid()
    ensures ReadVector(suite, CommitmentTo(suite, c), c.data + rest) == Got(c.data, rest)
  {
    assert |c.data| == c.leafBytes * Pow2(c.depth);
    assert (c.data + rest)[..|c.data|] == c.data && (c.data + rest)[|c.data|..] == rest;
    FoldLeaves(suite.compress, c.LeafDigests(suite), c.depth);
  }

  // ---- Binding: what the verifier accepted is what was committed. ----

  /** Two different leaves the verifier and the prover hashed to the same digest. */
  ghost predicate LeafCollides<C>(suite: Suite<C>, c: Committed, index: nat, leaf: ByteString)
    requires c.Valid() && index < Pow2(c.depth)
  {
    leaf != c.Leaf(index) && suite.leafHash(leaf) == suite.leafHash(c.Leaf(index))
  }

  /** Verifying this opening compressed a pair that collides with a tree node, or hashed a leaf that
      collides with the committed one. */
  ghost predicate OpeningCollides<C>(suite: Suite<C>, c: Committed, index: nat, o: Opening)
    requires c.Valid() && index < Pow2(c.depth)
  {
    || LeafCollides(suite, c, index, o.leaf)
    || Collides(suite.compress, c.LeafDigests(suite), c.depth,
                ClimbInputs(suite.compress, suite.leafHash(o.leaf), index, o.siblings))
  }

  /** An accepted opening against the honest layer holds the committed leaf, or exhibits a collision. */
  lemma {:induction false} OpeningBinding<C>(suite: Suite<C>, c: Committed, layerDepth: nat, index: nat,
                                             tape: ByteString)
    requires c.Valid() && layerDepth <= c.depth && index < Pow2(c.depth)
    requires var r := ReadOpening(suite, CommitmentTo(suite, c), layerDepth, HonestLayer(suite, c, layerDepth), index,
                                  tape);
             r.Got? && !OpeningCollides(suite, c, index, r.value)
    ensures ReadOpening(suite, CommitmentTo(suite, c), layerDepth, HonestLayer(suite, c, layerDepth), index,
                        tape).value.leaf
         == c.Leaf(index)
  {
    hide Digest, Collides, Climb, ClimbInputs, ReadMany;
    var o := ReadOpening(suite, CommitmentTo(suite, c), layerDepth, HonestLayer(suite, c, layerDepth), index,
                         tape).value;
    HiBound(index, c.depth - layerDepth, c.depth);
    ClimbBinding(suite.compress, c.LeafDigests(suite), c.depth, 0, index, suite.leafHash(o.leaf), o.siblings);
    LeafDigest(suite.compress, c.LeafDigests(suite), c.depth, index);
  }

  lemma {:induction false} OpeningsBinding<C>(suite: Suite<C>, c: Committed, layerDepth: nat, indices: seq<nat>,
                                              tape: ByteString)
    requires c.Valid() && layerDepth <= c.depth && Below(indices, Pow2(c.depth))
    requires var r := ReadOpenings(suite, CommitmentTo(suite, c), layerDepth, HonestLayer(suite, c, layerDepth),
                                   indices, tape);
             r.Got? && forall k :: 0 <= k < |indices| ==> !OpeningCollides(suite, c, indices[k], r.value[k])
    ensures Values(ReadOpenings(suite, CommitmentTo(suite, c), layerDepth, HonestLayer(suite, c, layerDepth), indices,
                                tape).value)
         == LeafValues(c, indices)
    decreases |indices|
  {
    hide OpeningCollides, ReadOpening, HonestLayer;
    if indices != [] {
      var vc, layer := CommitmentTo(suite, c), HonestLayer(suite, c, layerDepth);
      var all := ReadOpenings(suite, vc, layerDepth, layer, indices, tape);
      var first := ReadOpening(suite, vc, layerDepth, layer, indices[0], tape);
      var others := ReadOpenings(suite, vc, layerDepth, layer, indices[1..], first.rest);
      assert all.value == [first.value] + others.value;
      assert !OpeningCollides(suite, c, indices[0], all.value[0]);
      forall k | 0 <= k < |indices| - 1
        ensures !OpeningCollides(suite, c, indices[1..][k], others.value[k])
      {
        assert !OpeningCollides(suite, c, indices[k + 1], all.value[k + 1]);
      }
      OpeningBinding(suite, c, layerDepth, indices[0], tape);
      OpeningsBinding(suite, c, layerDepth, indices[1..], first.rest);
    }
  }

  /** Whatever the tape, an accepted multi-opening of a commitment gives the committed leaves, unless
      something the verifier hashed collides with something the prover hashed. */
  lemma {:induction false} MultiOpenBinding<C>(suite: Suite<C>, c: Committed, indices: seq<nat>, tape: ByteString)
    requires c.Valid() && Below(indices, Pow2(c.depth))
    requires var r := ReadMultiOpen(suite, CommitmentTo(suite, c), indices, tape);
             && r.Got?
             && !Collides(suite.compress, c.LeafDigests(suite), c.depth,
                          FoldInputs(suite.compress, r.value.0, LayerDepth(c.depth, |indices|)))
             && forall k :: 0 <= k < |indices| ==> !OpeningCollides(suite, c, indices[k], r.value.1[k])
    ensures Values(ReadMultiOpen(suite, CommitmentTo(suite, c), indices, tape).value.1) == LeafValues(c, indices)
  {
    hide Collides, OpeningCollides, Digest, FoldInputs, ReadMany, FoldToRoot;
    var layerDepth := LayerDepth(c.depth, |indices|);
    var r := ReadMultiOpen(suite, CommitmentTo(suite, c), indices, tape);
    LayerBinding(suite.compress, c.LeafDigests(suite), c.depth, r.value.0, layerDepth);
    var rest := ReadMany(tape, suite.digestSize, Pow2(layerDepth)).rest;
    OpeningsBinding(suite, c, layerDepth, indices, rest);
  }

  /** Whatever the tape, an accepted vector is the committed data, unless a collision is exhibited. */
  lemma {:induction false} VectorBinding<C>(suite: Suite<C>, c: Committed, tape: ByteString)
    requires c.Valid()
    requires var r := ReadVector(suite, CommitmentTo(suite, c), tape);
             r.Got? ==>
               (DivUnique(|r.value|, c.leafBytes, Pow2(c.depth), 0);
                && !Collides(suite.compress, c.LeafDigests(suite), c.depth,
                             FoldInputs(suite.compress, Hashes(suite.leafHash, Chunks(r.value, c.leafBytes)), c.depth))
                && forall k: nat :: k < Pow2(c.depth) ==> !LeafCollides(suite, c, k, Chunks(r.value, c.leafBytes)[k]))
    ensures var r := ReadVector(suite, CommitmentTo(suite, c), tape);
            r.Got? ==> r.value == c.data
  {
    hide Collides, Digest, FoldInputs, FoldToRoot;
    var r := ReadVector(suite, CommitmentTo(suite, c), tape);
    if r.Got? {
      DivUnique(|r.value|, c.leafBytes, Pow2(c.depth), 0);
      var chunks := Chunks(r.value, c.leafBytes);
      LayerBinding(suite.compress, c.LeafDigests(suite), c.depth, Hashes(suite.leafHash, chunks), c.depth);
      forall k: nat | k < Pow2(c.depth)
        ensures chunks[k] == Chunks(c.data, c.leafBytes)[k]
      {
        LeafDigest(suite.compress, c.LeafDigests(suite), c.depth, k);
        assert Hashes(suite.leafHash, chunks)[k] == LayerOf(suite.compress, c.LeafDigests(suite), c.depth, c.depth)[k];
        assert !LeafCollides(suite, c, k, chunks[k]);
      }
      assert chunks == Chunks(c.data, c.leafBytes);
    }
  }

  // ---- Binding when nothing that is hashed collides. ----

  /** The pairs the prover compressed: the children of every inner node of its tree. */
  ghost function TreePairs<D>(compress: (D, D) -> D, leaves: seq<D>, logLen: nat): set<(D, D)>
    requires |leaves| == Pow2(logLen)
  {
    set h, k | 0 < h <= logLen && 0 <= k < Pow2(logLen - h) :: ChildPair(compress, leaves, logLen, h, k)
  }

  ghost function ChildPair<D>(compress: (D, D) -> D, leaves: seq<D>, logLen: nat, h: nat, k: nat): (D, D)
    requires |leaves| == Pow2(logLen) && 0 < h <= logLen && k < Pow2(logLen - h)
  {
    assert Pow2(logLen - (h - 1)) == 2 * Pow2(logLen - h);
    (Digest(compress, leaves, logLen, h - 1, 2 * k), Digest(compress, leaves, logLen, h - 1, 2 * k + 1))
  }

  /** No two of these pairs, and no two of these leaves, have one digest. */
  ghost predicate CollisionFree<C>(suite: Suite<C>, pairs: set<(ByteString, ByteString)>, leaves: set<ByteString>) {
    && (forall p, q :: p in pairs && q in pairs && suite.compress(p.0, p.1) == suite.compress(q.0, q.1) ==> p == q)
    && (forall l, m :: l in leaves && m in leaves && suite.leafHash(l) == suite.leafHash(m) ==> l == m)
  }

  /** The pairs compressed in climbing from these openings, and the leaves hashed for them. */
  ghost function ClimbedPairs<C>(suite: Suite<C>, indices: seq<nat>, openings: seq<Opening>):
    set<(ByteString, ByteString)>
    requires |openings| == |indices|
  {
    if indices == [] then {}
    else
      ClimbInputs(suite.compress, suite.leafHash(openings[0].leaf), indices[0], openings[0].siblings)
      + ClimbedPairs(suite, indices[1..], openings[1..])
  }

  ghost function OpenedLeaves(openings: seq<Opening>): set<ByteString> {
    set o | o in openings :: o.leaf
  }

  ghost function CommittedLeaves(c: Committed): set<ByteString>
    requires c.Valid()
  {
    set l | l in Chunks(c.data, c.leafBytes)
  }

  lemma {:induction false} ClimbIsCounted<C>(suite: Suite<C>, indices: seq<nat>, openings: seq<Opening>, k: nat)
    requires |openings| == |indices| && k < |indices|
    ensures ClimbInputs(suite.compress, suite.leafHash(openings[k].leaf), indices[k], openings[k].siblings)
         <= ClimbedPairs(suite, indices, openings)
  {
    if k > 0 {
      ClimbIsCounted(suite, indices[1..], openings[1..], k - 1);
    }
  }

  /** Pairs that do not collide with the tree's exhibit no collision with a tree node. */
  lemma {:induction false} FreeNeverCollides<C>(suite: Suite<C>, leaves: seq<ByteString>, logLen: nat,
                                                hashed: set<(ByteString, ByteString)>,
                                                pairs: set<(ByteString, ByteString)>, leafSet: set<ByteString>)
    requires |leaves| == Pow2(logLen) && CollisionFree(suite, pairs, leafSet)
    requires hashed <= pairs && TreePairs(suite.compress, leaves, logLen) <= pairs
    ensures !Collides(suite.compress, leaves, logLen, hashed)
  {
    hide Digest;
    forall p, h: nat, k: nat {:trigger p in hashed, IsNode(logLen, h, k)} | p in hashed && h > 0 && IsNode(logLen, h, k)
        && suite.compress(p.0, p.1) == Digest(suite.compress, leaves, logLen, h, k)
      ensures IsNode(logLen, h - 1, 2 * k) && IsNode(logLen, h - 1, 2 * k + 1)
      ensures p.0 == Digest(suite.compress, leaves, logLen, h - 1, 2 * k)
      ensures p.1 == Digest(suite.compress, leaves, logLen, h - 1, 2 * k + 1)
    {
      DigestOfChildren(suite.compress, leaves, logLen, h, k);
      var q := ChildPair(suite.compress, leaves, logLen, h, k);
      assert q in TreePairs(suite.compress, leaves, logLen);
    }
  }

  lemma FreeLeaf<C>(suite: Suite<C>, c: Committed, index: nat, leaf: ByteString, pairs: set<(ByteString, ByteString)>,
                    leafSet: set<ByteString>)
    requires c.Valid() && index < Pow2(c.depth) && CollisionFree(suite, pairs, leafSet)
    requires leaf in leafSet && CommittedLeaves(c) <= leafSet
    ensures !LeafCollides(suite, c, index, leaf)
  {
    hide Chunks;
    assert c.Leaf(index) in CommittedLeaves(c);
  }

  /** All that is hashed when a multi-opening is committed to and read. */
  ghost function OpeningPairs<C>(suite: Suite<C>, c: Committed, indices: seq<nat>, layer: seq<ByteString>,
                                 openings: seq<Opening>):
      set<(ByteString, ByteString)>
    requires c.Valid() && |openings| == |indices| && |layer| == Pow2(LayerDepth(c.depth, |indices|))
  {
    TreePairs(suite.compress, c.LeafDigests(suite), c.depth)
    + FoldInputs(suite.compress, layer, LayerDepth(c.depth, |indices|))
    + ClimbedPairs(suite, indices, openings)
  }

  /** Whatever the tape: if nothing hashed in building the tree and in reading the openings collides, an
      accepted multi-opening gives the committed leaves. */
  lemma {:induction false} AcceptedIsCommitted<C>(suite: Suite<C>, c: Committed, indices: seq<nat>, tape: ByteString)
    requires c.Valid() && Below(indices, Pow2(c.depth))
    requires var r := ReadMultiOpen(suite, CommitmentTo(suite, c), indices, tape);
             && r.Got?
             && CollisionFree(suite, OpeningPairs(suite, c, indices, r.value.0, r.value.1),
                              CommittedLeaves(c) + OpenedLeaves(r.value.1))
    ensures Values(ReadMultiOpen(suite, CommitmentTo(suite, c), indices, tape).value.1) == LeafValues(c, indices)
  {
    hide Collides, Digest, ReadMultiOpen, FoldInputs, ClimbInputs, Chunks;
    hide CollisionFree, TreePairs, CommittedLeaves, LeafCollides;
    var r := ReadMultiOpen(suite, CommitmentTo(suite, c), indices, tape).value;
    var pairs, leafSet := OpeningPairs(suite, c, indices, r.0, r.1), CommittedLeaves(c) + OpenedLeaves(r.1);
    var leaves := c.LeafDigests(suite);
    FreeNeverCollides(suite, leaves, c.depth, FoldInputs(suite.compress, r.0, LayerDepth(c.depth, |indices|)), pairs,
                      leafSet);
    forall k | 0 <= k < |indices|
      ensures !OpeningCollides(suite, c, indices[k], r.1[k])
    {
      ClimbIsCounted(suite, indices, r.1, k);
      FreeNeverCollides(suite, leaves, c.depth,
                        ClimbInputs(suite.compress, suite.leafHash(r.1[k].leaf), indices[k],
                                    r.1[k].siblings), pairs, leafSet);
      assert r.1[k] in r.1;
      FreeLeaf(suite, c, indices[k], r.1[k].leaf, pairs, leafSet);
    }
    MultiOpenBinding(suite, c, indices, tape);
  }

  /** The leaf digests of a vector of the committed size. */
  function DigestsOf<C>(suite: Suite<C>, c: Committed, data: ByteString): (ds: seq<ByteString>)
    requires c.Valid() && |data| == c.leafBytes * Pow2(c.depth)
    ensures |ds| == Pow2(c.depth)
  {
    DivUnique(|data|, c.leafBytes, Pow2(c.depth), 0);
    Hashes(suite.leafHash, Chunks(data, c.leafBytes))
  }

  ghost function LeavesOf(c: Committed, data: ByteString): set<ByteString>
    requires c.Valid() && |data| == c.leafBytes * Pow2(c.depth)
  {
    DivUnique(|data|, c.leafBytes, Pow2(c.depth), 0);
    set l | l in Chunks(data, c.leafBytes)
  }

  /** The same for a whole vector. */
  lemma {:induction false} VectorIsCommitted<C>(suite: Suite<C>, c: Committed, tape: ByteString)
    requires c.Valid()
    requires var v := ReadVector(suite, CommitmentTo(suite, c), tape);
             && v.Got? && |v.value| == c.leafBytes * Pow2(c.depth)
             && CollisionFree(suite, TreePairs(suite.compress, c.LeafDigests(suite), c.depth)
                                     + FoldInputs(suite.compress, DigestsOf(suite, c, v.value), c.depth),
                              CommittedLeaves(c) + LeavesOf(c, v.value))
    ensures ReadVector(suite, CommitmentTo(suite, c), tape).value == c.data
  {
    hide Collides, Digest, ReadVector, FoldInputs, Chunks, CollisionFree, TreePairs, CommittedLeaves, LeafCollides;
    var data := ReadVector(suite, CommitmentTo(suite, c), tape).value;
    DivUnique(|data|, c.leafBytes, Pow2(c.depth), 0);
    var folded := FoldInputs(suite.compress, DigestsOf(suite, c, data), c.depth);
    var pairs := TreePairs(suite.compress, c.LeafDigests(suite), c.depth) + folded;
    var leafSet := CommittedLeaves(c) + LeavesOf(c, data);
    FreeNeverCollides(suite, c.LeafDigests(suite), c.depth, folded, pairs, leafSet);
    forall k: nat | k < Pow2(c.depth)
      ensures !LeafCollides(suite, c, k, Chunks(data, c.leafBytes)[k])
    {
      assert Chunks(data, c.leafBytes)[k] in LeavesOf(c, data);
      FreeLeaf(suite, c, k, Chunks(data, c.leafBytes)[k], pairs, leafSet);
    }
    VectorBinding(suite, c, tape);
  }

  // ---- An honest reading hashes nothing new. ----

  lemma {:induction false} HonestLayerPairs<D>(compress: (D, D) -> D, leaves: seq<D>, logLen: nat, d: nat)
    requires |leaves| == Pow2(logLen) && d <= logLen
    ensures FoldInputs(compress, LayerOf(compress, leaves, logLen, d), d) <= TreePairs(compress, leaves, logLen)
    decreases d
  {
    hide Digest, FoldPairs;
    if d > 0 {
      var layer := LayerOf(compress, leaves, logLen, d);
      FoldLayerOf(compress, leaves, logLen, d);
      HonestLayerPairs(compress, leaves, logLen, d - 1);
      forall i | 0 <= i < Pow2(d - 1)
        ensures (layer[2 * i], layer[2 * i + 1]) in TreePairs(compress, leaves, logLen)
      {
        assert (layer[2 * i], layer[2 * i + 1]) == ChildPair(compress, leaves, logLen, logLen - d + 1, i);
      }
    }
  }

  lemma {:induction false} HonestClimbPairs<D>(compress: (D, D) -> D, leaves: seq<D>, logLen: nat, index: nat, d: nat,
                                               j: nat)
    requires |leaves| == Pow2(logLen) && index < Pow2(logLen) && d <= logLen && j <= logLen - d
    ensures IsNode(logLen, j, Hi(index, j))
    ensures ClimbInputs(compress, Digest(compress, leaves, logLen, j, Hi(index, j)), Hi(index, j),
                        BranchOf(compress, leaves, logLen, index, d)[j..])
         <= TreePairs(compress, leaves, logLen)
    decreases logLen - d - j
  {
    hide Digest, TreePairs;
    HiBound(index, j, logLen);
    var branch := BranchOf(compress, leaves, logLen, index, d);
    if j < logLen - d {
      HonestPair(compress, leaves, logLen, index, j);
      ClimbStep(compress, leaves, logLen, index, j);
      assert branch[j..][1..] == branch[j + 1..];
      HonestClimbPairs(compress, leaves, logLen, index, d, j + 1);
    } else {
      assert branch[j..] == [];
    }
  }

  /** A node of a path and its sibling, in order, are a pair of the tree. */
  lemma {:induction false} HonestPair<D>(compress: (D, D) -> D, leaves: seq<D>, logLen: nat, index: nat, j: nat)
    requires |leaves| == Pow2(logLen) && index < Pow2(logLen) && j < logLen
    ensures IsNode(logLen, j, Hi(index, j)) && IsNode(logLen, j, Sibling(Hi(index, j)))
    ensures var (n, s) := (Digest(compress, leaves, logLen, j, Hi(index, j)),
                           Digest(compress, leaves, logLen, j, Sibling(Hi(index, j))));
            (if Hi(index, j) % 2 == 0 then (n, s) else (s, n)) in TreePairs(compress, leaves, logLen)
  {
    hide Digest, Hi;
    SiblingSlot(logLen, index, j);
    HiNext(index, j);
    HiBound(index, j + 1, logLen);
    var k := Hi(index, j + 1);
    assert Hi(index, j) == 2 * k || Hi(index, j) == 2 * k + 1;
    assert ChildPair(compress, leaves, logLen, j + 1, k) in TreePairs(compress, leaves, logLen);
  }

  /** Reading an honest multi-opening hashes no pair outside the tree, so that the hypothesis above asks
      no more than that the tree itself be free of collisions. */
  lemma {:induction false} HonestHashesNothingNew<C>(suite: Suite<C>, c: Committed, indices: seq<nat>)
    requires c.Valid() && Below(indices, Pow2(c.depth))
    ensures var d := LayerDepth(c.depth, |indices|);
            && |HonestOpenings(suite, c, d, indices)| == |indices|
            && OpeningPairs(suite, c, indices, HonestLayer(suite, c, d), HonestOpenings(suite, c, d, indices))
               == TreePairs(suite.compress, c.LeafDigests(suite), c.depth)
            && OpenedLeaves(HonestOpenings(suite, c, d, indices)) <= CommittedLeaves(c)
  {
    hide Digest, FoldInputs, ClimbInputs, TreePairs, Chunks, BranchOf, LayerOf;
    var d := LayerDepth(c.depth, |indices|);
    HonestLayerPairs(suite.compress, c.LeafDigests(suite), c.depth, d);
    HonestOpeningsNothingNew(suite, c, d, indices);
  }

  lemma {:induction false} HonestOpeningsNothingNew<C>(suite: Suite<C>, c: Committed, d: nat, indices: seq<nat>)
    requires c.Valid() && d <= c.depth && Below(indices, Pow2(c.depth))
    ensures var openings := HonestOpenings(suite, c, d, indices);
            && |openings| == |indices|
            && ClimbedPairs(suite, indices, openings) <= TreePairs(suite.compress, c.LeafDigests(suite), c.depth)
            && OpenedLeaves(openings) <= CommittedLeaves(c)
    decreases |indices|
  {
    hide Digest, ClimbInputs, TreePairs, Chunks, BranchOf;
    if indices != [] {
      var openings := HonestOpenings(suite, c, d, indices);
      HonestOpeningsNothingNew(suite, c, d, indices[1..]);
      assert openings == [HonestOpening(suite, c, d, indices[0])] + HonestOpenings(suite, c, d, indices[1..]);
      OneNothingNew(suite, c, d, indices[0]);
    }
  }

  lemma {:induction false} OneNothingNew<C>(suite: Suite<C>, c: Committed, d: nat, index: nat)
    requires c.Valid() && d <= c.depth && index < Pow2(c.depth)
    ensures var o := HonestOpening(suite, c, d, index);
            && ClimbInputs(suite.compress, suite.leafHash(o.leaf), index, o.siblings)
               <= TreePairs(suite.compress, c.LeafDigests(suite), c.depth)
            && o.leaf in CommittedLeaves(c)
  {
    hide Digest, ClimbInputs, TreePairs, BranchOf;
    var branch := BranchOf(suite.compress, c.LeafDigests(suite), c.depth, index, d);
    HonestClimbPairs(suite.compress, c.LeafDigests(suite), c.depth, index, d, 0);
    LeafDigest(suite.compress, c.LeafDigests(suite), c.depth, index);
    ZeroPlaces(index);
    assert branch[0..] == branch;
  }
}
