/** Hashing many one-chunk messages at once, a block at a time, with one block length shared by all
    lanes. A lane that runs short holds stale bytes and spoils no other lane. */
module BlakeLanes {
  import opened Bytes

  const BLOCK_LEN: nat := 64
  const CHUNK_START: nat := 1
  const CHUNK_END: nat := 2
  const ROOT: nat := 8

  /** The block compression of one lane: chaining value, block, its length, flags. */
  datatype Kernel<!CV> = Kernel(iv: CV, compress: (CV, ByteString, nat, nat) -> CV) {

    // ---- One message, as the hash function defines it. ----

    /** The chaining value after the first `k` whole blocks. */
    function CvAfter(s: ByteString, k: nat): CV
      requires k * BLOCK_LEN <= |s|
    {
      if k == 0 then iv
      else
        compress(CvAfter(s, k - 1), s[(k - 1) * BLOCK_LEN..k * BLOCK_LEN], BLOCK_LEN, if k == 1 then CHUNK_START else 0)
    }

    /** The digest of a message: every block but the last, then the last, padded, as the root. */
    function ChunkDigest(s: ByteString): CV {
      var k := BlocksBefore(|s|);
      var len := |s| - k * BLOCK_LEN;
      compress(CvAfter(s, k), s[k * BLOCK_LEN..] + Zeros(BLOCK_LEN - len), len,
               (if k == 0 then CHUNK_START else 0) + CHUNK_END + ROOT)
    }
  }

  /** How many blocks come before the last one. */
  function BlocksBefore(len: nat): (k: nat)
    ensures k * BLOCK_LEN <= len <= k * BLOCK_LEN + BLOCK_LEN
    ensures len > 0 ==> k * BLOCK_LEN < len
  {
    if len == 0 then 0 else (len - 1) / BLOCK_LEN
  }

  function Zeros(n: nat): (z: ByteString)
    ensures |z| == n
  {
    seq(n, _ => 0)
  }

  // ---- The digest in plain terms: block by block, with lengths and flags as numbers. ----

  /** A message of at most a block: filled up with zeros, as first, last and root block at once. */
  lemma OneBlockDigest<CV>(kernel: Kernel<CV>, s: ByteString)
    requires |s| <= 64
    ensures var zeros: ByteString := seq(64 - |s|, _ => 0);
            kernel.ChunkDigest(s) == kernel.compress(kernel.iv, s + zeros, |s|, 11)
  {
    var zeros: ByteString := seq(64 - |s|, _ => 0);
    assert Zeros(64 - |s|) == zeros;
    assert s[0..] == s;
  }

  lemma FirstBlock<CV>(kernel: Kernel<CV>, s: ByteString)
    requires |s| >= 64
    ensures kernel.CvAfter(s, 0) == kernel.iv && kernel.CvAfter(s, 1) == kernel.compress(kernel.iv, s[..64], 64, 1)
  {
    assert s[0..64] == s[..64];
  }

  lemma MiddleBlock<CV>(kernel: Kernel<CV>, s: ByteString, k: nat)
    requires k > 0 && 64 * (k + 1) <= |s|
    ensures kernel.CvAfter(s, k + 1) == kernel.compress(kernel.CvAfter(s, k), s[64 * k..64 * (k + 1)], 64, 0)
  {
  }

  /** A longer message: the last block is filled up with zeros and is the root. */
  lemma LastBlock<CV>(kernel: Kernel<CV>, s: ByteString, k: nat)
    requires k > 0 && 64 * k < |s| <= 64 * (k + 1)
    ensures var zeros: ByteString := seq(64 * (k + 1) - |s|, _ => 0);
            kernel.ChunkDigest(s) == kernel.compress(kernel.CvAfter(s, k), s[64 * k..] + zeros, |s| - 64 * k, 10)
  {
    var zeros: ByteString := seq(64 * (k + 1) - |s|, _ => 0);
    assert BlocksBefore(|s|) == k;
    assert Zeros(64 * (k + 1) - |s|) == zeros;
  }

  // ---- What a lane's state says of the stream it has absorbed. ----

  /** The lane has absorbed `s`: `blocks` whole blocks compressed, the rest buffered. */
  ghost predicate Absorbed<CV>(kernel: Kernel<CV>, cv: CV, block: ByteString, blockLen: nat, blocks: nat,
                               s: ByteString) {
    && |block| == BLOCK_LEN && blockLen <= BLOCK_LEN && |s| == blocks * BLOCK_LEN + blockLen
    && cv == kernel.CvAfter(s, blocks) && block[..blockLen] == s[blocks * BLOCK_LEN..]
  }

  lemma {:induction false} CvLocal<CV>(kernel: Kernel<CV>, s: ByteString, x: ByteString, k: nat)
    requires k * BLOCK_LEN <= |s|
    ensures k * BLOCK_LEN <= |s + x| && kernel.CvAfter(s + x, k) == kernel.CvAfter(s, k)
  {
    if k > 0 {
      CvLocal(kernel, s, x, k - 1);
      assert (s + x)[(k - 1) * BLOCK_LEN..k * BLOCK_LEN] == s[(k - 1) * BLOCK_LEN..k * BLOCK_LEN];
    }
  }

  /** A full buffer is compressed as a block that is not the last. */
  lemma CompressStep<CV>(kernel: Kernel<CV>, cv: CV, block: ByteString, blocks: nat, s: ByteString)
    requires Absorbed(kernel, cv, block, BLOCK_LEN, blocks, s)
    ensures Absorbed(kernel, kernel.compress(cv, block, BLOCK_LEN, if blocks == 0 then CHUNK_START else 0), block, 0,
                     blocks + 1, s)
  {
    assert block == block[..BLOCK_LEN] == s[blocks * BLOCK_LEN..(blocks + 1) * BLOCK_LEN];
  }

  /** Bytes written after the buffered ones. */
  function Filled(block: ByteString, blockLen: nat, x: ByteString): (b: ByteString)
    requires blockLen + |x| <= |block|
    ensures |b| == |block|
  {
    block[..blockLen] + x + block[blockLen + |x|..]
  }

  lemma FillStep<CV>(kernel: Kernel<CV>, cv: CV, block: ByteString, blockLen: nat, blocks: nat, s: ByteString,
                     x: ByteString)
    requires Absorbed(kernel, cv, block, blockLen, blocks, s) && blockLen + |x| <= BLOCK_LEN
    ensures Absorbed(kernel, cv, Filled(block, blockLen, x), blockLen + |x|, blocks, s + x)
  {
    CvLocal(kernel, s, x, blocks);
    assert Filled(block, blockLen, x)[..blockLen + |x|] == block[..blockLen] + x;
    assert (s + x)[blocks * BLOCK_LEN..] == s[blocks * BLOCK_LEN..] + x;
  }

  /** Compressing the buffered block as the root gives the digest. */
  lemma RootStep<CV>(kernel: Kernel<CV>, cv: CV, block: ByteString, blockLen: nat, blocks: nat, s: ByteString)
    requires Absorbed(kernel, cv, block, blockLen, blocks, s) && (blockLen == 0 ==> blocks == 0)
    ensures kernel.compress(cv, block[..blockLen] + Zeros(BLOCK_LEN - blockLen), blockLen,
                            (if blocks == 0 then CHUNK_START else 0) + CHUNK_END + ROOT)
         == kernel.ChunkDigest(s)
  {
    assert BlocksBefore(|s|) == blocks;
  }

  // ---- The lanes. ----

  function MaxLen(data: seq<ByteString>): (m: nat)
    ensures forall i :: 0 <= i < |data| ==> |data[i]| <= m
    ensures m > 0 ==> exists i :: 0 <= i < |data| && |data[i]| == m
  {
    if data == [] then 0
    else
      var rest := MaxLen(data[1..]);
      if |data[0]| > rest then |data[0]|
      else
        assert rest > 0 ==> exists i :: 0 <= i < |data[1..]| && |data[1..][i]| == rest && |data[i + 1]| == rest;
        rest
  }

  /** The bytes of a lane still to be read this call. */
  function Tails(data: seq<ByteString>, done: nat): (ts: seq<ByteString>)
    ensures |ts| == |data|
  {
    seq(|data|, i requires 0 <= i < |data| => if done < |data[i]| then data[i][done..] else [])
  }

  class Lanes<!CV> {
    const n: nat
    const kernel: Kernel<CV>
    var cv: seq<CV>
    var block: seq<ByteString>
    var blockLen: nat
    var blocksCompressed: nat

    constructor (n: nat, kernel: Kernel<CV>)
      ensures this.n == n && this.kernel == kernel && Valid()
      ensures forall i :: 0 <= i < n ==> Live(i, [])
    {
      this.n, this.kernel := n, kernel;
      cv := seq(n, _ => kernel.iv);
      block := seq(n, _ => Zeros(BLOCK_LEN));
      blockLen, blocksCompressed := 0, 0;
    }

    ghost predicate Valid()
      reads this
    {
      && |cv| == n && |block| == n && blockLen <= BLOCK_LEN && (blockLen == 0 ==> blocksCompressed == 0)
      && (forall i :: 0 <= i < n ==> |block[i]| == BLOCK_LEN)
    }

    /** Lane `i` has absorbed exactly `s`. */
    ghost predicate Live(i: nat, s: ByteString)
      reads this
    {
      i < |cv| && i < |block| && Absorbed(kernel, cv[i], block[i], blockLen, blocksCompressed, s)
    }

    /** Compresses the full buffer of every lane and empties it. */
    method CompressFullBlock(ghost streams: seq<ByteString>)
      requires Valid() && |streams| == n && blockLen == BLOCK_LEN
      modifies this
      ensures |cv| == n && block == old(block) && blockLen == 0 && blocksCompressed == old(blocksCompressed) + 1
      ensures forall i :: 0 <= i < n && old(Live(i, streams[i])) ==> Live(i, streams[i])
    {
      var flags := if blocksCompressed == 0 then CHUNK_START else 0;
      forall i | 0 <= i < n && Live(i, streams[i])
        ensures Absorbed(kernel, kernel.compress(cv[i], block[i], BLOCK_LEN, flags), block[i], 0, blocksCompressed + 1,
                         streams[i])
      {
        CompressStep(kernel, cv[i], block[i], blocksCompressed, streams[i]);
      }
      var cv', block', k := cv, block, kernel;
      cv := seq(n, i requires 0 <= i < |cv'| && i < |block'| => k.compress(cv'[i], block'[i], BLOCK_LEN, flags));
      blocksCompressed := blocksCompressed + 1;
      blockLen := 0;
    }

    /** Takes up to `take` bytes of every lane: a lane with less takes what it has. */
    method Fill(tails: seq<ByteString>, take: nat, ghost streams: seq<ByteString>)
      requires |cv| == n && |block| == n && |tails| == n && |streams| == n && blockLen + take <= BLOCK_LEN
      requires forall i :: 0 <= i < n ==> |block[i]| == BLOCK_LEN
      modifies this
      ensures cv == old(cv) && |block| == n && blocksCompressed == old(blocksCompressed)
      ensures blockLen == old(blockLen) + take
      ensures forall i :: 0 <= i < n ==> |block[i]| == BLOCK_LEN
      ensures forall i :: 0 <= i < n && old(Live(i, streams[i])) && take <= |tails[i]| ==>
                Live(i, streams[i] + tails[i][..take])
    {
      for lane := 0 to n
        invariant |block| == n && cv == old(cv) && blockLen == old(blockLen)
        invariant blocksCompressed == old(blocksCompressed)
        invariant forall i :: 0 <= i < n ==> |block[i]| == BLOCK_LEN
        invariant forall i :: lane <= i < n ==> block[i] == old(block[i])
        invariant forall i :: 0 <= i < lane && take <= |tails[i]| ==>
                    block[i] == Filled(old(block[i]), blockLen, tails[i][..take])
      {
        var avail := if take < |tails[lane]| then take else |tails[lane]|;
        block := block[lane := Filled(block[lane], blockLen, tails[lane][..avail])];
      }
      forall i | 0 <= i < n && old(Live(i, streams[i])) && take <= |tails[i]|
        ensures Absorbed(kernel, cv[i], block[i], blockLen + take, blocksCompressed, streams[i] + tails[i][..take])
      {
        FillStep(kernel, cv[i], old(block[i]), blockLen, blocksCompressed, streams[i], tails[i][..take]);
      }
      blockLen := blockLen + take;
    }

    /** The stream of every lane after `done` bytes of its input. */
    ghost function After(streams: seq<ByteString>, data: seq<ByteString>, done: nat): (ss: seq<ByteString>)
      requires |data| == |streams|
      ensures |ss| == |streams|
    {
      seq(|streams|, i requires 0 <= i < |streams| =>
        streams[i] + if done <= |data[i]| then data[i][..done] else data[i])
    }

    /** One round of the loop: compress a full buffer, then fill it from the inputs. */
    method AbsorbBlock(data: seq<ByteString>, len: nat, done: nat, ghost streams: seq<ByteString>) returns (done': nat)
      requires Valid() && |data| == n && |streams| == n && done < len
      modifies this
      ensures Valid() && done < done' <= len
      ensures forall i :: 0 <= i < n && old(Live(i, After(streams, data, done)[i])) && |data[i]| == len ==>
                Live(i, After(streams, data, done')[i])
    {
      hide Absorbed;
      ghost var sofar := After(streams, data, done);
      if blockLen == BLOCK_LEN {
        CompressFullBlock(sofar);
      }
      var take := if BLOCK_LEN - blockLen < len - done then BLOCK_LEN - blockLen else len - done;
      var tails := Tails(data, done);
      Fill(tails, take, sofar);
      done' := done + take;
      forall i | 0 <= i < n && old(Live(i, After(streams, data, done)[i])) && |data[i]| == len
        ensures Live(i, After(streams, data, done')[i])
      {
        assert tails[i] == data[i][done..] && data[i][done..][..take] == data[i][done..done'];
        assert data[i][..done] + data[i][done..done'] == data[i][..done'];
        assert sofar[i] + tails[i][..take] == After(streams, data, done')[i];
      }
    }

    /** Absorbs one input per lane. Every lane whose input is as long as the longest absorbs exactly
        its own, whatever the others hold. */
    method Update(data: seq<ByteString>, ghost streams: seq<ByteString>)
      requires Valid() && |data| == n && |streams| == n
      modifies this
      ensures Valid()
      ensures forall i :: 0 <= i < n && old(Live(i, streams[i])) && |data[i]| == MaxLen(data) ==>
                Live(i, streams[i] + data[i])
    {
      hide Absorbed;
      var done := 0;
      var len := MaxLen(data);
      assert forall i :: 0 <= i < n ==> After(streams, data, 0)[i] == streams[i];
      while done < len
        invariant Valid() && done <= len
        invariant forall i :: 0 <= i < n && old(Live(i, streams[i])) && |data[i]| == len ==>
                    Live(i, After(streams, data, done)[i])
      {
        done := AbsorbBlock(data, len, done, streams);
      }
      assert forall i :: 0 <= i < n && |data[i]| == len ==> After(streams, data, len)[i] == streams[i] + data[i];
    }

    /** The digest of every live lane; the state is left as it was. */
    method WriteRoot(ghost streams: seq<ByteString>) returns (out: seq<CV>)
      requires Valid() && |streams| == n
      ensures |out| == n
      ensures forall i :: 0 <= i < n && Live(i, streams[i]) ==> out[i] == kernel.ChunkDigest(streams[i])
    {
      var flags := (if blocksCompressed == 0 then CHUNK_START else 0) + CHUNK_END + ROOT;
      var cv', block', k, len := cv, block, kernel, blockLen;
      out := seq(n, i requires 0 <= i < |cv'| && i < |block'| && len <= |block'[i]| && len <= BLOCK_LEN =>
        k.compress(cv'[i], block'[i][..len] + Zeros(BLOCK_LEN - len), len, flags));
      forall i | 0 <= i < n && Live(i, streams[i])
        ensures out[i] == kernel.ChunkDigest(streams[i])
      {
        RootStep(kernel, cv[i], block[i], blockLen, blocksCompressed, streams[i]);
      }
    }

    /** Back to the initial state, stale bytes and all. */
    method Reset()
      requires Valid()
      modifies this
      ensures Valid() && forall i :: 0 <= i < n ==> Live(i, [])
    {
      var k := kernel;
      cv := seq(n, _ => k.iv);
      blockLen, blocksCompressed := 0, 0;
    }

    /** The digests of the live lanes, and the lanes ready for the next messages. */
    method FinalizeReset(ghost streams: seq<ByteString>) returns (out: seq<CV>)
      requires Valid() && |streams| == n
      modifies this
      ensures Valid() && forall i :: 0 <= i < n ==> Live(i, [])
      ensures |out| == n
      ensures forall i :: 0 <= i < n && old(Live(i, streams[i])) ==> out[i] == kernel.ChunkDigest(streams[i])
    {
      out := WriteRoot(streams);
      Reset();
    }
  }
}
