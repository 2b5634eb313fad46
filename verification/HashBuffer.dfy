/** Block-buffered absorption: bytes gather in a block and reach the digest a block at a time, so
    that how a stream is split into writes cannot be told from the digest. */
module HashBuffer {
  import opened Bytes
  import opened MerkleBranch

  /** An incremental hash function: its state is what it has absorbed. */
  class Hasher<Out> {
    const hash: ByteString -> Out
    var absorbed: ByteString

    constructor (hash: ByteString -> Out)
      ensures this.hash == hash && absorbed == []
    {
      this.hash, absorbed := hash, [];
    }

    method Update(data: ByteString)
      modifies this
      ensures absorbed == old(absorbed) + data
    {
      absorbed := absorbed + data;
    }

    method FinalizeReset() returns (out: Out)
      modifies this
      ensures out == hash(old(absorbed)) && absorbed == []
    {
      out := hash(absorbed);
      absorbed := [];
    }
  }

  /** `n` bytes of a block read from position `i`, starting over at its end. */
  function Cycle(block: ByteString, i: nat, n: nat): (bs: ByteString)
    requires i < |block|
    ensures |bs| == n
    decreases n
  {
    if i + n <= |block| then block[i..i + n] else block[i..] + Cycle(block, 0, n - (|block| - i))
  }

  /** Where such a reading ends. */
  function CycleEnd(len: nat, i: nat, n: nat): (j: nat)
    requires i < len
    ensures j < len && (i + n < len ==> j == i + n)
    decreases n
  {
    if i + n < len then i + n else CycleEnd(len, 0, n - (len - i))
  }

  /** Reading within one pass over the block, then the rest. */
  lemma {:induction false} CycleSplit(block: ByteString, i: nat, r: nat, n: nat)
    requires i < |block| && r <= n && i + r <= |block|
    ensures Cycle(block, i, n) == block[i..i + r] + Cycle(block, if i + r == |block| then 0 else i + r, n - r)
    ensures CycleEnd(|block|, i, n) == CycleEnd(|block|, if i + r == |block| then 0 else i + r, n - r)
  {
    if i + n <= |block| {
      assert block[i..i + n] == block[i..i + r] + block[i + r..i + n];
    } else {
      assert block[i..] == block[i..i + r] + block[i + r..];
    }
  }

  lemma CycleNone(block: ByteString, i: nat)
    requires i < |block|
    ensures Cycle(block, i, 0) == [] && CycleEnd(|block|, i, 0) == i
  {
  }

  lemma AdvanceStep(absorbed: ByteString, block: ByteString, i: nat, r: nat, n: nat)
    requires i < |block| && r <= n && i + r <= |block|
    ensures var next := if i + r == |block| then 0 else i + r;
            && absorbed + block[..i] + Cycle(block, i, n) == absorbed + block[..i + r] + Cycle(block, next, n - r)
            && CycleEnd(|block|, i, n) == CycleEnd(|block|, next, n - r)
  {
    CycleSplit(block, i, r, n);
    assert block[..i] + block[i..i + r] == block[..i + r];
  }

  class HashBuffer<Out> {
    const digest: Hasher<Out>
    const block: array<byte>
    var index: nat

    constructor (digest: Hasher<Out>, blockSize: nat)
      requires blockSize > 0
      ensures Valid() && fresh(block) && this.digest == digest && block.Length == blockSize
      ensures Contents() == digest.absorbed
    {
      this.digest := digest;
      block := new byte[blockSize](_ => 0);
      index := 0;
    }

    ghost predicate Valid()
      reads this
    {
      index < block.Length
    }

    /** All that has been written: what the digest absorbed, then what is pending in the block. */
    ghost function Contents(): ByteString
      reads this, digest, block
      requires Valid()
    {
      digest.absorbed + block[..index]
    }

    /** Hands the pending bytes to the digest. */
    method Flush()
      requires index <= block.Length && block.Length > 0
      modifies this, digest
      ensures Valid() && index == 0
      ensures digest.absorbed == old(digest.absorbed + block[..index]) && Contents() == digest.absorbed
    {
      digest.Update(block[..index]);
      index := 0;
    }

    /** Declares the next `cnt` bytes written: past the end of the block, what it holds is read again. */
    method AdvanceMut(cnt: nat)
      requires Valid()
      modifies this, digest
      ensures Valid()
      ensures Contents() == old(Contents()) + Cycle(block[..], old(index), cnt)
      ensures index == CycleEnd(block.Length, old(index), cnt)
    {
      hide Cycle, CycleEnd;
      var left: nat := cnt;
      ghost var bytes := block[..];
      CycleNone(bytes, index);
      while left > 0
        invariant Valid() && left <= cnt
        invariant block[..] == bytes
        invariant Contents() + Cycle(bytes, index, left) == old(Contents()) + Cycle(bytes, old(index), cnt)
        invariant CycleEnd(block.Length, index, left) == CycleEnd(block.Length, old(index), cnt)
      {
        var remaining := if block.Length - index < left then block.Length - index else left;
        AdvanceStep(digest.absorbed, block[..], index, remaining, left);
        assert block[..][..index] == block[..index] && block[..][..index + remaining] == block[..index + remaining];
        left := left - remaining;
        index := index + remaining;
        if index == block.Length {
          Flush();
        }
      }
      CycleNone(bytes, index);
    }

    /** Where the next bytes may be written: never empty. */
    function ChunkMut(): (start: nat)
      reads this
      requires Valid()
      ensures start < block.Length
    {
      index
    }

    /** Copies bytes into the block without declaring them written. */
    method CopyIn(src: ByteString)
      requires Valid() && index + |src| <= block.Length
      modifies block
      ensures block[..index] == old(block[..index]) && block[index..index + |src|] == src
    {
      for j := 0 to |src|
        invariant block[..index] == old(block[..index])
        invariant block[index..index + j] == src[..j]
      {
        block[index + j] := src[j];
      }
    }

    /** Writes bytes that fit the block. */
    method PutChunk(src: ByteString)
      requires Valid() && index + |src| <= block.Length
      modifies this, digest, block
      ensures Valid() && Contents() == old(Contents()) + src
    {
      hide Cycle, CycleEnd;
      ghost var start := index;
      CopyIn(src);
      OnePass(block[..], start, |src|);
      assert block[..][start..start + |src|] == src;
      AdvanceMut(|src|);
    }

    /** Writes bytes a chunk at a time, as the buffer interface does. */
    method PutSlice(src: ByteString)
      requires Valid()
      modifies this, digest, block
      ensures Valid() && Contents() == old(Contents()) + src
    {
      var done := 0;
      while done < |src|
        invariant Valid() && done <= |src|
        invariant Contents() == old(Contents()) + src[..done]
      {
        var start := ChunkMut();
        var room := block.Length - start;
        var cnt := if |src| - done < room then |src| - done else room;
        PutChunk(src[done..done + cnt]);
        assert src[..done] + src[done..done + cnt] == src[..done + cnt];
        done := done + cnt;
      }
      assert src[..|src|] == src;
    }

    lemma OnePass(block: ByteString, i: nat, n: nat)
      requires i < |block| && i + n <= |block|
      ensures Cycle(block, i, n) == block[i..i + n]
    {
      CycleSplit(block, i, n, n);
    }

    /** What is still pending goes to the digest. */
    method Drop()
      requires Valid()
      modifies this, digest
      ensures digest.absorbed == old(Contents())
    {
      Flush();
    }
  }

  /** Writes a stream in the given pieces and drops the buffer: the digest has absorbed exactly the
      concatenation. */
  method Absorb<Out>(digest: Hasher<Out>, blockSize: nat, writes: seq<ByteString>)
    requires blockSize > 0
    modifies digest
    ensures digest.absorbed == old(digest.absorbed) + Flatten(writes)
  {
    var buffer := new HashBuffer(digest, blockSize);
    var i := 0;
    while i < |writes|
      invariant 0 <= i <= |writes| && buffer.Valid() && fresh(buffer) && fresh(buffer.block) && buffer.digest == digest
      invariant buffer.Contents() + Flatten(writes[i..]) == old(digest.absorbed) + Flatten(writes)
    {
      ghost var before := buffer.Contents();
      buffer.PutSlice(writes[i]);
      assert writes[i..][1..] == writes[i + 1..];
      assert before + (writes[i] + Flatten(writes[i + 1..])) == (before + writes[i]) + Flatten(writes[i + 1..]);
      i := i + 1;
    }
    buffer.Drop();
  }

  /** The hash of the serialized items. */
  method HashSerialize<Out>(hash: ByteString -> Out, blockSize: nat, items: seq<ByteString>) returns (out: Out)
    requires blockSize > 0
    ensures out == hash(Flatten(items))
  {
    var hasher := new Hasher(hash);
    Absorb(hasher, blockSize, items);
    assert hasher.absorbed == Flatten(items);
    out := hasher.FinalizeReset();
  }
}
