/** The pool and its buffers as the objects the code updates: each method takes one step of the model. */
module BufferPoolProgram {
  import opened Options
  import opened BufferPool

  class Pool {
    var freeList: FreeList
    ghost var heap: Heap
    ghost var live: map<nat, Buffer>

    constructor ()
      ensures World() == EMPTY
    {
      freeList, heap, live := map[], map[], map[];
    }

    ghost function World(): World
      reads this
    {
      BufferPool.World(heap, freeList, live)
    }

    /** The last block freed under a key, if any. */
    method PopBlock(nChunks: nat) returns (r: Option<Block>)
      modifies this`freeList
      ensures r == Top(old(freeList), nChunks) && freeList == Popped(old(freeList), nChunks)
    {
      if nChunks !in freeList || freeList[nChunks] == [] {
        return None;
      }
      var blocks := freeList[nChunks];
      r := Some(blocks[|blocks| - 1]);
      freeList := freeList[nChunks := blocks[..|blocks| - 1]];
    }

    /** Takes the last freed block of the right size, or a new one at `place`. */
    method AllocData(elem: Elem, capacity: nat, place: nat, ghost handle: nat) returns (buf: Buffer)
      requires Inv(World()) && Enabled(World(), Alloc(handle, elem, capacity, place))
      modifies this
      ensures World() == Next(old(World()), Alloc(handle, elem, capacity, place))
      ensures handle in live && live[handle] == buf
    {
      if elem.size == 0 || capacity == 0 {
        buf := Buffer(elem, Nowhere, []);
      } else {
        hide ByteLen, ElemCapacity, Chunks, Inv, Enabled;
        var byteLen := ByteLen(elem, capacity);
        var nChunks := Chunks(elem, capacity);
        var elemCap := ElemCapacity(elem, capacity);
        var address := place;
        var reused := PopBlock(nChunks);
        if reused.Some? {
          address := reused.value.address;
        } else {
          heap := heap[place := Allocation(byteLen, BUFFER_ALIGN)];
        }
        buf := Buffer(elem, At(address, elemCap), []);
      }
      live := live[handle := buf];
    }

    method Reclaim(nChunks: nat, block: Block)
      modifies this`freeList
      ensures freeList == Pushed(old(freeList), nChunks, block)
    {
      var blocks := if nChunks in freeList then freeList[nChunks] else [];
      freeList := freeList[nChunks := blocks + [block]];
    }

    method AllocVec(elem: Elem, capacity: nat, place: nat, ghost handle: nat) returns (v: PoolVec)
      requires Inv(World()) && Enabled(World(), Alloc(handle, elem, capacity, place))
      modifies this
      ensures World() == Next(old(World()), Alloc(handle, elem, capacity, place))
      ensures fresh(v) && v.pool == this && v.handle == handle && v.Valid()
    {
      ghost var before := World();
      var data := AllocData(elem, capacity, place, handle);
      v := new PoolVec(this, data, handle);
      StepKeeps(before, Alloc(handle, elem, capacity, place));
    }
  }

  class PoolVec {
    const pool: Pool
    ghost const handle: nat
    var data: Buffer

    constructor (pool: Pool, data: Buffer, ghost handle: nat)
      ensures this.pool == pool && this.data == data && this.handle == handle
    {
      this.pool, this.data, this.handle := pool, data, handle;
    }

    /** The pool knows this buffer as it is. */
    ghost predicate Valid()
      reads this, pool
    {
      Inv(pool.World()) && handle in pool.live && pool.live[handle] == data
    }

    /** Appends elements; past the capacity, the vector moves to storage of its own. */
    method ExtendFromSlice(values: seq<Value>, grown: nat, place: nat)
      requires Valid() && Enabled(pool.World(), Extend(handle, values, grown, place))
      modifies this, pool
      ensures Valid() && pool.World() == Next(old(pool.World()), Extend(handle, values, grown, place))
      ensures data.contents == old(data.contents) + values
    {
      StepKeeps(pool.World(), Extend(handle, values, grown, place));
      var contents := data.contents + values;
      if data.Fits(|contents|) {
        data := data.(contents := contents);
      } else {
        pool.heap := HeapWithout(pool.heap, data.storage)[place := Allocation(grown * data.elem.size, data.elem.align)];
        data := Buffer(data.elem, At(place, grown), contents);
      }
      pool.live := pool.live[handle := data];
    }

    /** Keeps the first `len` elements and the capacity. */
    method Truncate(len: nat)
      requires Valid()
      modifies this, pool
      ensures Valid() && pool.World() == Next(old(pool.World()), Step.Truncate(handle, len))
      ensures data.storage == old(data.storage) && data.contents <= old(data.contents)
      ensures |data.contents| == if len < |old(data.contents)| then len else |old(data.contents)|
    {
      StepKeeps(pool.World(), Step.Truncate(handle, len));
      if len < |data.contents| {
        data := data.(contents := data.contents[..len]);
      }
      pool.live := pool.live[handle := data];
    }

    /** A fresh block from the same pool, filled with the same elements; the original is untouched. */
    method Clone(place: nat, ghost copy: nat) returns (v: PoolVec)
      requires Valid() && Enabled(pool.World(), Step.Clone(handle, copy, place))
      modifies pool
      ensures pool.World() == Next(old(pool.World()), Step.Clone(handle, copy, place))
      ensures Valid() && fresh(v) && v.Valid() && v.handle == copy && v.data.contents == data.contents
    {
      ghost var before := pool.World();
      CloneIsAllocThenExtend(before, handle, copy, place);
      v := pool.AllocVec(data.elem, |data.contents|, place, copy);
      v.ExtendFromSlice(data.contents, 0, 0);
      StepKeeps(before, Step.Clone(handle, copy, place));
    }

    /** Gives the block back: to the pool when it is whole aligned chunks, else to the allocator. */
    method Drop()
      requires Valid()
      modifies this, pool
      ensures Inv(pool.World()) && pool.World() == Next(old(pool.World()), Step.Drop(handle))
    {
      StepKeeps(pool.World(), Step.Drop(handle));
      var taken := data;
      data := Buffer(taken.elem, Nowhere, []);
      pool.live := pool.live - {handle};
      if taken.elem.size == 0 || taken.storage.Nowhere? || taken.storage.capacity == 0 {
        pool.heap := HeapWithout(pool.heap, taken.storage);
        return;
      }
      var byteLen := taken.storage.capacity * taken.elem.size;
      if byteLen % BUFFER_ALIGN != 0 || taken.storage.address % BUFFER_ALIGN != 0 {
        pool.heap := HeapWithout(pool.heap, taken.storage);
        return;
      }
      pool.Reclaim(byteLen / BUFFER_ALIGN, Block(taken.storage.address, byteLen / BUFFER_ALIGN));
    }
  }
}
