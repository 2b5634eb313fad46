/** A pool that recycles working buffers: blocks are keyed by size alone, so a block freed by one
    element type backs a buffer of any other. The system allocator's choices (where a new block
    lies, how far a vector grows) are inputs of the steps. */
module BufferPool {
  import opened Options
  import opened Bits

  const BUFFER_ALIGN: nat := 64

  /** An element type, as far as memory is concerned. */
  datatype Elem = Elem(size: nat, align: nat) {
    ghost predicate Valid() {
      && (size == 0 || IsPow2(size)) && 0 < align <= BUFFER_ALIGN
    }
  }

  ghost predicate IsPow2(n: nat) {
    exists e: nat :: n == Pow2(e)
  }

  /** Where a buffer's elements live, if anywhere, and how many fit. */
  datatype Storage = Nowhere | At(address: nat, capacity: nat)

  type Value = int

  datatype Buffer = Buffer(elem: Elem, storage: Storage, contents: seq<Value>) {
    /** Zero-sized elements need no room. */
    predicate Fits(n: nat) {
      elem.size == 0 || n == 0 || (storage.At? && n <= storage.capacity)
    }
  }

  datatype Block = Block(address: nat, chunks: nat)

  type FreeList = map<nat, seq<Block>>

  /** A block the system allocator has handed out. */
  datatype Allocation = Allocation(bytes: nat, align: nat)

  type Heap = map<nat, Allocation>

  /** Everything the pool's run touches: the allocator, the free list, and the buffers in use. */
  datatype World = World(heap: Heap, free: FreeList, live: map<nat, Buffer>)

  // ---- Sizes. ----

  function NextPowerOfTwo(n: nat): (p: nat)
    ensures n <= p
    ensures IsPow2(p)
    ensures n > 1 ==> p < 2 * n
  {
    Pow2(Log2Ceil(n))
  }

  /** The bytes of the block that serves a request. */
  function ByteLen(elem: Elem, capacity: nat): (b: nat)
    requires elem.Valid() && elem.size > 0 && capacity > 0
    ensures IsPow2(b) && b >= BUFFER_ALIGN && b % BUFFER_ALIGN == 0
    ensures b >= capacity * elem.size
    ensures b > BUFFER_ALIGN ==> b < 2 * (capacity * elem.size)
  {
    Pow2Values();
    var p := NextPowerOfTwo(capacity * elem.size);
    if p < BUFFER_ALIGN then BUFFER_ALIGN else
      Pow2Divides(BUFFER_ALIGN, p);
      p
  }

  lemma Pow2Divides(a: nat, b: nat)
    requires IsPow2(a) && IsPow2(b) && a <= b
    ensures a > 0 && b % a == 0 && b == a * (b / a) && b / a > 0
  {
    var i: nat :| a == Pow2(i);
    var j: nat :| b == Pow2(j);
    if i > j {
      Pow2Mono(j, i - 1);
    }
    Pow2Add(i, j - i);
    DivUnique(b, a, Pow2(j - i), 0);
  }

  /** How many elements the block that serves a request holds. */
  function ElemCapacity(elem: Elem, capacity: nat): (c: nat)
    requires elem.Valid() && elem.size > 0 && capacity > 0
    ensures c * elem.size == ByteLen(elem, capacity)
    ensures c >= capacity
  {
    var b := ByteLen(elem, capacity);
    MulSign(elem.size, capacity);
    MulSign(capacity, elem.size);
    Pow2Divides(elem.size, b);
    MulSign(elem.size, capacity - b / elem.size);
    assert elem.size * (capacity - b / elem.size) == capacity * elem.size - b;
    b / elem.size
  }

  // ---- The free list. ----

  /** The last block freed under a key. */
  function Top(free: FreeList, key: nat): Option<Block> {
    if key in free && free[key] != [] then Some(free[key][|free[key]| - 1]) else None
  }

  function Popped(free: FreeList, key: nat): FreeList {
    if key in free && free[key] != [] then free[key := free[key][..|free[key]| - 1]] else free
  }

  function Pushed(free: FreeList, key: nat, block: Block): FreeList {
    free[key := (if key in free then free[key] else []) + [block]]
  }

  // ---- Steps. ----

  datatype Step =
    | Alloc(handle: nat, elem: Elem, capacity: nat, place: nat)
    | Extend(handle: nat, values: seq<Value>, grown: nat, place: nat)
    | Truncate(handle: nat, len: nat)
    | Clone(handle: nat, copy: nat, place: nat)
    | Drop(handle: nat)

  function Chunks(elem: Elem, capacity: nat): (n: nat)
    requires elem.Valid() && elem.size > 0 && capacity > 0
    ensures n > 0 && n * BUFFER_ALIGN == ByteLen(elem, capacity)
  {
    ByteLen(elem, capacity) / BUFFER_ALIGN
  }

  /** The system allocator may put a new block here. */
  ghost predicate Placeable(heap: Heap, place: nat, bytes: nat, align: nat) {
    && align > 0 && place % align == 0 && place > 0
    && forall a :: a in heap ==> Apart(a, heap[a].bytes, place, bytes)
  }

  predicate Apart(a: nat, aBytes: nat, b: nat, bBytes: nat) {
    a != b && (a + aBytes <= b || b + bBytes <= a)
  }

  /** Two blocks are apart if and only if no byte belongs to both. */
  lemma ApartIff(a: nat, aBytes: nat, b: nat, bBytes: nat)
    requires aBytes > 0 && bBytes > 0
    ensures Apart(a, aBytes, b, bBytes) <==> forall x: nat :: !(InBlock(x, a, aBytes) && InBlock(x, b, bBytes))
  {
    var x := if a < b then b else a;
    if !Apart(a, aBytes, b, bBytes) {
      assert InBlock(x, a, aBytes) && InBlock(x, b, bBytes);
    }
  }

  predicate InBlock(x: nat, a: nat, bytes: nat) {
    a <= x < a + bytes
  }

  ghost predicate CanAlloc(w: World, elem: Elem, capacity: nat, place: nat) {
    && elem.Valid()
    && (elem.size > 0 && capacity > 0 && Top(w.free, Chunks(elem, capacity)) == None ==>
          Placeable(w.heap, place, ByteLen(elem, capacity), BUFFER_ALIGN))
  }

  function HeapWithout(heap: Heap, s: Storage): Heap {
    if s.At? then heap - {s.address} else heap
  }

  /** What the code may do next. Growth takes the vector's own storage, of at least the size needed. */
  ghost predicate Enabled(w: World, step: Step) {
    match step
    case Alloc(h, elem, capacity, place) => h !in w.live && CanAlloc(w, elem, capacity, place)
    case Extend(h, values, grown, place) =>
      && h in w.live
      && var buf := w.live[h];
         !buf.Fits(|buf.contents + values|) ==>
           && |buf.contents + values| <= grown
           && Placeable(HeapWithout(w.heap, buf.storage), place, grown * buf.elem.size, buf.elem.align)
    case Truncate(h, len) => h in w.live
    case Clone(h, copy, place) =>
      h in w.live && copy !in w.live && CanAlloc(w, w.live[h].elem, |w.live[h].contents|, place)
    case Drop(h) => h in w.live
  }

  /** Hands out an empty buffer: the last freed block of the right size, or a new one. */
  ghost function AllocData(w: World, handle: nat, elem: Elem, capacity: nat, place: nat): World
    requires elem.Valid()
  {
    if elem.size == 0 || capacity == 0 then w.(live := w.live[handle := Buffer(elem, Nowhere, [])])
    else
      var key, room := Chunks(elem, capacity), ElemCapacity(elem, capacity);
      match Top(w.free, key)
      case Some(block) =>
        World(w.heap, Popped(w.free, key), w.live[handle := Buffer(elem, At(block.address, room), [])])
      case None =>
        World(w.heap[place := Allocation(ByteLen(elem, capacity), BUFFER_ALIGN)], w.free,
              w.live[handle := Buffer(elem, At(place, room), [])])
  }

  /** The test on drop: whole chunks, and aligned. */
  predicate Reclaimable(buf: Buffer) {
    && buf.elem.size > 0 && buf.storage.At? && buf.storage.capacity > 0
    && buf.storage.capacity * buf.elem.size % BUFFER_ALIGN == 0 && buf.storage.address % BUFFER_ALIGN == 0
  }

  ghost function Next(w: World, step: Step): World
    requires Enabled(w, step)
  {
    match step
    case Alloc(h, elem, capacity, place) => AllocData(w, h, elem, capacity, place)
    case Extend(h, values, grown, place) =>
      var buf := w.live[h];
      var contents := buf.contents + values;
      if buf.Fits(|contents|) then w.(live := w.live[h := buf.(contents := contents)])
      else
        World(HeapWithout(w.heap, buf.storage)[place := Allocation(grown * buf.elem.size, buf.elem.align)], w.free,
              w.live[h := Buffer(buf.elem, At(place, grown), contents)])
    case Truncate(h, len) =>
      var buf := w.live[h];
      w.(live := w.live[h := buf.(contents := if len < |buf.contents| then buf.contents[..len] else buf.contents)])
    case Clone(h, copy, place) =>
      var buf := w.live[h];
      var w' := AllocData(w, copy, buf.elem, |buf.contents|, place);
      w'.(live := w'.live[copy := w'.live[copy].(contents := buf.contents)])
    case Drop(h) =>
      var buf := w.live[h];
      if Reclaimable(buf) then
        var key := buf.storage.capacity * buf.elem.size / BUFFER_ALIGN;
        World(w.heap, Pushed(w.free, key, Block(buf.storage.address, key)), w.live - {h})
      else World(HeapWithout(w.heap, buf.storage), w.free, w.live - {h})
  }

  /** What a step does to the contents: an allocated buffer is empty, an extended one has the values at its
      end, a truncated one is cut, a clone holds the same, and no other buffer changes at all. */
  lemma StepContents(w: World, step: Step)
    requires Enabled(w, step)
    ensures forall x :: x in w.live && (step.Clone? || x != step.handle) ==>
              x in Next(w, step).live && Next(w, step).live[x] == w.live[x]
    ensures forall x :: x in Next(w, step).live && x !in w.live ==> x == if step.Clone? then step.copy else step.handle
    ensures step.handle in Next(w, step).live <==> !step.Drop?
    ensures step.Alloc? ==> Next(w, step).live[step.handle].contents == []
    ensures step.Extend? ==> Next(w, step).live[step.handle].contents == w.live[step.handle].contents + step.values
    ensures step.Truncate? ==> Next(w, step).live[step.handle].contents
                               == if step.len < |w.live[step.handle].contents|
                                  then w.live[step.handle].contents[..step.len] else w.live[step.handle].contents
    ensures step.Clone? ==> step.copy in Next(w, step).live
                            && Next(w, step).live[step.copy].contents == w.live[step.handle].contents
  {
    hide Placeable, Reclaimable;
  }

  // ---- The invariant. ----

  /** Who has a block: a buffer in use, or a place on the free list. */
  datatype Owner = Held(handle: nat) | Pooled(key: nat, index: nat)

  ghost predicate Owns(w: World, a: nat, o: Owner) {
    match o
    case Held(h) => h in w.live && w.live[h].storage.At? && w.live[h].storage.address == a
    case Pooled(key, i) => key in w.free && i < |w.free[key]| && w.free[key][i].address == a
  }

  ghost predicate HeapApart(heap: Heap) {
    forall a, b :: a in heap && b in heap && a != b ==> Apart(a, heap[a].bytes, b, heap[b].bytes)
  }

  /** No block has two owners. */
  ghost predicate OneOwner(w: World) {
    forall a, o, o' :: Owns(w, a, o) && Owns(w, a, o') ==> o == o'
  }

  /** Everything owned is allocated. */
  ghost predicate OwnedExists(w: World) {
    forall a, o :: Owns(w, a, o) ==> a in w.heap
  }

  /** Everything allocated is owned: nothing leaks. */
  ghost predicate NothingLeaks(w: World) {
    forall a :: a in w.heap ==> exists o :: Owns(w, a, o)
  }

  /** A free block has exactly its key's chunks, and is aligned. */
  ghost predicate BlockSound(heap: Heap, key: nat, block: Block) {
    && key > 0 && block.chunks == key && block.address % BUFFER_ALIGN == 0
    && block.address in heap && heap[block.address].bytes == key * BUFFER_ALIGN
  }

  ghost predicate FreeSound(heap: Heap, free: FreeList) {
    forall key, i :: key in free && 0 <= i < |free[key]| ==> BlockSound(heap, key, free[key][i])
  }

  /** A buffer's storage is exactly its capacity, and its contents fit. */
  ghost predicate BufferSound(heap: Heap, buf: Buffer) {
    && buf.elem.Valid() && buf.Fits(|buf.contents|)
    && (buf.storage.At? ==>
          && buf.elem.size > 0 && buf.storage.capacity > 0 && buf.storage.address in heap
          && heap[buf.storage.address].bytes == buf.storage.capacity * buf.elem.size)
  }

  ghost predicate LiveSound(heap: Heap, live: map<nat, Buffer>) {
    forall h :: h in live ==> BufferSound(heap, live[h])
  }

  ghost predicate Inv(w: World) {
    && HeapApart(w.heap) && OneOwner(w) && OwnedExists(w) && NothingLeaks(w)
    && FreeSound(w.heap, w.free) && LiveSound(w.heap, w.live)
  }

  // ---- How ownership moves. ----

  /** A new block `a`, owned by `o` alone; every other ownership is as it was. */
  ghost predicate Acquired(w: World, w': World, a: nat, o: Owner) {
    && a !in w.heap && w'.heap.Keys == w.heap.Keys + {a}
    && (forall b, p :: Owns(w', b, p) <==> (b == a && p == o) || Owns(w, b, p))
  }

  /** Block `a` passes from `o` to `o'`. */
  ghost predicate Moved(w: World, w': World, a: nat, o: Owner, o': Owner) {
    && Owns(w, a, o) && w'.heap.Keys == w.heap.Keys
    && (forall b, p :: Owns(w', b, p) <==> (b == a && p == o') || (Owns(w, b, p) && b != a))
  }

  /** Block `a` goes back to the allocator. */
  ghost predicate Released(w: World, w': World, a: nat) {
    && w'.heap.Keys == w.heap.Keys - {a}
    && (forall b, p :: Owns(w', b, p) <==> Owns(w, b, p) && b != a)
  }

  ghost predicate SameOwners(w: World, w': World) {
    && w'.heap.Keys == w.heap.Keys && (forall b, p :: Owns(w', b, p) <==> Owns(w, b, p))
  }

  ghost predicate Ownership(w: World) {
    OneOwner(w) && OwnedExists(w) && NothingLeaks(w)
  }

  lemma OwnershipKept(w: World, w': World, a: nat, o: Owner, o': Owner)
    requires Ownership(w)
    requires Acquired(w, w', a, o) || Moved(w, w', a, o, o') || Released(w, w', a) || SameOwners(w, w')
    ensures Ownership(w')
  {
    hide Owns;
    forall b | b in w'.heap
      ensures exists p :: Owns(w', b, p)
    {
      if b in w.heap {
        var p :| Owns(w, b, p);
        assert Owns(w', b, p) || Owns(w', b, o');
      } else {
        assert Owns(w', b, o);
      }
    }
  }

  // ---- Every step keeps the invariant. ----

  lemma HeapGrows(heap: Heap, place: nat, bytes: nat, align: nat)
    requires HeapApart(heap) && Placeable(heap, place, bytes, align)
    ensures HeapApart(heap[place := Allocation(bytes, align)]) && place !in heap
  {
  }

  lemma HeapShrinks(heap: Heap, s: Storage)
    requires HeapApart(heap)
    ensures HeapApart(HeapWithout(heap, s))
  {
  }

  /** Sound blocks and buffers stay sound as long as their own allocation stays. */
  lemma SoundAcross(w: World, heap: Heap)
    requires FreeSound(w.heap, w.free) && LiveSound(w.heap, w.live)
    requires forall a, o :: Owns(w, a, o) && a in w.heap ==> a in heap && heap[a] == w.heap[a]
    ensures FreeSound(heap, w.free) && LiveSound(heap, w.live)
  {
    forall key, i | key in w.free && 0 <= i < |w.free[key]|
      ensures BlockSound(heap, key, w.free[key][i])
    {
      assert Owns(w, w.free[key][i].address, Pooled(key, i));
    }
    forall h | h in w.live
      ensures BufferSound(heap, w.live[h])
    {
      if w.live[h].storage.At? {
        assert Owns(w, w.live[h].storage.address, Held(h));
      }
    }
  }

  lemma PopMoves(w: World, key: nat, h: nat, buf: Buffer)
    requires Ownership(w) && h !in w.live && Top(w.free, key).Some?
    requires buf.storage.At? && buf.storage.address == Top(w.free, key).value.address
    ensures Moved(w, World(w.heap, Popped(w.free, key), w.live[h := buf]), buf.storage.address,
                  Pooled(key, |w.free[key]| - 1), Held(h))
  {
    var a, last := buf.storage.address, |w.free[key]| - 1;
    var w' := World(w.heap, Popped(w.free, key), w.live[h := buf]);
    assert Owns(w, a, Pooled(key, last));
    forall b, p
      ensures Owns(w', b, p) <==> (b == a && p == Held(h)) || (Owns(w, b, p) && b != a)
    {
      assert Owns(w, a, p) ==> p == Pooled(key, last);
    }
  }

  lemma PushMoves(w: World, h: nat, key: nat)
    requires Ownership(w) && h in w.live && w.live[h].storage.At?
    ensures var a := w.live[h].storage.address;
            Moved(w, World(w.heap, Pushed(w.free, key, Block(a, key)), w.live - {h}), a,
                  Held(h), Pooled(key, if key in w.free then |w.free[key]| else 0))
  {
    var a := w.live[h].storage.address;
    var n := if key in w.free then |w.free[key]| else 0;
    var w' := World(w.heap, Pushed(w.free, key, Block(a, key)), w.live - {h});
    assert Owns(w, a, Held(h));
    forall b, p
      ensures Owns(w', b, p) <==> (b == a && p == Pooled(key, n)) || (Owns(w, b, p) && b != a)
    {
      assert Owns(w, a, p) ==> p == Held(h);
    }
  }

  /** A new block for a buffer. */
  lemma {:induction false} AcquireKeeps(w: World, h: nat, buf: Buffer, place: nat, allocation: Allocation)
    requires Inv(w) && h !in w.live && Placeable(w.heap, place, allocation.bytes, allocation.align)
    requires buf.storage.At? && buf.storage.address == place && BufferSound(map[place := allocation], buf)
    ensures Inv(World(w.heap[place := allocation], w.free, w.live[h := buf]))
  {
    var w' := World(w.heap[place := allocation], w.free, w.live[h := buf]);
    HeapGrows(w.heap, place, allocation.bytes, allocation.align);
    assert Acquired(w, w', place, Held(h));
    OwnershipKept(w, w', place, Held(h), Held(h));
    hide Owns, OneOwner, NothingLeaks, HeapApart;
    SoundAcross(w, w'.heap);
  }

  /** A block off the free list for a buffer. */
  lemma {:induction false} ReuseKeeps(w: World, h: nat, buf: Buffer, key: nat)
    requires Inv(w) && h !in w.live && Top(w.free, key).Some?
    requires buf.storage.At? && buf.storage.address == Top(w.free, key).value.address
    requires BufferSound(w.heap, buf)
    ensures Inv(World(w.heap, Popped(w.free, key), w.live[h := buf]))
  {
    var w' := World(w.heap, Popped(w.free, key), w.live[h := buf]);
    PopMoves(w, key, h, buf);
    OwnershipKept(w, w', buf.storage.address, Pooled(key, |w.free[key]| - 1), Held(h));
  }

  /** Handing out a buffer keeps the invariant. */
  lemma {:induction false} AllocKeeps(w: World, h: nat, elem: Elem, capacity: nat, place: nat)
    requires Inv(w) && h !in w.live && CanAlloc(w, elem, capacity, place)
    ensures Inv(AllocData(w, h, elem, capacity, place))
  {
    var w' := AllocData(w, h, elem, capacity, place);
    if elem.size == 0 || capacity == 0 {
      assert SameOwners(w, w');
      OwnershipKept(w, w', 0, Held(h), Held(h));
    } else {
      hide HeapApart, OneOwner, OwnedExists, NothingLeaks, Owns, Placeable, IsPow2;
      var key := Chunks(elem, capacity);
      if Top(w.free, key).Some? {
        assert BlockSound(w.heap, key, w.free[key][|w.free[key]| - 1]);
        ReuseKeeps(w, h, w'.live[h], key);
      } else {
        AcquireKeeps(w, h, w'.live[h], place, Allocation(ByteLen(elem, capacity), BUFFER_ALIGN));
      }
    }
  }

  lemma {:induction false} ContentsKeep(w: World, h: nat, contents: seq<Value>)
    requires Inv(w) && h in w.live && w.live[h].Fits(|contents|)
    ensures Inv(w.(live := w.live[h := w.live[h].(contents := contents)]))
  {
    var w' := w.(live := w.live[h := w.live[h].(contents := contents)]);
    assert SameOwners(w, w');
    OwnershipKept(w, w', 0, Held(h), Held(h));
  }

  lemma StillAllocated(w: World, h: nat)
    requires OneOwner(w) && h in w.live
    ensures var heap := HeapWithout(w.heap, w.live[h].storage);
            forall a, o :: Owns(World(w.heap, w.free, w.live - {h}), a, o) && a in w.heap ==>
                a in heap && heap[a] == w.heap[a]
  {
    var w' := World(w.heap, w.free, w.live - {h});
    forall a, o | Owns(w', a, o)
      ensures w.live[h].storage.At? ==> a != w.live[h].storage.address
    {
      assert Owns(w, a, o);
      if w.live[h].storage.At? {
        assert Owns(w, w.live[h].storage.address, Held(h));
      }
    }
  }

  lemma {:induction false} ReleaseKeeps(w: World, h: nat)
    requires Inv(w) && h in w.live
    ensures Inv(World(HeapWithout(w.heap, w.live[h].storage), w.free, w.live - {h}))
  {
    var w' := World(HeapWithout(w.heap, w.live[h].storage), w.free, w.live - {h});
    HeapShrinks(w.heap, w.live[h].storage);
    if w.live[h].storage.At? {
      var a := w.live[h].storage.address;
      assert Owns(w, a, Held(h));
      forall b, p
        ensures Owns(w', b, p) <==> Owns(w, b, p) && b != a
      {
        assert Owns(w, a, p) ==> p == Held(h);
      }
      assert forall b, p :: Owns(w', b, p) ==> Owns(w, b, p) && b != a;
      OwnershipKept(w, w', a, Held(h), Held(h));
    } else {
      assert SameOwners(w, w');
      OwnershipKept(w, w', 0, Held(h), Held(h));
    }
    StillAllocated(w, h);
    hide Owns;
    SoundAcross(World(w.heap, w.free, w.live - {h}), w'.heap);
  }

  /** A vector that takes storage of its own: its old block is released, the new one acquired. */
  lemma {:induction false} GrowKeeps(w: World, h: nat, contents: seq<Value>, grown: nat, place: nat)
    requires Inv(w) && h in w.live && w.live[h].elem.size > 0 && 0 < |contents| <= grown
    requires Placeable(HeapWithout(w.heap, w.live[h].storage), place, grown * w.live[h].elem.size, w.live[h].elem.align)
    ensures var buf := w.live[h];
            Inv(World(HeapWithout(w.heap, buf.storage)[place := Allocation(grown * buf.elem.size, buf.elem.align)],
                      w.free,
                      w.live[h := Buffer(buf.elem, At(place, grown), contents)]))
  {
    var buf := w.live[h];
    var mid := World(HeapWithout(w.heap, buf.storage), w.free, w.live - {h});
    var buf' := Buffer(buf.elem, At(place, grown), contents);
    ReleaseKeeps(w, h);
    hide Inv, Placeable;
    AcquireKeeps(mid, h, buf', place, Allocation(grown * buf.elem.size, buf.elem.align));
    assert mid.live[h := buf'] == w.live[h := buf'];
  }

  lemma {:induction false} DropKeeps(w: World, h: nat)
    requires Inv(w) && h in w.live
    ensures Inv(Next(w, Drop(h)))
  {
    var buf := w.live[h];
    if Reclaimable(buf) {
      var key := buf.storage.capacity * buf.elem.size / BUFFER_ALIGN;
      var w' := Next(w, Drop(h));
      MulSign(buf.elem.size, buf.storage.capacity);
      assert BlockSound(w.heap, key, Block(buf.storage.address, key));
      PushMoves(w, h, key);
      OwnershipKept(w, w', buf.storage.address, Held(h), Pooled(key, if key in w.free then |w.free[key]| else 0));
    } else {
      ReleaseKeeps(w, h);
    }
  }

  /** Every step keeps the invariant. */
  lemma {:induction false} StepKeeps(w: World, step: Step)
    requires Inv(w) && Enabled(w, step)
    ensures Inv(Next(w, step))
  {
    match step
    case Alloc(h, elem, capacity, place) => AllocKeeps(w, h, elem, capacity, place);
    case Extend(h, values, grown, place) =>
      var contents := w.live[h].contents + values;
      if w.live[h].Fits(|contents|) {
        ContentsKeep(w, h, contents);
      } else {
        GrowKeeps(w, h, contents, grown, place);
      }
    case Truncate(h, len) =>
      ContentsKeep(w, h, if len < |w.live[h].contents| then w.live[h].contents[..len] else w.live[h].contents);
    case Clone(h, copy, place) =>
      var buf := w.live[h];
      AllocKeeps(w, copy, buf.elem, |buf.contents|, place);
      ContentsKeep(AllocData(w, copy, buf.elem, |buf.contents|, place), copy, buf.contents);
    case Drop(h) => DropKeeps(w, h);
  }

  // ---- Whole runs. ----

  ghost predicate CanRun(w: World, steps: seq<Step>)
    decreases |steps|
  {
    steps == [] || (Enabled(w, steps[0]) && CanRun(Next(w, steps[0]), steps[1..]))
  }

  ghost function Run(w: World, steps: seq<Step>): World
    requires CanRun(w, steps)
    decreases |steps|
  {
    if steps == [] then w else Run(Next(w, steps[0]), steps[1..])
  }

  const EMPTY: World := World(map[], map[], map[])

  lemma {:induction false} RunKeeps(w: World, steps: seq<Step>)
    requires Inv(w) && CanRun(w, steps)
    ensures Inv(Run(w, steps))
    decreases |steps|
  {
    if steps != [] {
      StepKeeps(w, steps[0]);
      RunKeeps(Next(w, steps[0]), steps[1..]);
    }
  }

  /** In every run: a free block has exactly its key's chunks and is aligned; two owners, whether
      free or in use, never share a byte; and every allocated block has an owner. */
  lemma PoolIsSound(steps: seq<Step>)
    requires CanRun(EMPTY, steps)
    ensures var w := Run(EMPTY, steps);
            && (forall key, i :: key in w.free && 0 <= i < |w.free[key]| ==> BlockSound(w.heap, key, w.free[key][i]))
            && (forall a, b, o, p :: Owns(w, a, o) && Owns(w, b, p) && o != p ==>
                  a in w.heap && b in w.heap && Apart(a, w.heap[a].bytes, b, w.heap[b].bytes))
            && (forall a :: a in w.heap ==> exists o :: Owns(w, a, o))
  {
    assert forall a, o :: !Owns(EMPTY, a, o);
    RunKeeps(EMPTY, steps);
    var w := Run(EMPTY, steps);
    forall a, b, o, p | Owns(w, a, o) && Owns(w, b, p) && o != p
      ensures a in w.heap && b in w.heap && Apart(a, w.heap[a].bytes, b, w.heap[b].bytes)
    {
      assert a != b;
    }
  }

  /** What a request is given: an empty buffer with room for it; when it takes memory, a whole
      aligned block of a power of two bytes, less than twice the request unless that is one chunk. */
  lemma HandedOut(w: World, h: nat, elem: Elem, capacity: nat, place: nat)
    requires Inv(w) && Enabled(w, Alloc(h, elem, capacity, place))
    ensures var w' := Next(w, Alloc(h, elem, capacity, place));
            var buf := w'.live[h];
            && buf.contents == [] && buf.Fits(capacity)
            && (buf.storage.At? <==> elem.size > 0 && capacity > 0)
            && (buf.storage.At? ==>
                  && buf.storage.address in w'.heap && buf.storage.address % BUFFER_ALIGN == 0
                  && var bytes := w'.heap[buf.storage.address].bytes;
                     && IsPow2(bytes) && bytes == buf.storage.capacity * elem.size
                     && (bytes == BUFFER_ALIGN || bytes < 2 * (capacity * elem.size)))
  {
    if elem.size > 0 && capacity > 0 && Top(w.free, Chunks(elem, capacity)).Some? {
      var key := Chunks(elem, capacity);
      assert BlockSound(w.heap, key, w.free[key][|w.free[key]| - 1]);
    }
  }

  /** A clone is an allocation of the length followed by an extension that never outgrows it. */
  lemma {:induction false} CloneIsAllocThenExtend(w: World, h: nat, copy: nat, place: nat)
    requires Inv(w) && Enabled(w, Clone(h, copy, place))
    ensures var buf := w.live[h];
            var alloc := Alloc(copy, buf.elem, |buf.contents|, place);
            && Enabled(w, alloc)
            && var mid := Next(w, alloc);
               && mid.live[copy].Fits(|buf.contents|)
               && Enabled(mid, Extend(copy, buf.contents, 0, 0))
               && Next(w, Clone(h, copy, place)) == Next(mid, Extend(copy, buf.contents, 0, 0))
  {
    var buf := w.live[h];
    HandedOut(w, copy, buf.elem, |buf.contents|, place);
    assert [] + buf.contents == buf.contents;
  }

  lemma PushThenPop(free: FreeList, key: nat, block: Block)
    ensures Top(Pushed(free, key, block), key) == Some(block)
    ensures Popped(Pushed(free, key, block), key) == free[key := if key in free then free[key] else []]
  {
    var blocks := if key in free then free[key] else [];
    assert (blocks + [block])[..|blocks|] == blocks;
  }

  /** A dropped block is the one the next request of its size gets, whatever its element type. */
  lemma {:induction false} DropThenAlloc(w: World, h: nat, copy: nat, elem: Elem, capacity: nat, place: nat)
    requires Inv(w) && h in w.live && copy !in w.live && Reclaimable(w.live[h])
    requires elem.Valid() && elem.size > 0 && capacity > 0
    requires ByteLen(elem, capacity) == w.live[h].storage.capacity * w.live[h].elem.size
    ensures var mid := Next(w, Drop(h));
            && Enabled(mid, Alloc(copy, elem, capacity, place))
            && var w' := Next(mid, Alloc(copy, elem, capacity, place));
               && w'.live[copy].storage.At? && w'.live[copy].storage.address == w.live[h].storage.address
               && w'.heap == w.heap
               && (forall key, i :: key in w.free && 0 <= i < |w.free[key]| ==>
                     key in w'.free && i < |w'.free[key]| && w'.free[key][i] == w.free[key][i])
  {
    var key := ByteLen(elem, capacity) / BUFFER_ALIGN;
    var mid := Next(w, Drop(h));
    PushThenPop(w.free, key, Block(w.live[h].storage.address, key));
    assert mid == World(w.heap, Pushed(w.free, key, Block(w.live[h].storage.address, key)), w.live - {h});
    hide Inv, Pushed, Popped, Top, ByteLen, ElemCapacity, IsPow2, Placeable;
    assert Chunks(elem, capacity) == key;
  }

  // ---- Blocks the pool did not hand out. ----

  lemma ChunksPow2(elem: Elem, capacity: nat)
    requires elem.Valid() && elem.size > 0 && capacity > 0
    ensures IsPow2(Chunks(elem, capacity))
  {
    var b := ByteLen(elem, capacity);
    var e: nat :| b == Pow2(e);
    assert Pow2(5) == 32 && Pow2(6) == 64;
    if e < 6 {
      Pow2Mono(e, 5);
    }
    Pow2Add(6, e - 6);
    assert Chunks(elem, capacity) == Pow2(e - 6);
  }

  /** Every free block was allocated with the alignment the pool gives its blocks, so that rebuilding
      its owner restores the layout it was allocated with. */
  ghost predicate LayoutsRestored(w: World) {
    forall key, i :: key in w.free && 0 <= i < |w.free[key]| ==>
      w.free[key][i].address in w.heap && w.heap[w.free[key][i].address].align == BUFFER_ALIGN
  }

  /** The step makes a vector outgrow its block. */
  ghost predicate Outgrows(w: World, step: Step)
    requires Enabled(w, step)
  {
    step.Extend? && !w.live[step.handle].Fits(|w.live[step.handle].contents + step.values|)
  }

  /** Which buffers in use have outgrown their block, after a step. */
  ghost function OutgrownAfter(w: World, outgrown: set<nat>, step: Step): set<nat>
    requires Enabled(w, step)
  {
    if step.Drop? then outgrown - {step.handle}
    else if Outgrows(w, step) then outgrown + {step.handle}
    else outgrown
  }

  /** A buffer that outgrew its block has its element's alignment, any other the pool's. */
  ghost predicate AlignmentsKnown(w: World, outgrown: set<nat>) {
    && outgrown <= w.live.Keys
    && (forall h :: h in w.live && w.live[h].storage.At? ==> AlignmentKnown(w, outgrown, h))
  }

  ghost predicate AlignmentKnown(w: World, outgrown: set<nat>, h: nat)
    requires h in w.live && w.live[h].storage.At?
  {
    var a := w.live[h].storage.address;
    a in w.heap && w.heap[a].align == if h in outgrown then w.live[h].elem.align else BUFFER_ALIGN
  }

  /** The step drops a buffer that outgrew its block, of elements aligned less than a chunk, at a
      place and of a size that pass the test on drop. */
  ghost predicate Mistakes(w: World, outgrown: set<nat>, step: Step)
    requires Enabled(w, step)
  {
    && step.Drop? && step.handle in outgrown
    && w.live[step.handle].elem.align != BUFFER_ALIGN && Reclaimable(w.live[step.handle])
  }

  lemma {:induction false} FreeBlocksStay(w: World, step: Step, key: nat, i: nat)
    requires Enabled(w, step) && !step.Drop?
    requires key in Next(w, step).free && i < |Next(w, step).free[key]|
    ensures key in w.free && i < |w.free[key]| && Next(w, step).free[key][i] == w.free[key][i]
  {
    hide Placeable, IsPow2, Chunks, ElemCapacity, ByteLen;
  }

  lemma AllocStays(w: World, h: nat, elem: Elem, capacity: nat, place: nat, a: nat)
    requires CanAlloc(w, elem, capacity, place) && a in w.heap
    ensures a in AllocData(w, h, elem, capacity, place).heap
    ensures AllocData(w, h, elem, capacity, place).heap[a] == w.heap[a]
  {
    hide IsPow2, ElemCapacity, ByteLen;
  }

  lemma OtherAllocationsStay(w: World, step: Step, a: nat)
    requires Enabled(w, step) && !step.Drop? && a in w.heap
    requires step.Extend? && w.live[step.handle].storage.At? ==> a != w.live[step.handle].storage.address
    ensures a in Next(w, step).heap && Next(w, step).heap[a] == w.heap[a]
  {
    hide CanAlloc, AllocData;
    match step
    case Alloc(h, elem, capacity, place) => AllocStays(w, h, elem, capacity, place, a);
    case Clone(h, copy, place) => AllocStays(w, copy, w.live[h].elem, |w.live[h].contents|, place, a);
    case Extend(h, values, grown, place) =>
      assert a in HeapWithout(w.heap, w.live[h].storage);
    case Truncate(h, len) =>
  }

  lemma {:induction false} FreeAllocationsStay(w: World, step: Step, key: nat, i: nat)
    requires Inv(w) && Enabled(w, step) && Inv(Next(w, step)) && !step.Drop?
    requires key in Next(w, step).free && i < |Next(w, step).free[key]|
    ensures key in w.free && i < |w.free[key]| && Next(w, step).free[key][i] == w.free[key][i]
    ensures var a := w.free[key][i].address; Next(w, step).heap[a] == w.heap[a]
  {
    hide Next, Enabled, HeapApart, NothingLeaks, LiveSound;
    FreeBlocksStay(w, step, key, i);
    var a := w.free[key][i].address;
    assert Owns(w, a, Pooled(key, i));
    if step.Extend? && step.handle in w.live && w.live[step.handle].storage.At? {
      assert Owns(w, w.live[step.handle].storage.address, Held(step.handle));
    }
    ExtendsLive(w, step);
    OtherAllocationsStay(w, step, a);
  }

  lemma ExtendsLive(w: World, step: Step)
    requires Enabled(w, step)
    ensures step.Extend? ==> step.handle in w.live
  {
  }

  /** A step keeps every free layout restorable unless it drops an outgrown buffer that passes the
      test, and then it does not. */
  lemma {:induction false} LayoutsKeptIff(w: World, outgrown: set<nat>, step: Step)
    requires Inv(w) && Enabled(w, step) && LayoutsRestored(w) && AlignmentsKnown(w, outgrown)
    ensures LayoutsRestored(Next(w, step)) <==> !Mistakes(w, outgrown, step)
  {
    StepKeeps(w, step);
    if step.Drop? {
      DropLayouts(w, outgrown, step.handle);
    } else {
      OtherLayouts(w, step);
    }
  }

  lemma {:induction false} OtherLayouts(w: World, step: Step)
    requires Inv(w) && Enabled(w, step) && !step.Drop? && LayoutsRestored(w) && Inv(Next(w, step))
    ensures LayoutsRestored(Next(w, step))
  {
    hide Next, Enabled;
    hide HeapApart, OneOwner, OwnedExists, NothingLeaks, LiveSound;
    var w' := Next(w, step);
    forall key, i | key in w'.free && 0 <= i < |w'.free[key]|
      ensures w'.heap[w'.free[key][i].address].align == BUFFER_ALIGN
    {
      FreeAllocationsStay(w, step, key, i);
    }
  }

  lemma {:induction false} DropLayouts(w: World, outgrown: set<nat>, h: nat)
    requires Inv(w) && h in w.live && LayoutsRestored(w) && Inv(Next(w, Drop(h))) && AlignmentsKnown(w, outgrown)
    ensures LayoutsRestored(Next(w, Drop(h))) <==> !Mistakes(w, outgrown, Drop(h))
  {
    hide HeapApart, NothingLeaks, IsPow2;
    var w' := Next(w, Drop(h));
    var buf := w.live[h];
    if Reclaimable(buf) {
      var key := buf.storage.capacity * buf.elem.size / BUFFER_ALIGN;
      assert AlignmentKnown(w, outgrown, h);
      assert w'.free[key][|w'.free[key]| - 1] == Block(buf.storage.address, key);
    } else {
      forall key, i | key in w'.free && 0 <= i < |w'.free[key]|
        ensures w'.heap[w'.free[key][i].address].align == BUFFER_ALIGN
      {
        assert Owns(w', w'.free[key][i].address, Pooled(key, i));
      }
    }
  }

  // ---- Which alignment a buffer in use has, over a run. ----

  /** A buffer the step is not about keeps its storage, and its allocation. */
  lemma {:induction false} OtherBuffersStay(w: World, step: Step, g: nat)
    requires Inv(w) && Enabled(w, step) && g in w.live && w.live[g].storage.At?
    requires step.Extend? || step.Drop? || step.Truncate? ==> g != step.handle
    ensures g in Next(w, step).live && Next(w, step).live[g] == w.live[g]
    ensures var a := w.live[g].storage.address; a in Next(w, step).heap && Next(w, step).heap[a] == w.heap[a]
  {
    hide IsPow2, Chunks, ElemCapacity, ByteLen, HeapApart, NothingLeaks, FreeSound;
    var a := w.live[g].storage.address;
    assert Owns(w, a, Held(g));
    if (step.Extend? || step.Drop?) && w.live[step.handle].storage.At? {
      assert Owns(w, w.live[step.handle].storage.address, Held(step.handle));
    }
    if !step.Drop? {
      OtherAllocationsStay(w, step, a);
    }
  }

  /** A buffer handed out lies on a block of the pool's alignment. */
  lemma {:induction false} AllocAligned(w: World, h: nat, elem: Elem, capacity: nat, place: nat)
    requires Inv(w) && LayoutsRestored(w) && CanAlloc(w, elem, capacity, place)
    ensures h in AllocData(w, h, elem, capacity, place).live
    ensures var w' := AllocData(w, h, elem, capacity, place);
            w'.live[h].storage.At? ==>
              w'.live[h].storage.address in w'.heap && w'.heap[w'.live[h].storage.address].align == BUFFER_ALIGN
  {
    hide HeapApart, OneOwner, OwnedExists, NothingLeaks, FreeSound, LiveSound, IsPow2, ElemCapacity;
    if elem.size > 0 && capacity > 0 && Top(w.free, Chunks(elem, capacity)).Some? {
      var key := Chunks(elem, capacity);
      assert w.free[key][|w.free[key]| - 1].address in w.heap;
    }
  }

  /** The buffer a step is about. */
  ghost function Subject(step: Step): nat {
    match step
    case Alloc(h, _, _, _) => h
    case Extend(h, _, _, _) => h
    case Truncate(h, _) => h
    case Clone(_, copy, _) => copy
    case Drop(h) => h
  }

  lemma {:induction false} SubjectAligned(w: World, outgrown: set<nat>, step: Step)
    requires Inv(w) && Enabled(w, step) && LayoutsRestored(w) && AlignmentsKnown(w, outgrown) && !step.Drop?
    ensures var (w', h) := (Next(w, step), Subject(step));
            h in w'.live && (w'.live[h].storage.At? ==> AlignmentKnown(w', OutgrownAfter(w, outgrown, step), h))
  {
    hide Inv, LayoutsRestored, AllocData, CanAlloc, Placeable, IsPow2;
    match step
    case Alloc(h, elem, capacity, place) =>
      assert h !in w.live.Keys;
      AllocAligned(w, h, elem, capacity, place);
    case Clone(h, copy, place) =>
      assert copy !in w.live.Keys;
      AllocAligned(w, copy, w.live[h].elem, |w.live[h].contents|, place);
    case Extend(h, values, grown, place) =>
      if w.live[h].storage.At? { assert AlignmentKnown(w, outgrown, h); }
    case Truncate(h, len) =>
      if w.live[h].storage.At? { assert AlignmentKnown(w, outgrown, h); }
  }

  lemma {:induction false} KeysAfter(w: World, outgrown: set<nat>, step: Step)
    requires Enabled(w, step) && outgrown <= w.live.Keys
    ensures OutgrownAfter(w, outgrown, step) <= Next(w, step).live.Keys
    ensures Next(w, step).live.Keys == if step.Drop? then w.live.Keys - {step.handle} else w.live.Keys + {Subject(step)}
  {
    hide Placeable, IsPow2, Chunks, ElemCapacity, ByteLen;
  }

  lemma {:induction false} AlignmentsKept(w: World, outgrown: set<nat>, step: Step)
    requires Inv(w) && Enabled(w, step) && LayoutsRestored(w) && AlignmentsKnown(w, outgrown)
    ensures AlignmentsKnown(Next(w, step), OutgrownAfter(w, outgrown, step))
  {
    hide Inv, Next, Enabled, LayoutsRestored, AlignmentKnown;
    var w', outgrown' := Next(w, step), OutgrownAfter(w, outgrown, step);
    KeysAfter(w, outgrown, step);
    forall g | g in w'.live && w'.live[g].storage.At?
      ensures AlignmentKnown(w', outgrown', g)
    {
      if g == Subject(step) && !step.Drop? {
        SubjectAligned(w, outgrown, step);
      } else {
        BystanderAligned(w, outgrown, step, g);
      }
    }
  }

  lemma {:induction false} BystanderAligned(w: World, outgrown: set<nat>, step: Step, g: nat)
    requires Inv(w) && Enabled(w, step) && AlignmentsKnown(w, outgrown)
    requires g in w.live && g != Subject(step) && g in Next(w, step).live && Next(w, step).live[g].storage.At?
    ensures AlignmentKnown(Next(w, step), OutgrownAfter(w, outgrown, step), g)
  {
    hide Inv, Placeable, AllocData, CanAlloc;
    if w.live[g].storage.At? {
      OtherBuffersStay(w, step, g);
      assert AlignmentKnown(w, outgrown, g);
    } else {
      NowhereStays(w, step, g);
    }
  }

  lemma {:induction false} NowhereStays(w: World, step: Step, g: nat)
    requires Enabled(w, step) && g in w.live && g != Subject(step) && g in Next(w, step).live
    ensures Next(w, step).live[g] == w.live[g]
  {
    hide Placeable, IsPow2, Chunks, ElemCapacity, ByteLen;
  }

  /** Every free layout is restorable after every prefix of the run. */
  ghost predicate RestoredThroughout(w: World, steps: seq<Step>)
    requires CanRun(w, steps)
    decreases |steps|
  {
    LayoutsRestored(w) && (steps == [] || RestoredThroughout(Next(w, steps[0]), steps[1..]))
  }

  /** Some step of the run drops an outgrown buffer that passes the test. */
  ghost predicate MistakesIn(w: World, outgrown: set<nat>, steps: seq<Step>)
    requires CanRun(w, steps)
    decreases |steps|
  {
    steps != [] && (Mistakes(w, outgrown, steps[0])
                    || MistakesIn(Next(w, steps[0]), OutgrownAfter(w, outgrown, steps[0]), steps[1..]))
  }

  lemma {:induction false} RestoredIffFrom(w: World, outgrown: set<nat>, steps: seq<Step>)
    requires Inv(w) && CanRun(w, steps) && LayoutsRestored(w) && AlignmentsKnown(w, outgrown)
    ensures RestoredThroughout(w, steps) <==> !MistakesIn(w, outgrown, steps)
    decreases |steps|
  {
    hide Inv, Next, Enabled, LayoutsRestored, AlignmentsKnown, Mistakes, OutgrownAfter;
    if steps != [] {
      var w', outgrown' := Next(w, steps[0]), OutgrownAfter(w, outgrown, steps[0]);
      LayoutsKeptIff(w, outgrown, steps[0]);
      if LayoutsRestored(w') {
        StepKeeps(w, steps[0]);
        AlignmentsKept(w, outgrown, steps[0]);
        RestoredIffFrom(w', outgrown', steps[1..]);
      }
    }
  }

  /** In a run from the empty pool, every block on the free list can at all times be rebuilt with the
      layout it was allocated with, if and only if no step drops a buffer that outgrew its block, has
      elements aligned less than a chunk, and passes the test on drop. */
  lemma RestoredIff(steps: seq<Step>)
    requires CanRun(EMPTY, steps)
    ensures RestoredThroughout(EMPTY, steps) <==> !MistakesIn(EMPTY, {}, steps)
  {
    assert forall a, o :: !Owns(EMPTY, a, o);
    RestoredIffFrom(EMPTY, {}, steps);
  }

  // ---- Blocks given back to the allocator. ----

  /** The step gives a buffer's block back to the allocator, under the layout of the buffer's elements:
      the vector outgrows it, or it is dropped without passing the test. */
  ghost predicate GivesBack(w: World, step: Step)
    requires Enabled(w, step)
  {
    || (Outgrows(w, step) && w.live[step.handle].storage.At?)
    || (step.Drop? && w.live[step.handle].storage.At? && !Reclaimable(w.live[step.handle]))
  }

  /** If it does, that is the layout the block was allocated with. */
  ghost predicate GivesBackRight(w: World, step: Step)
    requires Enabled(w, step)
  {
    GivesBack(w, step) ==>
      var buf := w.live[step.handle];
      buf.storage.address in w.heap && w.heap[buf.storage.address].align == buf.elem.align
  }

  /** A buffer that has not outgrown its block passes the test on drop. */
  ghost predicate PoolBlocksPass(w: World, outgrown: set<nat>) {
    forall h :: h in w.live && w.live[h].storage.At? && h !in outgrown ==> Reclaimable(w.live[h])
  }

  /** The step makes a buffer of elements aligned less than a chunk outgrow the pool's block. */
  ghost predicate LeavesPoolBlock(w: World, outgrown: set<nat>, step: Step)
    requires Enabled(w, step)
  {
    && Outgrows(w, step) && w.live[step.handle].storage.At?
    && step.handle !in outgrown && w.live[step.handle].elem.align != BUFFER_ALIGN
  }

  /** A step gives a block back under another layout than its own exactly when it is the first growth
      out of a pool block by elements aligned less than a chunk. */
  lemma {:induction false} GivesBackRightIff(w: World, outgrown: set<nat>, step: Step)
    requires Enabled(w, step) && AlignmentsKnown(w, outgrown) && PoolBlocksPass(w, outgrown)
    ensures GivesBackRight(w, step) <==> !LeavesPoolBlock(w, outgrown, step)
  {
    hide Placeable, IsPow2, CanAlloc, Reclaimable;
    if GivesBack(w, step) {
      assert AlignmentKnown(w, outgrown, step.handle);
    }
  }

  lemma {:induction false} AllocPasses(w: World, h: nat, elem: Elem, capacity: nat, place: nat)
    requires Inv(w) && CanAlloc(w, elem, capacity, place)
    ensures h in AllocData(w, h, elem, capacity, place).live
    ensures var buf := AllocData(w, h, elem, capacity, place).live[h]; buf.storage.At? ==> Reclaimable(buf)
  {
    hide HeapApart, OneOwner, OwnedExists, NothingLeaks, LiveSound, IsPow2;
    if elem.size > 0 && capacity > 0 && Top(w.free, Chunks(elem, capacity)).Some? {
      var key := Chunks(elem, capacity);
      assert BlockSound(w.heap, key, w.free[key][|w.free[key]| - 1]);
    }
  }

  lemma {:induction false} SubjectPasses(w: World, outgrown: set<nat>, step: Step)
    requires Inv(w) && Enabled(w, step) && PoolBlocksPass(w, outgrown) && !step.Drop?
    ensures var (w', h) := (Next(w, step), Subject(step));
            && h in w'.live
            && (w'.live[h].storage.At? && h !in OutgrownAfter(w, outgrown, step) ==> Reclaimable(w'.live[h]))
  {
    hide Inv, AllocData, CanAlloc, Placeable, IsPow2;
    match step
    case Alloc(h, elem, capacity, place) => AllocPasses(w, h, elem, capacity, place);
    case Clone(h, copy, place) => AllocPasses(w, copy, w.live[h].elem, |w.live[h].contents|, place);
    case Extend(h, values, grown, place) =>
    case Truncate(h, len) =>
  }

  lemma {:induction false} PoolBlocksKeepPassing(w: World, outgrown: set<nat>, step: Step)
    requires Inv(w) && Enabled(w, step) && outgrown <= w.live.Keys && PoolBlocksPass(w, outgrown)
    ensures PoolBlocksPass(Next(w, step), OutgrownAfter(w, outgrown, step))
  {
    hide Inv, Next, Enabled, Reclaimable;
    var w', outgrown' := Next(w, step), OutgrownAfter(w, outgrown, step);
    KeysAfter(w, outgrown, step);
    forall g | g in w'.live && w'.live[g].storage.At? && g !in outgrown'
      ensures Reclaimable(w'.live[g])
    {
      if g == Subject(step) && !step.Drop? {
        SubjectPasses(w, outgrown, step);
      } else {
        NowhereStays(w, step, g);
        StaysOutgrown(w, outgrown, step, g);
      }
    }
  }

  lemma {:induction false} StaysOutgrown(w: World, outgrown: set<nat>, step: Step, g: nat)
    requires Enabled(w, step) && g in w.live && g != Subject(step) && g !in OutgrownAfter(w, outgrown, step)
    ensures g !in outgrown
  {
  }

  /** After every prefix of the run every free layout is restorable, and no step gives a block back
      under another layout than its own. */
  ghost predicate RightThroughout(w: World, steps: seq<Step>)
    requires CanRun(w, steps)
    decreases |steps|
  {
    && LayoutsRestored(w)
    && (steps == [] || (GivesBackRight(w, steps[0]) && RightThroughout(Next(w, steps[0]), steps[1..])))
  }

  /** Some step of the run leaves a pool block, or drops an outgrown buffer that passes the test. */
  ghost predicate WrongIn(w: World, outgrown: set<nat>, steps: seq<Step>)
    requires CanRun(w, steps)
    decreases |steps|
  {
    steps != [] && (|| LeavesPoolBlock(w, outgrown, steps[0])
                    || Mistakes(w, outgrown, steps[0])
                    || WrongIn(Next(w, steps[0]), OutgrownAfter(w, outgrown, steps[0]), steps[1..]))
  }

  lemma {:induction false} RightIffFrom(w: World, outgrown: set<nat>, steps: seq<Step>)
    requires Inv(w) && CanRun(w, steps) && LayoutsRestored(w) && AlignmentsKnown(w, outgrown)
    requires PoolBlocksPass(w, outgrown)
    ensures RightThroughout(w, steps) <==> !WrongIn(w, outgrown, steps)
    decreases |steps|
  {
    hide Inv, Next, Enabled, LayoutsRestored, Mistakes, OutgrownAfter, GivesBackRight, LeavesPoolBlock, PoolBlocksPass;
    hide AlignmentKnown;
    if steps != [] {
      var w', outgrown' := Next(w, steps[0]), OutgrownAfter(w, outgrown, steps[0]);
      GivesBackRightIff(w, outgrown, steps[0]);
      LayoutsKeptIff(w, outgrown, steps[0]);
      if LayoutsRestored(w') {
        StepKeeps(w, steps[0]);
        AlignmentsKept(w, outgrown, steps[0]);
        PoolBlocksKeepPassing(w, outgrown, steps[0]);
        RightIffFrom(w', outgrown', steps[1..]);
      } else {
        NotRestored(w', steps[1..]);
      }
    }
  }

  lemma {:induction false} NotRestored(w: World, steps: seq<Step>)
    requires CanRun(w, steps) && !LayoutsRestored(w)
    ensures !RightThroughout(w, steps)
  {
  }

  /** In a run from the empty pool, every layout under which a block is or may be given back is the one
      it was allocated with, if and only if no buffer of elements aligned less than a chunk ever leaves
      a pool block, and none that grew from nothing is dropped and passes the test. */
  lemma RightIff(steps: seq<Step>)
    requires CanRun(EMPTY, steps)
    ensures RightThroughout(EMPTY, steps) <==> !WrongIn(EMPTY, {}, steps)
  {
    assert forall a, o :: !Owns(EMPTY, a, o);
    RightIffFrom(EMPTY, {}, steps);
  }

  /** No step of the run makes a vector outgrow its block. */
  ghost predicate StaysInside(w: World, steps: seq<Step>)
    requires CanRun(w, steps)
    decreases |steps|
  {
    steps == [] || (!Outgrows(w, steps[0]) && StaysInside(Next(w, steps[0]), steps[1..]))
  }

  /** Every allocation is one the pool made. */
  ghost predicate PoolMade(heap: Heap) {
    forall a :: a in heap ==> heap[a].align == BUFFER_ALIGN && IsPow2(heap[a].bytes)
  }

  lemma AllocInside(w: World, h: nat, elem: Elem, capacity: nat, place: nat)
    requires elem.Valid() && PoolMade(w.heap)
    ensures PoolMade(AllocData(w, h, elem, capacity, place).heap)
  {
    hide ElemCapacity;
  }

  lemma StepInside(w: World, step: Step)
    requires Enabled(w, step) && !Outgrows(w, step) && PoolMade(w.heap)
    ensures PoolMade(Next(w, step).heap)
  {
    hide AllocData, IsPow2, ByteLen;
    match step
    case Alloc(h, elem, capacity, place) => AllocInside(w, h, elem, capacity, place);
    case Clone(h, copy, place) => AllocInside(w, copy, w.live[h].elem, |w.live[h].contents|, place);
    case _ =>
  }

  /** If no vector outgrows its block, every block there is, free or in use, has the pool's alignment
      and a power of two bytes. */
  lemma {:induction false} RunInside(w: World, steps: seq<Step>)
    requires Inv(w) && CanRun(w, steps) && StaysInside(w, steps) && PoolMade(w.heap)
    ensures PoolMade(Run(w, steps).heap)
    decreases |steps|
  {
    if steps != [] {
      hide Next, Enabled, Inv, PoolMade, Outgrows;
      StepKeeps(w, steps[0]);
      StepInside(w, steps[0]);
      RunInside(Next(w, steps[0]), steps[1..]);
    }
  }

  const EIGHT_BYTES: Elem := Elem(8, 8)

  /** One element asked for, 24 put in, and the buffer dropped. A vector of capacity 8 grows to the
      larger of 16 and the 24 it needs. */
  const GROWN_RUN: seq<Step> := [Alloc(0, EIGHT_BYTES, 1, 64), Extend(0, seq(24, _ => 0), 24, 128), Drop(0)]

  lemma GrownRun()
    ensures CanRun(EMPTY, GROWN_RUN)
    ensures Run(EMPTY, GROWN_RUN) == World(map[128 := Allocation(192, 8)], map[3 := [Block(128, 3)]], map[])
  {
    var values := seq(24, _ => 0);
    var w1 := World(map[64 := Allocation(64, 64)], map[], map[0 := Buffer(EIGHT_BYTES, At(64, 8), [])]);
    var w2 := World(map[128 := Allocation(192, 8)], map[], map[0 := Buffer(EIGHT_BYTES, At(128, 24), values)]);
    var w3 := World(map[128 := Allocation(192, 8)], map[3 := [Block(128, 3)]], map[]);
    FirstStep(w1);
    SecondStep(w1, w2, values);
    ThirdStep(w2, w3);
    ThreeSteps(EMPTY, w1, w2, w3, GROWN_RUN);
  }

  lemma {:induction false} ThreeSteps(w: World, w1: World, w2: World, w3: World, steps: seq<Step>)
    requires |steps| == 3
    requires Enabled(w, steps[0]) && Next(w, steps[0]) == w1
    requires Enabled(w1, steps[1]) && Next(w1, steps[1]) == w2
    requires Enabled(w2, steps[2]) && Next(w2, steps[2]) == w3
    ensures CanRun(w, steps) && Run(w, steps) == w3
  {
    hide Next, Enabled;
    var tail := steps[1..];
    assert tail[0] == steps[1] && tail[1..][0] == steps[2] && tail[1..][1..] == [];
    assert CanRun(w2, tail[1..]) && Run(w2, tail[1..]) == w3;
    assert CanRun(w1, tail) && Run(w1, tail) == w3;
  }

  lemma FirstStep(w1: World)
    requires w1 == World(map[64 := Allocation(64, 64)], map[], map[0 := Buffer(EIGHT_BYTES, At(64, 8), [])])
    ensures Enabled(EMPTY, GROWN_RUN[0]) && Next(EMPTY, GROWN_RUN[0]) == w1
  {
    Pow2Values();
    assert EIGHT_BYTES.Valid();
    assert ByteLen(EIGHT_BYTES, 1) == 64;
  }

  lemma SecondStep(w1: World, w2: World, values: seq<Value>)
    requires values == seq(24, _ => 0)
    requires w1 == World(map[64 := Allocation(64, 64)], map[], map[0 := Buffer(EIGHT_BYTES, At(64, 8), [])])
    requires w2 == World(map[128 := Allocation(192, 8)], map[], map[0 := Buffer(EIGHT_BYTES, At(128, 24), values)])
    ensures Enabled(w1, Extend(0, values, 24, 128)) && Next(w1, Extend(0, values, 24, 128)) == w2
  {
    assert [] + values == values;
    assert HeapWithout(w1.heap, At(64, 8)) == map[];
  }

  lemma ThirdStep(w2: World, w3: World)
    requires w2.live.Keys == {0} && w2.live[0].elem == EIGHT_BYTES && w2.live[0].storage == At(128, 24)
    requires w2.free == map[]
    requires w3 == World(w2.heap, map[3 := [Block(128, 3)]], map[])
    ensures Enabled(w2, Drop(0)) && Next(w2, Drop(0)) == w3
  {
    assert [] + [Block(128, 3)] == [Block(128, 3)];
    assert w2.live - {0} == map[];
    assert Pushed(w2.free, 3, Block(128, 3)) == w3.free;
  }

  /** A run that does so: eight-byte elements, grown to 24 of them, their new storage at a multiple of
      64. The block lands under a key of three chunks. */
  lemma GrownBlockReclaimed()
    ensures CanRun(EMPTY, GROWN_RUN) && MistakesIn(EMPTY, {}, GROWN_RUN) && !RestoredThroughout(EMPTY, GROWN_RUN)
    ensures Run(EMPTY, GROWN_RUN).free == map[3 := [Block(128, 3)]]
  {
    GrownRun();
    RestoredIff(GROWN_RUN);
    var end := Run(EMPTY, GROWN_RUN);
    assert end.free[3][0] == Block(128, 3);
    if RestoredThroughout(EMPTY, GROWN_RUN) {
      RestoredAtEnd(EMPTY, GROWN_RUN);
    }
  }

  lemma {:induction false} RestoredAtEnd(w: World, steps: seq<Step>)
    requires CanRun(w, steps) && RestoredThroughout(w, steps)
    ensures LayoutsRestored(Run(w, steps))
    decreases |steps|
  {
    if steps != [] {
      RestoredAtEnd(Next(w, steps[0]), steps[1..]);
    }
  }

  lemma {:induction false} OddKeysStep(w: World, step: Step, key: nat)
    requires Enabled(w, step) && key in w.free && !IsPow2(key)
    ensures key in Next(w, step).free && w.free[key] <= Next(w, step).free[key]
  {
    match step
    case Alloc(h, elem, capacity, place) =>
      if elem.size > 0 && capacity > 0 { ChunksPow2(elem, capacity); }
    case Clone(h, copy, place) =>
      if w.live[h].elem.size > 0 && |w.live[h].contents| > 0 { ChunksPow2(w.live[h].elem, |w.live[h].contents|); }
    case _ =>
  }

  /** A block freed under a key that is not a power of two is never handed out again: whatever run
      follows, it stays where it is on the free list, and no buffer in use has it. */
  lemma {:induction false} OddKeysStay(w: World, steps: seq<Step>, key: nat)
    requires Inv(w) && CanRun(w, steps) && key in w.free && !IsPow2(key)
    ensures key in Run(w, steps).free && w.free[key] <= Run(w, steps).free[key]
    ensures forall i, h :: 0 <= i < |w.free[key]| && h in Run(w, steps).live && Run(w, steps).live[h].storage.At? ==>
              Run(w, steps).live[h].storage.address != w.free[key][i].address
    decreases |steps|
  {
    if steps == [] {
      forall i, h | 0 <= i < |w.free[key]| && h in w.live && w.live[h].storage.At?
        ensures w.live[h].storage.address != w.free[key][i].address
      {
        NotBoth(w, h, key, i);
      }
    } else {
      hide Inv, Next, Enabled, IsPow2;
      var w' := Next(w, steps[0]);
      OddKeysStep(w, steps[0], key);
      StepKeeps(w, steps[0]);
      OddKeysStay(w', steps[1..], key);
      assert forall i :: 0 <= i < |w.free[key]| ==> w.free[key][i] == w'.free[key][i];
    }
  }

  /** A block is not both free and in use. */
  lemma NotBoth(w: World, h: nat, key: nat, i: nat)
    requires Inv(w) && h in w.live && w.live[h].storage.At? && key in w.free && i < |w.free[key]|
    ensures w.live[h].storage.address != w.free[key][i].address
  {
    var a := w.free[key][i].address;
    assert Owns(w, a, Pooled(key, i));
    assert w.live[h].storage.address == a ==> Owns(w, a, Held(h));
  }

  // ---- Which free blocks can be handed out again. ----

  /** Some run from here hands this free block out. */
  ghost predicate HandedOutAgain(w: World, a: nat) {
    exists steps, h {:trigger Holds(w, steps, h, a)} :: Holds(w, steps, h, a)
  }

  /** After this run, buffer `h` has the block at `a`. */
  ghost predicate Holds(w: World, steps: seq<Step>, h: nat, a: nat) {
    && CanRun(w, steps) && h in Run(w, steps).live
    && Run(w, steps).live[h].storage.At? && Run(w, steps).live[h].storage.address == a
  }

  const BYTE_ELEM: Elem := Elem(1, 1)

  /** A request for exactly the bytes of a block of 2^e chunks asks for that many chunks. */
  lemma ChunksOfKey(key: nat)
    requires IsPow2(key)
    ensures key > 0 && BYTE_ELEM.Valid() && Chunks(BYTE_ELEM, 64 * key) == key
  {
    Scaled(key);
    hide IsPow2;
    SamePower(64 * key, NextPowerOfTwo(64 * key));
  }

  lemma Scaled(key: nat)
    requires IsPow2(key)
    ensures key > 0 && IsPow2(64 * key) && IsPow2(1)
  {
    var e: nat :| key == Pow2(e);
    Pow2Add(6, e);
    assert Pow2(0) == 1 && Pow2(6) == 64;
    assert 64 * key == Pow2(6 + e);
  }

  /** There is one power of two from a power of two up to its double. */
  lemma SamePower(n: nat, p: nat)
    requires IsPow2(n) && IsPow2(p) && n <= p < 2 * n
    ensures p == n
  {
    var i: nat :| n == Pow2(i);
    var j: nat :| p == Pow2(j);
    if i < j {
      Pow2Mono(i + 1, j);
    } else if j < i {
      Pow2Mono(j + 1, i);
    }
  }

  lemma {:induction false} UnusedHandle(used: set<nat>) returns (h: nat)
    ensures h !in used
  {
    if used == {} {
      h := 0;
    } else {
      var top := Largest(used);
      h := top + 1;
    }
  }

  lemma {:induction false} Largest(used: set<nat>) returns (m: nat)
    requires used != {}
    ensures forall x :: x in used ==> x <= m
    decreases used
  {
    var x :| x in used;
    if used == {x} {
      m := x;
    } else {
      var rest := Largest(used - {x});
      m := if x > rest then x else rest;
      assert forall y :: y in used ==> y == x || y in used - {x};
    }
  }

  /** Such a request takes the last block freed under the key. */
  lemma {:induction false} TakesTop(w: World, key: nat, h: nat)
    requires Inv(w) && key in w.free && w.free[key] != [] && IsPow2(key) && h !in w.live
    ensures var step := Alloc(h, BYTE_ELEM, 64 * key, 0);
            && Enabled(w, step)
            && var w' := Next(w, step);
               && h in w'.live && w'.live[h].storage.At?
               && w'.live[h].storage.address == w.free[key][|w.free[key]| - 1].address
               && key in w'.free && w'.free[key] == w.free[key][..|w.free[key]| - 1]
  {
    hide Inv, IsPow2, Placeable;
    ChunksOfKey(key);
  }

  /** Asking again and again brings up any block under a key that is a power of two. */
  lemma {:induction false} Served(w: World, key: nat, i: nat)
    requires Inv(w) && key in w.free && i < |w.free[key]| && IsPow2(key)
    ensures HandedOutAgain(w, w.free[key][i].address)
    decreases if key in w.free then |w.free[key]| else 0
  {
    hide Inv, Next, Enabled, IsPow2, Holds;
    var a := w.free[key][i].address;
    var h := UnusedHandle(w.live.Keys);
    var step := Alloc(h, BYTE_ELEM, 64 * key, 0);
    TakesTop(w, key, h);
    StepKeeps(w, step);
    if i == |w.free[key]| - 1 {
      OneStep(w, step, h, a);
    } else {
      Served(Next(w, step), key, i);
      var steps, g :| Holds(Next(w, step), steps, g, a);
      OneMoreStep(w, step, steps, g, a);
    }
  }

  lemma OneStep(w: World, step: Step, h: nat, a: nat)
    requires Enabled(w, step) && h in Next(w, step).live
    requires Next(w, step).live[h].storage.At? && Next(w, step).live[h].storage.address == a
    ensures Holds(w, [step], h, a)
  {
    hide Enabled, Next;
    assert [step][1..] == [];
    assert CanRun(Next(w, step), []) && Run(Next(w, step), []) == Next(w, step);
  }

  lemma {:induction false} OneMoreStep(w: World, step: Step, steps: seq<Step>, h: nat, a: nat)
    requires Enabled(w, step) && Holds(Next(w, step), steps, h, a)
    ensures Holds(w, [step] + steps, h, a)
  {
    hide Enabled, Next;
    assert ([step] + steps)[1..] == steps;
  }

  /** A free block can be handed out again if and only if its key is a power of two. */
  lemma {:induction false} ServedIff(w: World, key: nat, i: nat)
    requires Inv(w) && key in w.free && i < |w.free[key]|
    ensures HandedOutAgain(w, w.free[key][i].address) <==> IsPow2(key)
  {
    hide Inv, IsPow2, Run, CanRun;
    if IsPow2(key) {
      Served(w, key, i);
    } else if HandedOutAgain(w, w.free[key][i].address) {
      var steps, h :| Holds(w, steps, h, w.free[key][i].address);
      OddKeysStay(w, steps, key);
    }
  }
}
