/** lib/mempool.c: an arena is a linked list of chunks, blocks of an allocator or, when a
    reservation is too large for one, memory of its own. Chunk descriptors are themselves
    blocks of a second allocator. */
module Arenas {
  import opened Basics
  import opened BlockAlloc
  import opened ArenaModel

  class Arena {
    const base: Address
    const descriptor: Address
    const allocator: BlockAllocator?
    ghost const capacity: nat
    var writeIndex: nat
    var next: Arena?

    constructor (base: Address, descriptor: Address, allocator: BlockAllocator?, ghost capacity: nat)
      ensures this.base == base && this.descriptor == descriptor && this.allocator == allocator
      ensures this.capacity == capacity && writeIndex == 0 && next == null
    {
      this.base, this.descriptor, this.allocator, this.capacity := base, descriptor, allocator, capacity;
      writeIndex, next := 0, null;
    }
  }

  function Following(spine: seq<Arena>, i: nat): Arena? {
    if i + 1 < |spine| then spine[i + 1] else null
  }

  /** The list from its first chunk on. */
  ghost predicate Linked(spine: seq<Arena>)
    reads spine
  {
    && (forall i :: 0 <= i < |spine| ==> spine[i].next == Following(spine, i))
    && (forall i, j :: 0 <= i < j < |spine| ==> spine[i] != spine[j])
  }

  ghost function ChunksOf(spine: seq<Arena>): (chunks: seq<Chunk>)
    reads spine
    ensures |chunks| == |spine|
  {
    seq(|spine|, i requires 0 <= i < |spine| reads spine =>
      Chunk(spine[i].base, spine[i].capacity, spine[i].writeIndex))
  }

  /** The allocators and the heap they all live in. */
  ghost predicate Memory(heap: Heap, blocks: BlockAllocator, descriptors: BlockAllocator)
    reads heap, blocks, blocks.blocks, descriptors, descriptors.blocks
  {
    && heap.Valid() && blocks != descriptors && blocks.blocks != descriptors.blocks
    && blocks.Valid() && blocks.In(heap) && descriptors.Valid() && descriptors.In(heap)
  }

  /** What is in use: the ranges of the heap, those of them that are chunks of an allocator,
      the outstanding blocks and the outstanding descriptors. */
  datatype Pool = Pool(live: map<Address, nat>, chunks: set<Address>, blocks: set<Address>, descriptors: set<Address>)

  ghost function AllChunks(blocks: BlockAllocator, descriptors: BlockAllocator): set<Address>
    reads blocks`chunks, descriptors`chunks
  {
    set c | c in blocks.chunks + descriptors.chunks
  }

  ghost function PoolOf(heap: Heap, blocks: BlockAllocator, descriptors: BlockAllocator): Pool
    reads heap, blocks, descriptors
  {
    Pool(heap.live, AllChunks(blocks, descriptors), blocks.outstanding, descriptors.outstanding)
  }

  /** What was in use still is, and new chunks of the allocators come from elsewhere. */
  ghost predicate Extends(pool: Pool, pool': Pool) {
    && (forall q :: q in pool.live ==> q in pool'.live && pool'.live[q] == pool.live[q])
    && (forall c :: c in pool'.chunks ==> c in pool.chunks || c !in pool.live)
    && pool.blocks <= pool'.blocks && pool.descriptors <= pool'.descriptors
  }

  /** What backs a chunk: an outstanding block, or live memory that is no allocator's. */
  ghost predicate Backed(n: Arena, pool: Pool, blocks: BlockAllocator) {
    && n.descriptor in pool.descriptors
    && (n.allocator == blocks || n.allocator == null)
    && (n.allocator == blocks ==> n.base in pool.blocks && n.capacity == blocks.blockSize)
    && (n.allocator == null ==>
          n.base in pool.live && pool.live[n.base] == n.capacity > 0 && n.base !in pool.chunks)
  }

  /** Allocating takes nothing away from an arena. */
  lemma StaysBacked(n: Arena, pool: Pool, pool': Pool, blocks: BlockAllocator)
    requires Backed(n, pool, blocks) && Extends(pool, pool')
    ensures Backed(n, pool', blocks)
  {
  }

  /** An arena: its chunks are linked, and each has memory and a descriptor of its own. */
  ghost predicate Held(spine: seq<Arena>, pool: Pool, blocks: BlockAllocator)
    reads spine
  {
    && Linked(spine)
    && (forall i :: 0 <= i < |spine| ==> Backed(spine[i], pool, blocks))
    && (forall i, j :: 0 <= i < j < |spine| ==>
          spine[i].base != spine[j].base && spine[i].descriptor != spine[j].descriptor)
  }

  lemma BlockApartFromRange(heap: Heap, blocks: BlockAllocator, p: Address, q: Address)
    requires heap.Valid() && blocks.In(heap) && p in Carved(blocks.chunks, blocks.blockSize, blocks.growSize)
    requires q in heap.live && q !in blocks.chunks
    ensures Apart(p, blocks.blockSize, q, heap.live[q])
  {
    var c, i: nat :| c in blocks.chunks && i < blocks.growSize && p == BlockAt(c, blocks.blockSize, i);
    BlockInChunk(c, blocks.blockSize, blocks.growSize, i);
    assert Apart(c, heap.live[c], q, heap.live[q]);
  }

  /** Differently backed chunks share no byte. */
  lemma BackedApart(n: Arena, m: Arena, heap: Heap, blocks: BlockAllocator, descriptors: BlockAllocator)
    requires Memory(heap, blocks, descriptors) && (n.allocator == m.allocator ==> n.base != m.base)
    requires Backed(n, PoolOf(heap, blocks, descriptors), blocks)
    requires Backed(m, PoolOf(heap, blocks, descriptors), blocks)
    ensures Apart(n.base, n.capacity, m.base, m.capacity) && n.base != m.base
  {
    if n.allocator == blocks && m.allocator == blocks {
      CarvedApart(heap.live, blocks.chunks, blocks.blockSize, blocks.growSize, n.base, m.base);
    } else if n.allocator == blocks {
      BlockApartFromRange(heap, blocks, n.base, m.base);
    } else if m.allocator == blocks {
      BlockApartFromRange(heap, blocks, m.base, n.base);
    }
  }

  /** Nobody holds the memory or the descriptor of a chunk. */
  ghost predicate Unused(n: Arena, pool: Pool) {
    && n.descriptor !in pool.descriptors
    && (if n.allocator == null then n.base !in pool.live else n.base !in pool.blocks)
  }

  /** A chunk that nothing uses yet, and whose memory and descriptor nobody held before. */
  ghost predicate NewChunk(n: Arena, pool: Pool)
    reads n
  {
    n.writeIndex == 0 && n.next == null && Unused(n, pool)
  }

  /** A list of chunks got longer by chunks that nobody held before. */
  ghost predicate Lengthened(spine: seq<Arena>, longer: seq<Arena>, pool: Pool) {
    spine <= longer && forall n :: n in longer && n !in spine ==> Unused(n, pool)
  }

  /** SVR_Arena_alloc. */
  method AllocChunk(heap: Heap, blocks: BlockAllocator, descriptors: BlockAllocator) returns (n: Arena)
    requires Memory(heap, blocks, descriptors)
    modifies heap, blocks`numBlocks, blocks`index, blocks`chunks, blocks`blocks, blocks`outstanding
    modifies descriptors`numBlocks, descriptors`index, descriptors`chunks, descriptors`blocks, descriptors`outstanding
    ensures Memory(heap, blocks, descriptors)
    ensures Extends(old(PoolOf(heap, blocks, descriptors)), PoolOf(heap, blocks, descriptors))
    ensures fresh(n) && NewChunk(n, old(PoolOf(heap, blocks, descriptors)))
    ensures n.allocator == blocks && n.capacity == blocks.blockSize
    ensures Backed(n, PoolOf(heap, blocks, descriptors), blocks)
  {
    hide Heap.Valid, BlockAllocator.Valid, Carved;
    var descriptor := descriptors.Alloc(heap);
    var base := blocks.Alloc(heap);
    n := new Arena(base, descriptor, blocks, blocks.blockSize);
  }

  /** SVR_Arena_allocExternal. */
  method AllocExternal(heap: Heap, blocks: BlockAllocator, descriptors: BlockAllocator, size: nat) returns (n: Arena)
    requires Memory(heap, blocks, descriptors) && size > 0
    modifies heap
    modifies descriptors`numBlocks, descriptors`index, descriptors`chunks, descriptors`blocks, descriptors`outstanding
    ensures Memory(heap, blocks, descriptors)
    ensures Extends(old(PoolOf(heap, blocks, descriptors)), PoolOf(heap, blocks, descriptors))
    ensures fresh(n) && NewChunk(n, old(PoolOf(heap, blocks, descriptors)))
    ensures n.allocator == null && n.capacity == size && Backed(n, PoolOf(heap, blocks, descriptors), blocks)
  {
    hide Heap.Valid, BlockAllocator.Valid, Carved;
    var descriptor := descriptors.Alloc(heap);
    var base := heap.Malloc(size);
    n := new Arena(base, descriptor, null, size);
  }

  /** An arena in order: memory of its own for every chunk, and every reservation in its place. */
  ghost predicate Intact(spine: seq<Arena>, reservations: seq<Reservation>, pool: Pool, blocks: BlockAllocator)
    reads spine
  {
    && spine != [] && spine[0].allocator == blocks && Held(spine, pool, blocks)
    && ChunksOk(ChunksOf(spine), blocks.blockSize) && ReservationsOk(ChunksOf(spine), reservations)
  }

  /** A new arena is in order. */
  lemma NewArenaIntact(n: Arena, pool: Pool, blocks: BlockAllocator)
    requires n.writeIndex == 0 && n.next == null && n.allocator == blocks && Backed(n, pool, blocks)
    requires blocks.blockSize > 0
    ensures Intact([n], [], pool, blocks)
  {
  }

  /** What other arenas of the same allocators reserve leaves an arena in order. */
  lemma StaysIntact(spine: seq<Arena>, reservations: seq<Reservation>, pool: Pool, pool': Pool, blocks: BlockAllocator)
    requires Intact(spine, reservations, pool, blocks) && Extends(pool, pool')
    ensures Intact(spine, reservations, pool', blocks)
  {
    forall i | 0 <= i < |spine| ensures Backed(spine[i], pool', blocks) {
      StaysBacked(spine[i], pool, pool', blocks);
    }
  }

  /** The search loop of SVR_Arena_reserve: the chunk with room to spare, else the last one. */
  method FindChunk(first: Arena, size: nat, blockSize: nat, ghost spine: seq<Arena>)
    returns (n: Arena, found: bool, ghost k: nat)
    requires spine != [] && spine[0] == first && Linked(spine)
    ensures found <==> Search(ChunksOf(spine), size, blockSize, 0) < |spine|
    ensures found ==> k == Search(ChunksOf(spine), size, blockSize, 0) && k < |spine| && n == spine[k]
    ensures !found ==> n == spine[|spine| - 1]
  {
    n, found, k := first, false, 0;
    while n.next != null
      invariant k < |spine| && n == spine[k] && !found
      invariant Search(ChunksOf(spine), size, blockSize, 0) == Search(ChunksOf(spine), size, blockSize, k)
      decreases |spine| - k
    {
      assert spine[k].next == Following(spine, k);
      if n.writeIndex + size < blockSize {
        found := true;
        break;
      }
      n := n.next;
      k := k + 1;
    }
    assert spine[k].next == Following(spine, k);
  }

  /** Linking a chunk behind the last one. */
  method Append(last: Arena, n: Arena, ghost spine: seq<Arena>)
    requires spine != [] && spine[|spine| - 1] == last && Linked(spine) && n !in spine && n.next == null
    modifies last`next
    ensures Linked(spine + [n])
    ensures ChunksOf(spine + [n]) == old(ChunksOf(spine)) + [Chunk(n.base, n.capacity, n.writeIndex)]
  {
    last.next := n;
    ghost var longer := spine + [n];
    forall i | 0 <= i < |longer| ensures longer[i].next == Following(longer, i) {
      if i < |spine| - 1 {
        assert spine[i] != last && spine[i].next == Following(spine, i);
      }
    }
  }

  /** A chunk whose memory was not in use before is apart from those of the arena. */
  lemma NewChunkApart(spine: seq<Arena>, n: Arena, pool: Pool,
                      heap: Heap, blocks: BlockAllocator, descriptors: BlockAllocator)
    requires Memory(heap, blocks, descriptors) && Extends(pool, PoolOf(heap, blocks, descriptors))
    requires forall i :: 0 <= i < |spine| ==> Backed(spine[i], pool, blocks)
    requires Backed(n, PoolOf(heap, blocks, descriptors), blocks) && NewChunk(n, pool)
    ensures forall i :: 0 <= i < |spine| ==>
      && Backed(spine[i], PoolOf(heap, blocks, descriptors), blocks)
      && spine[i].base != n.base && spine[i].descriptor != n.descriptor
    ensures NewIsApart(ChunksOf(spine), n.base, n.capacity)
  {
    forall i | 0 <= i < |spine|
      ensures Backed(spine[i], PoolOf(heap, blocks, descriptors), blocks)
      ensures spine[i].base != n.base && spine[i].descriptor != n.descriptor
      ensures Apart(spine[i].base, spine[i].capacity, n.base, n.capacity)
    {
      StaysBacked(spine[i], pool, PoolOf(heap, blocks, descriptors), blocks);
      BackedApart(spine[i], n, heap, blocks, descriptors);
    }
  }

  /** A chunk large enough for the reservation. */
  method AllocFor(size: nat, heap: Heap, blocks: BlockAllocator, descriptors: BlockAllocator) returns (n: Arena)
    requires Memory(heap, blocks, descriptors)
    modifies heap, blocks`numBlocks, blocks`index, blocks`chunks, blocks`blocks, blocks`outstanding
    modifies descriptors`numBlocks, descriptors`index, descriptors`chunks, descriptors`blocks, descriptors`outstanding
    ensures Memory(heap, blocks, descriptors)
    ensures Extends(old(PoolOf(heap, blocks, descriptors)), PoolOf(heap, blocks, descriptors))
    ensures fresh(n) && NewChunk(n, old(PoolOf(heap, blocks, descriptors)))
    ensures n.capacity == NewCapacity(size, blocks.blockSize) && Backed(n, PoolOf(heap, blocks, descriptors), blocks)
  {
    hide Memory, PoolOf, Extends, Backed, NewChunk;
    if size > blocks.blockSize {
      n := AllocExternal(heap, blocks, descriptors, size);
    } else {
      n := AllocChunk(heap, blocks, descriptors);
    }
  }

  /** A new chunk at the end of the list. */
  method Extend(last: Arena, size: nat, ghost spine: seq<Arena>,
                heap: Heap, blocks: BlockAllocator, descriptors: BlockAllocator) returns (n: Arena)
    requires Memory(heap, blocks, descriptors) && spine != [] && spine[|spine| - 1] == last
    requires Held(spine, PoolOf(heap, blocks, descriptors), blocks)
    modifies last`next, heap, blocks`numBlocks, blocks`index, blocks`chunks, blocks`blocks, blocks`outstanding
    modifies descriptors`numBlocks, descriptors`index, descriptors`chunks, descriptors`blocks, descriptors`outstanding
    ensures Memory(heap, blocks, descriptors)
    ensures Extends(old(PoolOf(heap, blocks, descriptors)), PoolOf(heap, blocks, descriptors))
    ensures fresh(n) && Held(spine + [n], PoolOf(heap, blocks, descriptors), blocks)
    ensures ChunksOf(spine + [n]) == old(ChunksOf(spine)) + [Chunk(n.base, NewCapacity(size, blocks.blockSize), 0)]
    ensures NewIsApart(old(ChunksOf(spine)), n.base, NewCapacity(size, blocks.blockSize))
    ensures Unused(n, old(PoolOf(heap, blocks, descriptors)))
  {
    ghost var pool, chunks := PoolOf(heap, blocks, descriptors), ChunksOf(spine);
    hide Memory, PoolOf, Extends, Backed, Unused, NewCapacity, NewIsApart, ChunksOf;
    n := AllocFor(size, heap, blocks, descriptors);
    assert ChunksOf(spine) == chunks;
    NewChunkApart(spine, n, pool, heap, blocks, descriptors);
    Append(last, n, spine);
  }

  /** A new chunk to reserve n bytes in. */
  method ObtainNew(last: Arena, n: nat, ghost spine: seq<Arena>,
                   heap: Heap, blocks: BlockAllocator, descriptors: BlockAllocator)
    returns (chunk: Arena, ghost longer: seq<Arena>)
    requires Memory(heap, blocks, descriptors) && spine != [] && spine[|spine| - 1] == last
    requires Held(spine, PoolOf(heap, blocks, descriptors), blocks)
    requires Search(ChunksOf(spine), n, blocks.blockSize, 0) == |spine|
    modifies last`next, heap, blocks`numBlocks, blocks`index, blocks`chunks, blocks`blocks, blocks`outstanding
    modifies descriptors`numBlocks, descriptors`index, descriptors`chunks, descriptors`blocks, descriptors`outstanding
    ensures Memory(heap, blocks, descriptors)
    ensures Extends(old(PoolOf(heap, blocks, descriptors)), PoolOf(heap, blocks, descriptors))
    ensures Held(longer, PoolOf(heap, blocks, descriptors), blocks)
    ensures |spine| < |longer| && longer[|spine|] == chunk && fresh(chunk)
    ensures Lengthened(spine, longer, old(PoolOf(heap, blocks, descriptors)))
    ensures forall m :: m in longer ==> m in spine || fresh(m)
    ensures Obtained(old(ChunksOf(spine)), ChunksOf(longer), |spine|, n, blocks.blockSize)
  {
    ghost var pool, chunks := PoolOf(heap, blocks, descriptors), ChunksOf(spine);
    hide Memory, PoolOf, Extends, Backed, Held, Search, NewCapacity, NewIsApart, ChunksOf, Obtained, Unused, Lengthened;
    chunk := Extend(last, n, spine, heap, blocks, descriptors);
    longer := spine + [chunk];
    NewIsObtained(chunks, ChunksOf(longer), n, blocks.blockSize, chunk.base);
    LengthenedByOne(spine, longer, chunk, pool);
  }

  /** The chunk to reserve n bytes in: one that has room, or a new one. */
  method Obtain(first: Arena, n: nat, ghost spine: seq<Arena>,
                heap: Heap, blocks: BlockAllocator, descriptors: BlockAllocator)
    returns (chunk: Arena, ghost longer: seq<Arena>, ghost k: nat)
    requires Memory(heap, blocks, descriptors) && spine != [] && spine[0] == first
    requires Held(spine, PoolOf(heap, blocks, descriptors), blocks)
    modifies spine, heap, blocks`numBlocks, blocks`index, blocks`chunks, blocks`blocks, blocks`outstanding
    modifies descriptors`numBlocks, descriptors`index, descriptors`chunks, descriptors`blocks, descriptors`outstanding
    ensures Memory(heap, blocks, descriptors)
    ensures Extends(old(PoolOf(heap, blocks, descriptors)), PoolOf(heap, blocks, descriptors))
    ensures Held(longer, PoolOf(heap, blocks, descriptors), blocks)
    ensures k < |longer| && longer[k] == chunk && (chunk in spine || fresh(chunk))
    ensures Lengthened(spine, longer, old(PoolOf(heap, blocks, descriptors)))
    ensures forall m :: m in longer ==> m in spine || fresh(m)
    ensures Obtained(old(ChunksOf(spine)), ChunksOf(longer), k, n, blocks.blockSize)
  {
    var found: bool;
    chunk, found, k := FindChunk(first, n, blocks.blockSize, spine);
    hide Memory, PoolOf, Extends, Held, ChunksOf, Obtained, Lengthened;
    if found {
      longer := spine;
      NothingExtended(PoolOf(heap, blocks, descriptors));
      NothingLengthened(spine, PoolOf(heap, blocks, descriptors));
      FoundIsObtained(ChunksOf(spine), k, n, blocks.blockSize);
    } else {
      k := |spine|;
      chunk, longer := ObtainNew(chunk, n, spine, heap, blocks, descriptors);
    }
  }

  lemma NothingExtended(pool: Pool)
    ensures Extends(pool, pool)
  {
  }

  lemma NothingLengthened(spine: seq<Arena>, pool: Pool)
    ensures Lengthened(spine, spine, pool)
  {
  }

  lemma LengthenedByOne(spine: seq<Arena>, longer: seq<Arena>, n: Arena, pool: Pool)
    requires longer == spine + [n] && Unused(n, pool)
    ensures Lengthened(spine, longer, pool)
  {
  }

  /** Taking n bytes of the chunk at position k. */
  method Take(chunk: Arena, n: nat, ghost spine: seq<Arena>, ghost k: nat) returns (p: Address)
    requires Linked(spine) && k < |spine| && spine[k] == chunk
    modifies chunk`writeIndex
    ensures Linked(spine) && Taken(old(ChunksOf(spine)), ChunksOf(spine), k, n)
    ensures p == old(ChunksOf(spine))[k].base + old(ChunksOf(spine))[k].written
  {
    p := chunk.base + chunk.writeIndex;
    chunk.writeIndex := chunk.writeIndex + n;
  }

  /** Taking bytes leaves the memory as it is. */
  method TakeHeld(chunk: Arena, n: nat, ghost spine: seq<Arena>, ghost k: nat,
                  ghost heap: Heap, ghost blocks: BlockAllocator, ghost descriptors: BlockAllocator)
    returns (p: Address)
    requires Memory(heap, blocks, descriptors) && Held(spine, PoolOf(heap, blocks, descriptors), blocks)
    requires k < |spine| && spine[k] == chunk
    modifies chunk`writeIndex
    ensures Memory(heap, blocks, descriptors)
    ensures PoolOf(heap, blocks, descriptors) == old(PoolOf(heap, blocks, descriptors))
    ensures Held(spine, PoolOf(heap, blocks, descriptors), blocks)
    ensures Taken(old(ChunksOf(spine)), ChunksOf(spine), k, n)
    ensures p == old(ChunksOf(spine))[k].base + old(ChunksOf(spine))[k].written
  {
    hide Memory, PoolOf, Backed, Linked, ChunksOf, Taken;
    p := Take(chunk, n, spine, k);
  }

  /** SVR_Arena_reserve. */
  method Reserve(first: Arena, size: nat, ghost spine: seq<Arena>, ghost reservations: seq<Reservation>,
                 heap: Heap, blocks: BlockAllocator, descriptors: BlockAllocator)
    returns (p: Address, ghost longer: seq<Arena>)
    requires Memory(heap, blocks, descriptors) && spine != [] && spine[0] == first
    requires Intact(spine, reservations, PoolOf(heap, blocks, descriptors), blocks)
    modifies spine, heap, blocks`numBlocks, blocks`index, blocks`chunks, blocks`blocks, blocks`outstanding
    modifies descriptors`numBlocks, descriptors`index, descriptors`chunks, descriptors`blocks, descriptors`outstanding
    ensures Memory(heap, blocks, descriptors)
    ensures Extends(old(PoolOf(heap, blocks, descriptors)), PoolOf(heap, blocks, descriptors))
    ensures Lengthened(spine, longer, old(PoolOf(heap, blocks, descriptors)))
    ensures forall m :: m in longer ==> m in spine || fresh(m)
    ensures IsReservation(old(ChunksOf(spine)), ChunksOf(longer), size, blocks.blockSize, p)
    ensures Intact(longer, reservations + [Reserved(old(ChunksOf(spine)), size, blocks.blockSize)],
                   PoolOf(heap, blocks, descriptors), blocks)
  {
    ghost var chunks := ChunksOf(spine);
    var n := size;
    if n % ALLOC_ALIGNMENT > 0 {
      n := n + (ALLOC_ALIGNMENT - n % ALLOC_ALIGNMENT);
    }
    assert n == RoundUp(size);
    assert spine[0].allocator == blocks && Held(spine, PoolOf(heap, blocks, descriptors), blocks);
    assert ChunksOk(chunks, blocks.blockSize) && ReservationsOk(chunks, reservations);
    hide Memory, PoolOf, Held, Extends, RoundUp, ChunksOf, ChunksOk, ReservationsOk, Obtained, Taken;
    hide IsReservation, Reserved, Lengthened;
    var chunk;
    ghost var k;
    chunk, longer, k := Obtain(first, n, spine, heap, blocks, descriptors);
    ghost var mid := ChunksOf(longer);
    p := TakeHeld(chunk, n, longer, k, heap, blocks, descriptors);
    TakenIsReserved(chunks, mid, ChunksOf(longer), reservations, k, size, blocks.blockSize, p);
  }

  /** Everything a list of chunks holds is given back, and nothing else. */
  ghost predicate Released(pool: Pool, pool': Pool, spine: seq<Arena>) {
    && pool'.live == pool.live - (set n | n in spine && n.allocator == null :: n.base)
    && pool'.chunks == pool.chunks
    && pool'.blocks == pool.blocks - (set n | n in spine && n.allocator != null :: n.base)
    && pool'.descriptors == pool.descriptors - (set n | n in spine :: n.descriptor)
  }

  /** What giving back one chunk does. */
  ghost predicate ChunkReleased(pool: Pool, pool': Pool, n: Arena) {
    && pool'.live == pool.live - (if n.allocator == null then {n.base} else {})
    && pool'.chunks == pool.chunks
    && pool'.blocks == pool.blocks - (if n.allocator == null then {} else {n.base})
    && pool'.descriptors == pool.descriptors - {n.descriptor}
  }

  lemma TailReleasedFirst(pool: Pool, mid: Pool, pool': Pool, spine: seq<Arena>)
    requires spine != [] && Released(pool, mid, spine[1..]) && ChunkReleased(mid, pool', spine[0])
    ensures Released(pool, pool', spine)
  {
    assert spine == [spine[0]] + spine[1..];
  }

  lemma NothingReleased(pool: Pool)
    ensures Released(pool, pool, [])
  {
  }

  ghost predicate HeadApart(spine: seq<Arena>)
    requires spine != []
  {
    forall n :: n in spine[1..] ==> n.base != spine[0].base && n.descriptor != spine[0].descriptor
  }

  /** The tail of an arena is one too, and does not hold what the head holds. */
  lemma TailHeld(spine: seq<Arena>, pool: Pool, blocks: BlockAllocator)
    requires spine != [] && Held(spine, pool, blocks)
    ensures Held(spine[1..], pool, blocks) && spine[0].next == (if |spine| > 1 then spine[1] else null)
    ensures Backed(spine[0], pool, blocks) && HeadApart(spine)
  {
    var rest := spine[1..];
    forall i | 0 <= i < |rest|
      ensures rest[i].next == Following(rest, i) && Backed(rest[i], pool, blocks)
      ensures rest[i].base != spine[0].base && rest[i].descriptor != spine[0].descriptor
    {
      assert rest[i] == spine[i + 1] && spine[i + 1].next == Following(spine, i + 1);
    }
  }

  lemma HeadStaysBacked(spine: seq<Arena>, pool: Pool, mid: Pool, blocks: BlockAllocator)
    requires spine != [] && Backed(spine[0], pool, blocks) && Released(pool, mid, spine[1..])
    requires HeadApart(spine)
    ensures Backed(spine[0], mid, blocks)
  {
  }

  /** What SVR_Arena_free does with one chunk. */
  method FreeChunk(n: Arena, heap: Heap, blocks: BlockAllocator, descriptors: BlockAllocator,
                   ghost stacks: (array<Address>, array<Address>))
    requires Memory(heap, blocks, descriptors) && Backed(n, PoolOf(heap, blocks, descriptors), blocks)
    requires stacks == (blocks.blocks, descriptors.blocks)
    modifies heap, blocks`index, blocks`outstanding, descriptors`index, descriptors`outstanding
    modifies stacks.0, stacks.1
    ensures stacks == (blocks.blocks, descriptors.blocks)
    ensures Memory(heap, blocks, descriptors)
    ensures ChunkReleased(old(PoolOf(heap, blocks, descriptors)), PoolOf(heap, blocks, descriptors), n)
  {
    hide Heap.Valid, Partition, Carved;
    if n.allocator == null {
      heap.Free(n.base);
    } else {
      n.allocator.Free(n.base);
    }
    descriptors.Free(n.descriptor);
  }

  /** SVR_Arena_free: everything the arena holds is given back, each block once, and nothing else. */
  method Free(n: Arena, ghost spine: seq<Arena>, heap: Heap, blocks: BlockAllocator, descriptors: BlockAllocator,
              ghost stacks: (array<Address>, array<Address>))
    requires Memory(heap, blocks, descriptors)
    requires spine != [] && spine[0] == n && Held(spine, PoolOf(heap, blocks, descriptors), blocks)
    requires stacks == (blocks.blocks, descriptors.blocks)
    modifies heap, blocks`index, blocks`outstanding, descriptors`index, descriptors`outstanding
    modifies stacks.0, stacks.1
    ensures stacks == (blocks.blocks, descriptors.blocks)
    ensures Memory(heap, blocks, descriptors)
    ensures Released(old(PoolOf(heap, blocks, descriptors)), PoolOf(heap, blocks, descriptors), spine)
    decreases |spine|
  {
    ghost var pool, rest := PoolOf(heap, blocks, descriptors), spine[1..];
    TailHeld(spine, pool, blocks);
    hide *;
    if n.next != null {
      Free(n.next, rest, heap, blocks, descriptors, stacks);
    } else {
      NothingReleased(pool);
    }
    ghost var mid := PoolOf(heap, blocks, descriptors);
    HeadStaysBacked(spine, pool, mid, blocks);
    FreeChunk(n, heap, blocks, descriptors, stacks);
    TailReleasedFirst(pool, mid, PoolOf(heap, blocks, descriptors), spine);
  }
}
