/** lib/mempool.c: all the arenas there are at a time. They share the allocator of their blocks
    and that of their descriptors, and come and go in any order. */
module MemPools {
  import opened Basics
  import opened BlockAlloc
  import opened ArenaModel
  import opened Arenas

  /** An arena: its chunks and what was reserved in them, in this order. */
  datatype Holding = Holding(spine: seq<Arena>, reservations: seq<Reservation>)

  /** No chunk, memory or descriptor belongs to both. */
  ghost predicate SpinesApart(spine: seq<Arena>, other: seq<Arena>) {
    forall n, m :: n in spine && m in other ==> n != m && n.base != m.base && n.descriptor != m.descriptor
  }

  /** An arena, known by its first chunk, is in order. */
  ghost predicate HoldingIntact(first: Arena, h: Holding, pool: Pool, blocks: BlockAllocator)
    reads h.spine
  {
    h.spine != [] && h.spine[0] == first && Intact(h.spine, h.reservations, pool, blocks)
  }

  ghost function ChunksIn(arenas: map<Arena, Holding>): (all: set<Arena>)
    ensures forall k :: k in arenas ==> forall n :: n in arenas[k].spine ==> n in all
  {
    set k, n | k in arenas && n in arenas[k].spine :: n
  }

  /** Every arena is in order, and no two hold the same. */
  ghost predicate AllIntact(arenas: map<Arena, Holding>, pool: Pool, blocks: BlockAllocator)
    reads ChunksIn(arenas)
  {
    && (forall k :: k in arenas ==> HoldingIntact(k, arenas[k], pool, blocks))
    && (forall k, l :: k in arenas && l in arenas && k != l ==> SpinesApart(arenas[k].spine, arenas[l].spine))
  }

  lemma NoSharedChunk(spine: seq<Arena>, other: seq<Arena>)
    requires SpinesApart(spine, other)
    ensures forall i, j :: 0 <= i < |spine| && 0 <= j < |other| ==> spine[i] != other[j]
  {
    forall i, j | 0 <= i < |spine| && 0 <= j < |other| ensures spine[i] != other[j] {
      assert spine[i] in spine && other[j] in other;
    }
  }

  /** A list of chunks holds nothing that one of the arenas holds. */
  ghost predicate ApartFrom(spine: seq<Arena>, arenas: map<Arena, Holding>) {
    forall k :: k in arenas ==> SpinesApart(spine, arenas[k].spine)
  }

  lemma Without(arenas: map<Arena, Holding>, n: Arena, pool: Pool, blocks: BlockAllocator)
    requires AllIntact(arenas, pool, blocks) && n in arenas
    ensures AllIntact(arenas - {n}, pool, blocks) && ApartFrom(arenas[n].spine, arenas - {n})
    ensures HoldingIntact(n, arenas[n], pool, blocks)
    ensures forall m :: m in arenas[n].spine ==> m !in ChunksIn(arenas - {n})
  {
    hide HoldingIntact;
  }

  lemma With(arenas: map<Arena, Holding>, n: Arena, h: Holding, pool: Pool, blocks: BlockAllocator)
    requires AllIntact(arenas - {n}, pool, blocks) && HoldingIntact(n, h, pool, blocks)
    requires ApartFrom(h.spine, arenas - {n})
    ensures AllIntact(arenas[n := h], pool, blocks)
  {
    assert arenas[n := h] == (arenas - {n})[n := h];
    hide HoldingIntact;
  }

  lemma WithNew(arenas: map<Arena, Holding>, n: Arena, h: Holding, pool: Pool, blocks: BlockAllocator)
    requires AllIntact(arenas, pool, blocks) && HoldingIntact(n, h, pool, blocks)
    requires ApartFrom(h.spine, arenas) && n !in arenas
    ensures AllIntact(arenas[n := h], pool, blocks)
  {
    assert arenas - {n} == arenas;
    With(arenas, n, h, pool, blocks);
  }

  /** What an arena reserves, or a new one takes, leaves the others in order. */
  lemma ExtendedLeavesOthers(others: map<Arena, Holding>, pool: Pool, pool': Pool, blocks: BlockAllocator)
    requires AllIntact(others, pool, blocks) && Extends(pool, pool')
    ensures AllIntact(others, pool', blocks)
  {
    forall k | k in others ensures HoldingIntact(k, others[k], pool', blocks) {
      assert HoldingIntact(k, others[k], pool, blocks);
      StaysIntact(others[k].spine, others[k].reservations, pool, pool', blocks);
    }
  }

  /** Giving back what one arena holds leaves the others in order. */
  lemma ReleasedLeavesOthers(others: map<Arena, Holding>, freed: seq<Arena>,
                             pool: Pool, pool': Pool, blocks: BlockAllocator)
    requires AllIntact(others, pool, blocks) && Released(pool, pool', freed) && ApartFrom(freed, others)
    ensures AllIntact(others, pool', blocks)
  {
    forall k | k in others ensures HoldingIntact(k, others[k], pool', blocks) {
      assert HoldingIntact(k, others[k], pool, blocks);
      ReleasedLeaves(others[k].spine, others[k].reservations, freed, pool, pool', blocks);
    }
  }

  lemma ReleasedLeaves(spine: seq<Arena>, reservations: seq<Reservation>, freed: seq<Arena>,
                       pool: Pool, pool': Pool, blocks: BlockAllocator)
    requires Intact(spine, reservations, pool, blocks) && Released(pool, pool', freed) && SpinesApart(freed, spine)
    ensures Intact(spine, reservations, pool', blocks)
  {
    forall i | 0 <= i < |spine| ensures Backed(spine[i], pool', blocks) {
      assert spine[i] in spine && Backed(spine[i], pool, blocks);
    }
  }

  /** Chunks that nobody held are apart from those of the other arenas. */
  lemma LengthenedApart(spine: seq<Arena>, longer: seq<Arena>, others: map<Arena, Holding>, pool: Pool,
                        heap: Heap, blocks: BlockAllocator, descriptors: BlockAllocator)
    requires Memory(heap, blocks, descriptors) && Extends(pool, PoolOf(heap, blocks, descriptors))
    requires Lengthened(spine, longer, pool) && AllBacked(longer, PoolOf(heap, blocks, descriptors), blocks)
    requires AllIntact(others, pool, blocks) && ApartFrom(spine, others)
    ensures ApartFrom(longer, others)
  {
    forall k | k in others ensures SpinesApart(longer, others[k].spine) {
      assert HoldingIntact(k, others[k], pool, blocks);
      HeldIsBacked(others[k].spine, pool, blocks);
      LengthenedApartFrom(spine, longer, others[k].spine, pool, heap, blocks, descriptors);
    }
  }

  ghost predicate AllBacked(spine: seq<Arena>, pool: Pool, blocks: BlockAllocator) {
    forall n :: n in spine ==> Backed(n, pool, blocks)
  }

  lemma HeldIsBacked(spine: seq<Arena>, pool: Pool, blocks: BlockAllocator)
    requires Held(spine, pool, blocks)
    ensures AllBacked(spine, pool, blocks)
  {
  }

  lemma HoldingIsBacked(first: Arena, h: Holding, pool: Pool, blocks: BlockAllocator)
    requires HoldingIntact(first, h, pool, blocks)
    ensures AllBacked(h.spine, pool, blocks)
  {
    HeldIsBacked(h.spine, pool, blocks);
  }

  lemma LengthenedApartFrom(spine: seq<Arena>, longer: seq<Arena>, other: seq<Arena>, pool: Pool,
                            heap: Heap, blocks: BlockAllocator, descriptors: BlockAllocator)
    requires Memory(heap, blocks, descriptors) && Extends(pool, PoolOf(heap, blocks, descriptors))
    requires Lengthened(spine, longer, pool) && AllBacked(longer, PoolOf(heap, blocks, descriptors), blocks)
    requires AllBacked(other, pool, blocks) && SpinesApart(spine, other)
    ensures SpinesApart(longer, other)
  {
    var pool' := PoolOf(heap, blocks, descriptors);
    hide Memory, PoolOf, Extends;
    forall n, m | n in longer && m in other ensures n != m && n.base != m.base && n.descriptor != m.descriptor {
      if n !in spine {
        assert Unused(n, pool) && Backed(n, pool', blocks) && Backed(m, pool, blocks);
        StaysBacked(m, pool, pool', blocks);
        BackedApart(n, m, heap, blocks, descriptors);
      }
    }
  }

  /** Where a reservation of an arena lies. Chunks do not move, so this never changes. */
  ghost function Place(h: Holding, i: nat): Address
    requires i < |h.reservations| && h.reservations[i].chunk < |h.spine|
  {
    h.spine[h.reservations[i].chunk].base + h.reservations[i].offset
  }

  /** One more reservation, of at least `size` bytes and at p; the others stay where they are. */
  ghost predicate IsExtended(h: Holding, h': Holding, size: nat, p: Address) {
    && h.spine <= h'.spine && |h'.reservations| == |h.reservations| + 1
    && h.reservations <= h'.reservations && h'.reservations[|h.reservations|].size >= size
    && h'.reservations[|h.reservations|].chunk < |h'.spine| && Place(h', |h.reservations|) == p
  }

  /** A reservation lies inside its chunk. */
  ghost predicate Inside(h: Holding, i: nat)
    requires i < |h.reservations|
  {
    var r := h.reservations[i];
    r.chunk < |h.spine| && r.offset + r.size <= h.spine[r.chunk].capacity
  }

  ghost predicate PlacesApart(h: Holding, i: nat, g: Holding, j: nat)
    requires i < |h.reservations| && j < |g.reservations| && Inside(h, i) && Inside(g, j)
  {
    Apart(Place(h, i), h.reservations[i].size, Place(g, j), g.reservations[j].size)
  }

  lemma ReservationInside(h: Holding, i: nat, pool: Pool, blocks: BlockAllocator)
    requires Intact(h.spine, h.reservations, pool, blocks) && i < |h.reservations|
    ensures Inside(h, i)
  {
    var r, chunks := h.reservations[i], ChunksOf(h.spine);
    assert r in h.reservations && ChunkOk(chunks[r.chunk], blocks.blockSize);
  }

  lemma ApartInOne(h: Holding, i: nat, j: nat, pool: Pool, blocks: BlockAllocator)
    requires Intact(h.spine, h.reservations, pool, blocks) && i < j < |h.reservations|
    requires Inside(h, i) && Inside(h, j)
    ensures PlacesApart(h, i, h, j)
  {
    ReservationsApart(ChunksOf(h.spine), h.reservations, blocks.blockSize, i, j);
  }

  lemma ApartInTwo(h: Holding, i: nat, g: Holding, j: nat,
                   heap: Heap, blocks: BlockAllocator, descriptors: BlockAllocator)
    requires i < |h.reservations| && j < |g.reservations| && Inside(h, i) && Inside(g, j)
    requires Memory(heap, blocks, descriptors) && SpinesApart(h.spine, g.spine)
    requires AllBacked(h.spine, PoolOf(heap, blocks, descriptors), blocks)
    requires AllBacked(g.spine, PoolOf(heap, blocks, descriptors), blocks)
    ensures PlacesApart(h, i, g, j)
  {
    var n, m := h.spine[h.reservations[i].chunk], g.spine[g.reservations[j].chunk];
    hide Memory, PoolOf;
    assert n in h.spine && m in g.spine;
    BackedApart(n, m, heap, blocks, descriptors);
  }

  /** Every reservation lies inside its chunk, and no two share a byte, be they of one arena or
      of two. */
  lemma AllReservationsApart(arenas: map<Arena, Holding>, k: Arena, i: nat, l: Arena, j: nat,
                             heap: Heap, blocks: BlockAllocator, descriptors: BlockAllocator)
    requires Memory(heap, blocks, descriptors)
    requires AllIntact(arenas, PoolOf(heap, blocks, descriptors), blocks)
    requires k in arenas && i < |arenas[k].reservations| && l in arenas && j < |arenas[l].reservations|
    requires (k, i) != (l, j)
    ensures Inside(arenas[k], i) && Inside(arenas[l], j) && PlacesApart(arenas[k], i, arenas[l], j)
  {
    var h, g, pool := arenas[k], arenas[l], PoolOf(heap, blocks, descriptors);
    assert HoldingIntact(k, h, pool, blocks) && HoldingIntact(l, g, pool, blocks);
    assert k != l ==> SpinesApart(h.spine, g.spine);
    hide Memory, PoolOf, AllIntact, SpinesApart, Inside, PlacesApart, ChunksOk, ReservationsOk, Held, ChunksOf;
    ReservationInside(h, i, pool, blocks);
    ReservationInside(g, j, pool, blocks);
    if k != l {
      HeldIsBacked(h.spine, pool, blocks);
      HeldIsBacked(g.spine, pool, blocks);
      ApartInTwo(h, i, g, j, heap, blocks, descriptors);
    } else if i < j {
      ApartInOne(h, i, j, pool, blocks);
    } else {
      ApartInOne(h, j, i, pool, blocks);
      ApartSymmetric(h, j, i);
    }
  }

  lemma ApartSymmetric(h: Holding, i: nat, j: nat)
    requires i < |h.reservations| && j < |h.reservations| && Inside(h, i) && Inside(h, j)
    requires PlacesApart(h, i, h, j)
    ensures PlacesApart(h, j, h, i)
  {
  }

  lemma HoldsFirst(n: Arena, h: Holding, pool: Pool, blocks: BlockAllocator)
    requires HoldingIntact(n, h, pool, blocks)
    ensures n in h.spine
  {
  }

  lemma NewApart(n: Arena, others: map<Arena, Holding>, pool: Pool,
                 heap: Heap, blocks: BlockAllocator, descriptors: BlockAllocator)
    requires Memory(heap, blocks, descriptors) && Extends(pool, PoolOf(heap, blocks, descriptors))
    requires Unused(n, pool) && Backed(n, PoolOf(heap, blocks, descriptors), blocks)
    requires AllIntact(others, pool, blocks)
    ensures ApartFrom([n], others) && n !in others
  {
    hide Memory, PoolOf, Backed, Extends, HoldingIntact, Unused;
    LengthenedApart([], [n], others, pool, heap, blocks, descriptors);
    assert n in [n];
    if n in others {
      assert HoldingIntact(n, others[n], pool, blocks);
      HoldsFirst(n, others[n], pool, blocks);
      assert false;
    }
  }

  /** A new chunk, the other arenas left untouched. */
  method AllocAmong(ghost others: map<Arena, Holding>, heap: Heap, blocks: BlockAllocator, descriptors: BlockAllocator)
    returns (n: Arena)
    requires Memory(heap, blocks, descriptors) && AllIntact(others, PoolOf(heap, blocks, descriptors), blocks)
    modifies heap, blocks`numBlocks, blocks`index, blocks`chunks, blocks`blocks, blocks`outstanding
    modifies descriptors`numBlocks, descriptors`index, descriptors`chunks, descriptors`blocks, descriptors`outstanding
    ensures Memory(heap, blocks, descriptors)
    ensures Extends(old(PoolOf(heap, blocks, descriptors)), PoolOf(heap, blocks, descriptors))
    ensures AllIntact(others, old(PoolOf(heap, blocks, descriptors)), blocks)
    ensures fresh(n) && NewChunk(n, old(PoolOf(heap, blocks, descriptors))) && n.allocator == blocks
    ensures Backed(n, PoolOf(heap, blocks, descriptors), blocks)
  {
    ghost var pool := PoolOf(heap, blocks, descriptors);
    hide Memory, PoolOf, Backed, Extends, NewChunk, Intact, SpinesApart;
    n := AllocChunk(heap, blocks, descriptors);
    forall k | k in others ensures HoldingIntact(k, others[k], pool, blocks) {
      assert old(HoldingIntact(k, others[k], pool, blocks));
    }
  }

  /** A reservation in one arena, the others left untouched. */
  method ReserveAmong(n: Arena, size: nat, ghost h: Holding, ghost others: map<Arena, Holding>,
                      heap: Heap, blocks: BlockAllocator, descriptors: BlockAllocator)
    returns (p: Address, ghost h': Holding)
    requires Memory(heap, blocks, descriptors) && AllIntact(others, PoolOf(heap, blocks, descriptors), blocks)
    requires HoldingIntact(n, h, PoolOf(heap, blocks, descriptors), blocks) && ApartFrom(h.spine, others)
    modifies h.spine, heap, blocks`numBlocks, blocks`index, blocks`chunks, blocks`blocks, blocks`outstanding
    modifies descriptors`numBlocks, descriptors`index, descriptors`chunks, descriptors`blocks, descriptors`outstanding
    ensures Memory(heap, blocks, descriptors)
    ensures Extends(old(PoolOf(heap, blocks, descriptors)), PoolOf(heap, blocks, descriptors))
    ensures AllIntact(others, old(PoolOf(heap, blocks, descriptors)), blocks)
    ensures HoldingIntact(n, h', PoolOf(heap, blocks, descriptors), blocks)
    ensures Lengthened(h.spine, h'.spine, old(PoolOf(heap, blocks, descriptors)))
    ensures IsExtended(h, h', size, p)
  {
    ghost var pool, chunks := PoolOf(heap, blocks, descriptors), ChunksOf(h.spine);
    hide Memory, PoolOf, Backed, Extends, Intact, Reserved, IsReservation, ChunksOf;
    ghost var longer;
    p, longer := Arenas.Reserve(n, size, h.spine, h.reservations, heap, blocks, descriptors);
    h' := Holding(longer, h.reservations + [Reserved(chunks, size, blocks.blockSize)]);
    forall k | k in others ensures HoldingIntact(k, others[k], pool, blocks) {
      assert old(HoldingIntact(k, others[k], pool, blocks));
      NoSharedChunk(h.spine, others[k].spine);
    }
    ReservationPlaced(h, h', chunks, size, p, PoolOf(heap, blocks, descriptors), blocks);
  }

  lemma ReservationPlaced(h: Holding, h': Holding, chunks: seq<Chunk>, size: nat, p: Address,
                          pool: Pool, blocks: BlockAllocator)
    requires h.spine <= h'.spine && chunks != []
    requires h'.reservations == h.reservations + [Reserved(chunks, size, blocks.blockSize)]
    requires IsReservation(chunks, ChunksOf(h'.spine), size, blocks.blockSize, p)
    requires Intact(h'.spine, h'.reservations, pool, blocks)
    ensures IsExtended(h, h', size, p)
  {
    ReservationInside(h', |h.reservations|, pool, blocks);
  }

  /** SVR_Arena_free, and what is left alone. */
  method FreeKeeping(n: Arena, ghost h: Holding, ghost kept: set<Arena>,
                     heap: Heap, blocks: BlockAllocator, descriptors: BlockAllocator,
                     ghost stacks: (array<Address>, array<Address>))
    requires Memory(heap, blocks, descriptors)
    requires HoldingIntact(n, h, PoolOf(heap, blocks, descriptors), blocks)
    requires stacks == (blocks.blocks, descriptors.blocks)
    modifies heap, blocks`index, blocks`outstanding, descriptors`index, descriptors`outstanding
    modifies stacks.0, stacks.1
    ensures Memory(heap, blocks, descriptors) && unchanged(kept)
    ensures Released(old(PoolOf(heap, blocks, descriptors)), PoolOf(heap, blocks, descriptors), h.spine)
  {
    assert Held(h.spine, PoolOf(heap, blocks, descriptors), blocks) && h.spine != [] && h.spine[0] == n;
    hide Memory, PoolOf, Held, Released, HoldingIntact;
    Arenas.Free(n, h.spine, heap, blocks, descriptors, stacks);
  }

  /** One more arena beside those there are. */
  method AllocOne(ghost arenas: map<Arena, Holding>, heap: Heap, blocks: BlockAllocator, descriptors: BlockAllocator)
    returns (n: Arena)
    requires Memory(heap, blocks, descriptors) && AllIntact(arenas, PoolOf(heap, blocks, descriptors), blocks)
    modifies heap, blocks`numBlocks, blocks`index, blocks`chunks, blocks`blocks, blocks`outstanding
    modifies descriptors`numBlocks, descriptors`index, descriptors`chunks, descriptors`blocks, descriptors`outstanding
    ensures Memory(heap, blocks, descriptors) && n !in arenas
    ensures AllIntact(arenas[n := Holding([n], [])], PoolOf(heap, blocks, descriptors), blocks)
  {
    ghost var pool := PoolOf(heap, blocks, descriptors);
    assert blocks.blockSize > 0;
    hide Memory, PoolOf, Backed, Extends, AllIntact, ApartFrom, Intact, Unused;
    n := AllocAmong(arenas, heap, blocks, descriptors);
    ghost var pool' := PoolOf(heap, blocks, descriptors);
    NewArenaIntact(n, pool', blocks);
    ExtendedLeavesOthers(arenas, pool, pool', blocks);
    NewApart(n, arenas, pool, heap, blocks, descriptors);
    WithNew(arenas, n, Holding([n], []), pool', blocks);
  }

  /** A reservation in one of the arenas. */
  method ReserveOne(n: Arena, size: nat, ghost arenas: map<Arena, Holding>,
                    heap: Heap, blocks: BlockAllocator, descriptors: BlockAllocator)
    returns (p: Address, ghost h: Holding)
    requires Memory(heap, blocks, descriptors) && AllIntact(arenas, PoolOf(heap, blocks, descriptors), blocks)
    requires n in arenas
    modifies arenas[n].spine, heap, blocks`numBlocks, blocks`index, blocks`chunks, blocks`blocks, blocks`outstanding
    modifies descriptors`numBlocks, descriptors`index, descriptors`chunks, descriptors`blocks, descriptors`outstanding
    ensures Memory(heap, blocks, descriptors)
    ensures AllIntact(arenas[n := h], PoolOf(heap, blocks, descriptors), blocks)
    ensures IsExtended(arenas[n], h, size, p)
  {
    ghost var pool, others, spine := PoolOf(heap, blocks, descriptors), arenas - {n}, arenas[n].spine;
    Without(arenas, n, pool, blocks);
    hide Memory, PoolOf, Extends, AllIntact, HoldingIntact, ApartFrom, Lengthened, IsExtended, AllBacked;
    p, h := ReserveAmong(n, size, arenas[n], others, heap, blocks, descriptors);
    ghost var pool' := PoolOf(heap, blocks, descriptors);
    ExtendedLeavesOthers(others, pool, pool', blocks);
    HoldingIsBacked(n, h, pool', blocks);
    LengthenedApart(spine, h.spine, others, pool, heap, blocks, descriptors);
    With(arenas, n, h, pool', blocks);
  }

  /** One of the arenas is freed. */
  method FreeOne(n: Arena, ghost arenas: map<Arena, Holding>,
                 heap: Heap, blocks: BlockAllocator, descriptors: BlockAllocator)
    requires Memory(heap, blocks, descriptors) && AllIntact(arenas, PoolOf(heap, blocks, descriptors), blocks)
    requires n in arenas
    modifies heap, blocks`index, blocks`outstanding, descriptors`index, descriptors`outstanding
    modifies blocks.blocks, descriptors.blocks
    ensures Memory(heap, blocks, descriptors)
    ensures AllIntact(arenas - {n}, PoolOf(heap, blocks, descriptors), blocks)
  {
    ghost var pool, others, spine := PoolOf(heap, blocks, descriptors), arenas - {n}, arenas[n].spine;
    Without(arenas, n, pool, blocks);
    hide Memory, PoolOf, Released, HoldingIntact, ApartFrom, SpinesApart;
    FreeKeeping(n, arenas[n], ChunksIn(others), heap, blocks, descriptors, (blocks.blocks, descriptors.blocks));
    forall k | k in others ensures HoldingIntact(k, others[k], pool, blocks) {
      assert old(HoldingIntact(k, others[k], pool, blocks));
    }
    assert AllIntact(others, pool, blocks);
    ReleasedLeavesOthers(others, spine, pool, PoolOf(heap, blocks, descriptors), blocks);
  }

  /** lib/mempool.c as a whole: the allocators, and the arenas allocated and not yet freed. */
  class MemPool {
    const heap: Heap
    const blocks: BlockAllocator
    const descriptors: BlockAllocator
    ghost var arenas: map<Arena, Holding>

    ghost predicate Valid()
      reads this, heap, blocks, blocks.blocks, descriptors, descriptors.blocks, ChunksIn(arenas)
    {
      && Memory(heap, blocks, descriptors)
      && AllIntact(arenas, PoolOf(heap, blocks, descriptors), blocks)
    }

    constructor (blockSize: nat, descriptorSize: nat, growSize: nat, descriptorGrowSize: nat)
      requires blockSize > 0 && descriptorSize > 0 && growSize > 0 && descriptorGrowSize > 0
      ensures Valid() && arenas == map[]
    {
      heap := new Heap();
      blocks := new BlockAllocator(blockSize, growSize);
      descriptors := new BlockAllocator(descriptorSize, descriptorGrowSize);
      arenas := map[];
    }

    /** SVR_Arena_alloc: one more arena, with nothing reserved in it. */
    method Alloc() returns (n: Arena)
      requires Valid()
      modifies this`arenas, heap, blocks`numBlocks, blocks`index, blocks`chunks, blocks`blocks, blocks`outstanding
      modifies descriptors`numBlocks, descriptors`index, descriptors`chunks, descriptors`blocks, descriptors`outstanding
      ensures Valid() && n !in old(arenas) && arenas == old(arenas)[n := Holding([n], [])]
    {
      hide Memory, PoolOf, HoldingIntact, SpinesApart;
      n := AllocOne(arenas, heap, blocks, descriptors);
      arenas := arenas[n := Holding([n], [])];
    }

    /** SVR_Arena_reserve: memory that no other reservation has, in this arena or another. */
    method Reserve(n: Arena, size: nat) returns (p: Address)
      requires Valid() && n in arenas
      modifies this`arenas, arenas[n].spine, heap
      modifies blocks`numBlocks, blocks`index, blocks`chunks, blocks`blocks, blocks`outstanding
      modifies descriptors`numBlocks, descriptors`index, descriptors`chunks, descriptors`blocks, descriptors`outstanding
      ensures Valid() && n in arenas && arenas == old(arenas)[n := arenas[n]]
      ensures IsExtended(old(arenas)[n], arenas[n], size, p)
    {
      hide Memory, PoolOf, HoldingIntact, SpinesApart;
      ghost var h';
      p, h' := ReserveOne(n, size, arenas, heap, blocks, descriptors);
      arenas := arenas[n := h'];
    }

    /** SVR_Arena_free: the arena is gone, the others keep all they have. */
    method Free(n: Arena)
      requires Valid() && n in arenas
      modifies this`arenas, heap, blocks`index, blocks`outstanding, descriptors`index, descriptors`outstanding
      modifies blocks.blocks, descriptors.blocks
      ensures Valid() && arenas == old(arenas) - {n}
    {
      hide Memory, PoolOf, HoldingIntact, SpinesApart;
      FreeOne(n, arenas, heap, blocks, descriptors);
      arenas := arenas - {n};
    }
  }
}
