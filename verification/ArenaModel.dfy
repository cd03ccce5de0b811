/** lib/mempool.c, on values: which chunk of an arena a reservation goes to, and why no two
    reservations ever overlap. */
module ArenaModel {
  import opened Basics
  import opened BlockAlloc

  const ALLOC_ALIGNMENT := 2

  /** A chunk: where it lies, how large it is, and how much of it is reserved. */
  datatype Chunk = Chunk(base: Address, capacity: nat, written: nat)

  function RoundUp(size: nat): (r: nat)
    ensures r % ALLOC_ALIGNMENT == 0 && size <= r < size + ALLOC_ALIGNMENT
  {
    if size % ALLOC_ALIGNMENT > 0 then size + (ALLOC_ALIGNMENT - size % ALLOC_ALIGNMENT) else size
  }

  /** The chunk the search from chunk i on ends at: the first one but the last with room to
      spare, or |chunks| when a new one is needed. */
  function Search(chunks: seq<Chunk>, size: nat, blockSize: nat, i: nat): (k: nat)
    requires i < |chunks|
    ensures k <= |chunks| && (k < |chunks| ==> i <= k < |chunks| - 1 && chunks[k].written + size < blockSize)
    ensures forall j :: i <= j < |chunks| - 1 && j < k ==> chunks[j].written + size >= blockSize
    decreases |chunks| - i
  {
    if i == |chunks| - 1 then |chunks|
    else if chunks[i].written + size < blockSize then i
    else Search(chunks, size, blockSize, i + 1)
  }

  /** The capacity of the chunk allocated for a reservation that no chunk has room for. */
  function NewCapacity(size: nat, blockSize: nat): nat {
    if size > blockSize then size else blockSize
  }

  /** The chunks after reserving `size` bytes, a new chunk lying at `base` if there is one. */
  function Reserve(chunks: seq<Chunk>, size: nat, blockSize: nat, base: Address): seq<Chunk>
    requires chunks != []
  {
    var n, k := RoundUp(size), Search(chunks, RoundUp(size), blockSize, 0);
    if k < |chunks| then chunks[k := chunks[k].(written := chunks[k].written + n)]
    else chunks + [Chunk(base, NewCapacity(n, blockSize), n)]
  }

  /** Where a reservation lies: its chunk, its offset there and its size. */
  datatype Reservation = Reservation(chunk: nat, offset: nat, size: nat)

  function Reserved(chunks: seq<Chunk>, size: nat, blockSize: nat): Reservation
    requires chunks != []
  {
    var n, k := RoundUp(size), Search(chunks, RoundUp(size), blockSize, 0);
    Reservation(k, if k < |chunks| then chunks[k].written else 0, n)
  }

  /** A chunk is a block, or is larger than one and reserved to the end. */
  ghost predicate ChunkOk(c: Chunk, blockSize: nat) {
    && c.written <= c.capacity && c.written % ALLOC_ALIGNMENT == 0
    && (c.capacity == blockSize || (c.capacity > blockSize && c.written == c.capacity))
  }

  ghost predicate ChunksOk(chunks: seq<Chunk>, blockSize: nat) {
    && chunks != [] && blockSize > 0
    && (forall i :: 0 <= i < |chunks| ==> ChunkOk(chunks[i], blockSize))
    && (forall i, j :: 0 <= i < j < |chunks| ==>
          Apart(chunks[i].base, chunks[i].capacity, chunks[j].base, chunks[j].capacity))
  }

  ghost predicate ReservationsOk(chunks: seq<Chunk>, reservations: seq<Reservation>) {
    && (forall r :: r in reservations ==>
          r.chunk < |chunks| && r.offset % ALLOC_ALIGNMENT == 0 && r.offset + r.size <= chunks[r.chunk].written)
    && (forall i, j :: 0 <= i < j < |reservations| && reservations[i].chunk == reservations[j].chunk ==>
          reservations[i].offset + reservations[i].size <= reservations[j].offset)
  }

  function AddressOf(chunks: seq<Chunk>, r: Reservation): Address
    requires r.chunk < |chunks|
  {
    chunks[r.chunk].base + r.offset
  }

  /** A chunk that is larger than a block is never found again: its write index stays past the
      block size. */
  lemma ExternalNotReused(chunks: seq<Chunk>, size: nat, blockSize: nat, i: nat)
    requires ChunksOk(chunks, blockSize) && i < |chunks|
    ensures var k := Search(chunks, size, blockSize, i); k < |chunks| ==> chunks[k].capacity == blockSize
  {
    var k := Search(chunks, size, blockSize, i);
    if k < |chunks| {
      assert ChunkOk(chunks[k], blockSize);
    }
  }

  ghost predicate NewIsApart(chunks: seq<Chunk>, base: Address, capacity: nat) {
    forall i :: 0 <= i < |chunks| ==> Apart(chunks[i].base, chunks[i].capacity, base, capacity)
  }

  /** A reservation keeps everything in order: it lies inside its chunk, at an even offset,
      behind all earlier ones of that chunk, and moves none of them. */
  lemma ReserveSafe(chunks: seq<Chunk>, reservations: seq<Reservation>, size: nat, blockSize: nat, base: Address)
    requires ChunksOk(chunks, blockSize) && ReservationsOk(chunks, reservations)
    requires Search(chunks, RoundUp(size), blockSize, 0) == |chunks| ==>
      NewIsApart(chunks, base, NewCapacity(RoundUp(size), blockSize))
    ensures var chunks' := Reserve(chunks, size, blockSize, base);
      && ChunksOk(chunks', blockSize)
      && ReservationsOk(chunks', reservations + [Reserved(chunks, size, blockSize)])
      && |chunks| <= |chunks'|
      && forall i :: 0 <= i < |chunks| ==>
           chunks'[i].base == chunks[i].base && chunks'[i].capacity == chunks[i].capacity
  {
    hide RoundUp, ReservationsOk, Search;
    var n, k := RoundUp(size), Search(chunks, RoundUp(size), blockSize, 0);
    var chunks', r := Reserve(chunks, size, blockSize, base), Reserved(chunks, size, blockSize);
    if k < |chunks| {
      ExternalNotReused(chunks, n, blockSize, 0);
      assert ChunkOk(chunks[k], blockSize);
      ReservationAppended(chunks, chunks', reservations, r);
    } else {
      ReservationAppended(chunks, chunks', reservations, r);
    }
  }

  /** The chunk at position k is where the search for n bytes ends, a new one if need be. */
  ghost predicate Obtained(chunks: seq<Chunk>, mid: seq<Chunk>, k: nat, n: nat, blockSize: nat)
    requires chunks != []
  {
    && k == Search(chunks, n, blockSize, 0) < |mid|
    && (k < |chunks| ==> mid == chunks)
    && (k == |chunks| ==>
          && mid == chunks + [Chunk(mid[k].base, NewCapacity(n, blockSize), 0)]
          && NewIsApart(chunks, mid[k].base, NewCapacity(n, blockSize)))
  }

  lemma FoundIsObtained(chunks: seq<Chunk>, k: nat, n: nat, blockSize: nat)
    requires chunks != [] && k == Search(chunks, n, blockSize, 0) < |chunks|
    ensures Obtained(chunks, chunks, k, n, blockSize)
  {
  }

  lemma NewIsObtained(chunks: seq<Chunk>, mid: seq<Chunk>, n: nat, blockSize: nat, base: Address)
    requires chunks != [] && Search(chunks, n, blockSize, 0) == |chunks|
    requires mid == chunks + [Chunk(base, NewCapacity(n, blockSize), 0)]
    requires NewIsApart(chunks, base, NewCapacity(n, blockSize))
    ensures Obtained(chunks, mid, |chunks|, n, blockSize)
  {
  }

  ghost predicate Taken(mid: seq<Chunk>, after: seq<Chunk>, k: nat, n: nat) {
    k < |mid| && after == mid[k := mid[k].(written := mid[k].written + n)]
  }

  /** One reservation: of the chunks, what they become and the address handed out. */
  ghost predicate IsReservation(chunks: seq<Chunk>, after: seq<Chunk>, size: nat, blockSize: nat, p: Address) {
    && chunks != [] && after != []
    && after == Reserve(chunks, size, blockSize, after[|after| - 1].base)
    && Reserved(chunks, size, blockSize).chunk < |after|
    && p == AddressOf(after, Reserved(chunks, size, blockSize))
  }

  /** Taking the bytes from the chunk the search ends at is the reservation. */
  lemma TakenIsReserved(chunks: seq<Chunk>, mid: seq<Chunk>, after: seq<Chunk>, reservations: seq<Reservation>,
                        k: nat, size: nat, blockSize: nat, p: Address)
    requires ChunksOk(chunks, blockSize) && ReservationsOk(chunks, reservations)
    requires Obtained(chunks, mid, k, RoundUp(size), blockSize) && Taken(mid, after, k, RoundUp(size))
    requires p == mid[k].base + mid[k].written
    ensures IsReservation(chunks, after, size, blockSize, p)
    ensures ChunksOk(after, blockSize)
    ensures ReservationsOk(after, reservations + [Reserved(chunks, size, blockSize)])
  {
    ReserveSafe(chunks, reservations, size, blockSize, after[|after| - 1].base);
    hide RoundUp, Search, NewCapacity, NewIsApart, ChunksOk, ReservationsOk;
  }

  lemma ReservationAppended(chunks: seq<Chunk>, chunks': seq<Chunk>, reservations: seq<Reservation>, r: Reservation)
    requires ReservationsOk(chunks, reservations) && |chunks| <= |chunks'|
    requires forall i :: 0 <= i < |chunks| ==> chunks'[i].written >= chunks[i].written
    requires r.chunk < |chunks'| && r.offset % ALLOC_ALIGNMENT == 0 && r.offset + r.size <= chunks'[r.chunk].written
    requires r.chunk < |chunks| ==> r.offset == chunks[r.chunk].written
    ensures ReservationsOk(chunks', reservations + [r])
  {
    var all := reservations + [r];
    forall x | x in all
      ensures x.chunk < |chunks'| && x.offset % ALLOC_ALIGNMENT == 0 && x.offset + x.size <= chunks'[x.chunk].written
    {
      assert x in reservations || x == r;
    }
    forall i, j | 0 <= i < j < |all| && all[i].chunk == all[j].chunk
      ensures all[i].offset + all[i].size <= all[j].offset
    {
      assert all[i] in reservations;
    }
  }

  /** No two reservations of an arena share a byte, and each lies inside its chunk. */
  lemma ReservationsApart(chunks: seq<Chunk>, reservations: seq<Reservation>, blockSize: nat, i: nat, j: nat)
    requires ChunksOk(chunks, blockSize) && ReservationsOk(chunks, reservations)
    requires i < j < |reservations|
    ensures var r, q := reservations[i], reservations[j];
      && r.chunk < |chunks| && q.chunk < |chunks|
      && r.offset + r.size <= chunks[r.chunk].capacity
      && Apart(AddressOf(chunks, r), r.size, AddressOf(chunks, q), q.size)
  {
    var r, q := reservations[i], reservations[j];
    assert r in reservations && q in reservations;
    assert ChunkOk(chunks[r.chunk], blockSize) && ChunkOk(chunks[q.chunk], blockSize);
  }
}
