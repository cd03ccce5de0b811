/** lib/blockalloc.c: an allocator of fixed-size blocks, carved from chunks of `growSize` blocks
    and kept on a stack when free. Memory is addresses; malloc is an environment that hands out
    ranges apart from all those in use. */
module BlockAlloc {
  import opened Arithmetic
  import opened Basics

  /** The ranges [p, p + n) and [q, q + m) do not overlap. */
  predicate Apart(p: Address, n: nat, q: Address, m: nat) {
    p + n <= q || q + m <= p
  }

  /** malloc and free. */
  class Heap {
    ghost var live: map<Address, nat>
    var top: nat

    ghost predicate Valid()
      reads this
    {
      && (forall p :: p in live ==> live[p] > 0 && p + live[p] <= top)
      && (forall p, q :: p in live && q in live && p != q ==> Apart(p, live[p], q, live[q]))
    }

    constructor ()
      ensures Valid() && live == map[]
    {
      live, top := map[], 0;
    }

    method Malloc(n: nat) returns (p: Address)
      requires Valid() && n > 0
      modifies this
      ensures Valid() && p !in old(live) && live == old(live)[p := n]
    {
      p := top;
      top := top + n;
      live := live[p := n];
    }

    method Free(p: Address)
      requires Valid() && p in live
      modifies this
      ensures Valid() && live == old(live) - {p}
    {
      live := live - {p};
    }
  }

  function BlockAt(chunk: Address, blockSize: nat, i: nat): Address {
    chunk + i * blockSize
  }

  /** All blocks carved so far. */
  ghost function Carved(chunks: seq<Address>, blockSize: nat, growSize: nat): set<Address> {
    set c, i | c in chunks && 0 <= i < growSize :: BlockAt(c, blockSize, i)
  }

  lemma BlockInChunk(c: Address, blockSize: nat, growSize: nat, i: nat)
    requires i < growSize
    ensures c <= BlockAt(c, blockSize, i) && BlockAt(c, blockSize, i) + blockSize <= c + growSize * blockSize
  {
    MulAtLeast(i, growSize, blockSize);
  }

  lemma BlocksApart(c: Address, blockSize: nat, i: nat, j: nat)
    requires i < j
    ensures BlockAt(c, blockSize, i) + blockSize <= BlockAt(c, blockSize, j)
  {
    MulAtLeast(i, j, blockSize);
  }

  /** Different carved blocks share no byte. */
  lemma CarvedApart(live: map<Address, nat>, chunks: seq<Address>, blockSize: nat, growSize: nat,
                    p: Address, q: Address)
    requires forall c :: c in chunks ==> c in live && live[c] == growSize * blockSize
    requires forall c, d :: c in live && d in live && c != d ==> Apart(c, live[c], d, live[d])
    requires p in Carved(chunks, blockSize, growSize) && q in Carved(chunks, blockSize, growSize) && p != q
    ensures Apart(p, blockSize, q, blockSize)
  {
    var c, i: nat :| c in chunks && i < growSize && p == BlockAt(c, blockSize, i);
    var d, j: nat :| d in chunks && j < growSize && q == BlockAt(d, blockSize, j);
    BlockInChunk(c, blockSize, growSize, i);
    BlockInChunk(d, blockSize, growSize, j);
    if c == d {
      if i < j { BlocksApart(c, blockSize, i, j); } else if j < i { BlocksApart(c, blockSize, j, i); }
    }
  }

  /** The free stack and the outstanding blocks partition the carved ones. */
  ghost predicate Partition(stack: seq<Address>, outstanding: set<Address>, carved: set<Address>) {
    && NoDuplicates(stack)
    && (forall p :: p in stack ==> p !in outstanding)
    && (forall p :: p in carved <==> p in stack || p in outstanding)
  }

  lemma PopPartition(stack: seq<Address>, outstanding: set<Address>, carved: set<Address>)
    requires stack != [] && Partition(stack, outstanding, carved)
    ensures var n := |stack| - 1;
      stack[n] !in outstanding && stack[n] in carved && Partition(stack[..n], outstanding + {stack[n]}, carved)
  {
    var n := |stack| - 1;
    assert stack == stack[..n] + [stack[n]];
  }

  lemma PushPartition(stack: seq<Address>, outstanding: set<Address>, carved: set<Address>, p: Address)
    requires p in outstanding && Partition(stack, outstanding, carved)
    ensures Partition(stack + [p], outstanding - {p}, carved)
  {
  }

  lemma GrowPartition(outstanding: set<Address>, chunks: seq<Address>, chunk: Address, blockSize: nat, growSize: nat,
                      live: map<Address, nat>, stack: seq<Address>)
    requires blockSize > 0 && |stack| == growSize
    requires forall i :: 0 <= i < growSize ==> stack[i] == BlockAt(chunk, blockSize, i)
    requires Partition([], outstanding, Carved(chunks, blockSize, growSize))
    requires forall c :: c in chunks ==> c in live && live[c] == growSize * blockSize && c != chunk
    requires chunk in live && live[chunk] == growSize * blockSize
    requires forall c, d :: c in live && d in live && c != d ==> Apart(c, live[c], d, live[d])
    ensures Partition(stack, outstanding, Carved(chunks + [chunk], blockSize, growSize))
  {
    var was, all := Carved(chunks, blockSize, growSize), Carved(chunks + [chunk], blockSize, growSize);
    forall i, j | 0 <= i < j < |stack| ensures stack[i] != stack[j] {
      BlocksApart(chunk, blockSize, i, j);
    }
    forall p | p in stack ensures p in all && p !in was {
      var i :| 0 <= i < growSize && stack[i] == p;
      assert chunk in chunks + [chunk];
      BlockInChunk(chunk, blockSize, growSize, i);
      if p in was {
        var c, j: nat :| c in chunks && j < growSize && p == BlockAt(c, blockSize, j);
        BlockInChunk(c, blockSize, growSize, j);
        assert false;
      }
    }
    forall p | p in was ensures p in all {
      var c, j: nat :| c in chunks && j < growSize && p == BlockAt(c, blockSize, j);
      assert c in chunks + [chunk];
    }
    forall p | p in all ensures p in stack || p in was {
      var c, j: nat :| c in chunks + [chunk] && j < growSize && p == BlockAt(c, blockSize, j);
      assert c in chunks || c == chunk;
    }
  }

  /** Puts the blocks of a chunk on the stack. */
  method Carve(blocks: array<Address>, chunk: Address, blockSize: nat, growSize: nat)
    requires 0 < growSize <= blocks.Length
    modifies blocks
    ensures forall j :: 0 <= j < growSize ==> blocks[j] == BlockAt(chunk, blockSize, j)
  {
    blocks[0] := chunk;
    for i := 1 to growSize
      invariant forall j :: 0 <= j < i ==> blocks[j] == BlockAt(chunk, blockSize, j)
    {
      blocks[i] := BlockAt(chunk, blockSize, i);
    }
  }

  class BlockAllocator {
    const blockSize: nat
    const growSize: nat
    var numBlocks: nat
    var index: nat
    var chunks: seq<Address>
    var blocks: array<Address>

    /** The blocks handed out and not given back. */
    ghost var outstanding: set<Address>

    /** There is room on the stack for every outstanding block. */
    ghost predicate Valid()
      reads this, blocks
    {
      && blockSize > 0 && growSize > 0
      && index <= numBlocks == blocks.Length
      && Partition(blocks[..index], outstanding, Carved(chunks, blockSize, growSize))
      && index + |outstanding| == numBlocks
    }

    /** The chunks are ranges of the heap. */
    ghost predicate In(heap: Heap)
      reads this, heap
    {
      forall c :: c in chunks ==> c in heap.live && heap.live[c] == growSize * blockSize
    }

    constructor (blockSize: nat, growSize: nat)
      requires blockSize > 0 && growSize > 0
      ensures Valid() && chunks == [] && outstanding == {} && this.blockSize == blockSize && this.growSize == growSize
      ensures fresh(blocks)
    {
      this.blockSize, this.growSize := blockSize, growSize;
      numBlocks, index, chunks, outstanding := 0, 0, [], {};
      blocks := new Address[0];
    }

    /** The heap got one more chunk of this allocator, or stayed the same. */
    twostate predicate Grew(heap: Heap)
      reads this, heap
    {
      if chunks == old(chunks) then heap.live == old(heap.live)
      else |chunks| > 0 && chunks == old(chunks) + [chunks[|chunks| - 1]]
           && chunks[|chunks| - 1] !in old(heap.live)
           && heap.live == old(heap.live)[chunks[|chunks| - 1] := growSize * blockSize]
    }

    /** The growing branch of SVR_BlockAlloc_alloc. */
    method Grow(heap: Heap)
      requires Valid() && In(heap) && heap.Valid() && index == 0
      modifies this`numBlocks, this`index, this`chunks, this`blocks, heap
      ensures Valid() && In(heap) && heap.Valid() && index > 0 && Grew(heap) && chunks != old(chunks)
      ensures fresh(blocks) && outstanding == old(outstanding)
    {
      ghost var was := chunks;
      assert blocks[..0] == [];
      numBlocks := numBlocks + growSize;
      blocks := new Address[numBlocks];
      index := growSize;
      assert growSize * blockSize > 0;
      hide Heap.Valid, Carved, Partition, Apart;
      var chunk := heap.Malloc(growSize * blockSize);
      Carve(blocks, chunk, blockSize, growSize);
      chunks := chunks + [chunk];
      GrowPartition(outstanding, was, chunk, blockSize, growSize, heap.live, blocks[..index]);
    }

    /** SVR_BlockAlloc_alloc: a block that nobody holds. */
    method Alloc(heap: Heap) returns (p: Address)
      requires Valid() && In(heap) && heap.Valid()
      modifies this`numBlocks, this`index, this`chunks, this`blocks, this`outstanding, heap
      ensures Valid() && In(heap) && heap.Valid() && Grew(heap)
      ensures p !in old(outstanding) && outstanding == old(outstanding) + {p}
      ensures p in Carved(chunks, blockSize, growSize)
      ensures chunks != old(chunks) <==> old(index) == 0
      ensures blocks == old(blocks) || fresh(blocks)
    {
      hide Partition, Carved, Heap.Valid;
      if index == 0 {
        Grow(heap);
      }
      ghost var stack := blocks[..index];
      index := index - 1;
      p := blocks[index];
      PopPartition(stack, outstanding, Carved(chunks, blockSize, growSize));
      assert blocks[..index] == stack[..index];
      outstanding := outstanding + {p};
    }

    /** SVR_BlockAlloc_free. */
    method Free(p: Address)
      requires Valid() && p in outstanding
      modifies this`index, this`outstanding, blocks
      ensures Valid() && outstanding == old(outstanding) - {p}
    {
      hide Partition, Carved;
      ghost var stack := blocks[..index];
      PushPartition(stack, outstanding, Carved(chunks, blockSize, growSize), p);
      assert |outstanding| > 0;
      blocks[index] := p;
      index := index + 1;
      outstanding := outstanding - {p};
      assert blocks[..index] == stack + [p];
    }
  }
}
