/**
 * Client sequences over the allocator of mm.c: what a caller of mm_malloc
 * and mm_free can rely on across calls, derived from the contracts of the
 * single operations alone.
 */
module Scenarios {
  import opened Wrappers
  import opened Layout
  import opened ImplicitList
  import opened Allocator

  /**
   * First fit gives a freed block back: mm_malloc(size), mm_free of the
   * result, then mm_malloc(size) again returns the same pointer, whether the
   * first call reused a block or grew the heap.
   */
  method MallocFreeMalloc(heap: Heap, size: Word) returns (p: Option<nat>, q: Option<nat>)
    requires heap.Valid()
    modifies heap, heap.mem
    ensures heap.Valid()
    ensures p.Some? ==> q == p
  {
    ghost var k: nat;
    p, k := heap.Malloc(size);
    if p == None {
      return p, None;
    }
    q := FreeThenMalloc(heap, p.value, k, size);
  }

  /**
   * mm_free of the payload of block k, then mm_malloc(size), where block k
   * is the first block that a request of that size fits once it is free:
   * the request gets block k back.
   */
  method FreeThenMalloc(heap: Heap, p: nat, ghost k: nat, size: Word) returns (q: Option<nat>)
    requires heap.Valid() && 0 < size <= MAX_REQUEST
    requires 1 <= k < |heap.blocks| && p == HeaderIndex(heap.blocks, k) + 1
    requires Size(heap.blocks[k]) >= RequestSize(size)
    requires forall j :: 0 <= j < k ==> !Fits(heap.blocks[j], RequestSize(size))
    modifies heap, heap.mem
    ensures heap.Valid()
    ensures q == Some(p)
  {
    ghost var bs1 := heap.blocks;
    heap.Free(p, k);
    ghost var bs2 := heap.blocks;
    OffsetSameSizes(bs1, bs2, k);
    FirstFitUnique(bs2, RequestSize(size), k);
    assert p == HeaderIndex(bs2, k) + 1;
    ghost var k';
    q, k' := heap.Malloc(size);
  }

  /**
   * Two mm_malloc calls in a row, with no mm_free between them, never
   * return the same pointer: the first block is allocated when the second
   * walk passes it, and a grown heap starts past every existing block.
   */
  method MallocTwice(heap: Heap, m: Word, n: Word) returns (p: Option<nat>, q: Option<nat>)
    requires heap.Valid()
    modifies heap, heap.mem
    ensures heap.Valid()
    ensures p.Some? && q.Some? ==> p.value != q.value
  {
    ghost var k: nat;
    ghost var k': nat;
    p, k := heap.Malloc(m);
    if p == None {
      q, k' := heap.Malloc(n);
      return;
    }
    ghost var bs1 := heap.blocks;
    heap.ValidSpan();
    q, k' := heap.Malloc(n);
    if q.Some? {
      if FirstFit(bs1, RequestSize(n)).Some? {
        HeadersDistinct(bs1, k, FirstFit(bs1, RequestSize(n)).value);
      } else {
        BlocksDisjoint(bs1, k, |bs1|);
      }
    }
  }
}
