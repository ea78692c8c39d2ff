# mm.c implicit-list allocator, modelled in Dafny

This project models the heap allocator of `mm.c` (a malloc lab solution):
`mm_init`, `mm_malloc`, `mm_free` and `mm_exit` over one growable run of
4-byte words. Every block has a header word and a footer word. Both hold
`size | alloc`, with the size a multiple of 8 that counts the header and the
footer. The blocks lie back to back, so the list of blocks is implicit in
their sizes. An allocated 8-byte sentinel block sits at words 1-2. A
size-0 allocated terminal marker takes the last word.

- `mm_malloc` walks the blocks from the sentinel and takes the first free
  block of at least `ALIGN(size) + 8` bytes, whole, without splitting.
- When no block fits, `mm_malloc` grows the heap by exactly that many bytes.
  The new block takes the old terminal marker's word as its header, and a
  new terminal marker follows it.
- `mm_free` clears the allocation bit in the block's header and footer, and
  nothing else.
- `mm_exit` frees every allocated block after the sentinel.

The files:

- `layout.dfy` (module `Layout`) holds the 32-bit `size_t` arithmetic of
  `ALIGN` and of the request size. It also holds the packing of a header
  word (`HEAD_SET`, `HEAD_SIZE`, `HEAD_ALLOC`). The bit masks are written as
  arithmetic on the word's value.
- `implicit_list.dfy` (module `ImplicitList`) holds the block list as
  values:
  - a `Block` datatype;
  - the predicate `TilesTo`, which says which words hold which blocks;
  - first fit (`FirstFit`) and the state after `mm_exit` (`Released`) as
    reference definitions;
  - the lemmas that connect word writes to the block list.
- `heap.dfy` (module `Allocator`) holds class `Heap`:
  - fields: the word array `mem`, the break `brk` and the ghost block list
    `blocks`;
  - the invariant `Valid()`;
  - one method per C function, with loops and `HEAD_SET` writes as in the C.

  Every method states its new word array as a sequence of updates of the
  old one (for `mm_exit`, the updates `FreeTags` lists). It also states its new block list against the reference
  definitions.
- `scenarios.dfy` (module `Scenarios`) holds call sequences a client can
  rely on: freeing and re-allocating gets the same pointer back, and two
  allocations never return the same pointer.

Word indices stand in for addresses. The heap base is word 0, and a
payload pointer is its block's header index plus one. `NULL` is `None`.
The memory system (`mem_sbrk`, `mem_heap_lo`) is a fixed-size region
(`mem`) with a break that moves up or fails.

`mm.c` keeps no explicit free list, never splits or coalesces a block, has
no search-skip threshold and does not detect a double free. A freed block is
never merged, a block found by the walk is never split, and freeing a free
block rewrites the same two words.

## Model

| member | source | states |
|---|---|---|
| Layout.Align | mm.c:38 | ALIGN(size) is a multiple of 8. Below the wrap-around bound it is at least size and less than size + 8. Above that bound the 32-bit sum wraps and the result is 0. |
| Layout.ReqSizeAsWritten | mm.c:100 | `ALIGN(size) + SIZE_T_SIZE` in 32-bit arithmetic is a multiple of 8. For 0 < size <= MAX_REQUEST it is at least size + 8 and less than size + 16. |
| Layout.ReqSizeAsWrittenWraps | mm.c:100 | For every size above MAX_REQUEST the computed block size is 0 or 8. Its payload is then smaller than the request. |
| Layout.RequestSize | mm.c:100 | The block size for an admissible request is a multiple of 8, holds the request plus a header and a footer, and wastes less than 8 bytes. |
| Layout.RequestSizeAsWritten | mm.c:100 | For every admissible request, the corrected block size equals the one mm_malloc computes. |
| Layout.HeadFields | mm.c:64-68 | HEAD_SIZE of any word is a multiple of 8 within 8 below the word. HEAD_ALLOC is one bit. |
| Layout.HeadSetRoundTrip | mm.c:64-69 | After HEAD_SET with a multiple of 8 and a single bit, HEAD_SIZE and HEAD_ALLOC read back exactly that size and bit. |
| ImplicitList.BlockOf | mm.c:121-122 | The block HEAD_SET writes for a positive multiple of 8 has exactly that size and allocation bit, and fits the layout. |
| ImplicitList.SizeBytes | mm.c:107 | A block's size in bytes is a positive multiple of 8 below 2^32, and `size / 4` is the number of words it spans. |
| ImplicitList.HeadWordIsTag | mm.c:69 | HEAD_SET of a block's size and allocation bit stores that block's tag word. |
| ImplicitList.ReadTag | mm.c:67-68 | HEAD_SIZE and HEAD_ALLOC recover a block's size and allocation bit from its tag word. |
| ImplicitList.TerminalFields | mm.c:83 | The word HEAD_SET(h, 0, 1) stores reads as size 0, allocated: the condition that ends both walks. |
| ImplicitList.FirstFit | mm.c:104-110 | The block first fit picks is free and large enough, and every block before it is allocated or too small. When no block fits, None. |
| ImplicitList.FirstFitUnique | mm.c:104-110 | Any index with the first-fit property (all earlier blocks unfit, itself fitting or past the end) is the one FirstFit returns. |
| ImplicitList.Released | mm.c:164-168 | After mm_exit the list has the same length and the same block sizes. The sentinel is unchanged and every other block is free. |
| ImplicitList.ReleasedUpTo | mm.c:164-168 | After the walk has passed blocks 1 .. k - 1, the list keeps its length and every block size. |
| ImplicitList.ReleasedUpToAt | mm.c:164-168 | After the walk has passed blocks 1 .. k - 1, each of those is free with its size unchanged, and every other block is as it was. |
| ImplicitList.ReleasedUpToAll | mm.c:164-168 | Once the walk has passed every block, the list is exactly Released of the old one. |
| ImplicitList.FreeTags | mm.c:164-168 | The words after the walk has passed blocks 1 .. k - 1 keep the length of the heap. |
| ImplicitList.FreeTagsStep | mm.c:165-166 | Passing block k rewrites its header and footer with its free tag when it is allocated, and changes no word when it is free. |
| ImplicitList.FreeTagsFrame | mm.c:164-168 | Every word that is not the header or footer of an allocated block the walk has passed keeps its value. |
| ImplicitList.OffsetNext | mm.c:107 | Stepping `cursz / 4` words from a block's header reaches the next block's header. |
| ImplicitList.OffsetSameSizes | mm.c:137-138 | Header positions depend only on block sizes, so flipping allocation bits moves no block. |
| ImplicitList.BlocksDisjoint | mm.c:104-108 | Blocks lie in address order without overlap: block j ends at or before block k starts, for j < k. |
| ImplicitList.HeaderOdd | mm.c:93 | Every header is at an odd word index, so every payload pointer is 8-byte aligned relative to the heap base. |
| ImplicitList.OffsetAppend | mm.c:121-123 | Growing the heap by one block moves no existing block. |
| ImplicitList.HeadersDistinct | mm.c:104-108 | Distinct blocks have distinct headers, hence distinct payload pointers. |
| ImplicitList.TilesSpan | mm.c:164 | The walk over the blocks ends exactly at the terminal word, and every block is well sized. |
| ImplicitList.TilesBlock | mm.c:112-113 | In a tiled heap, block k's header and footer both hold its tag, and the block lies within the heap. |
| ImplicitList.TilesHeader | mm.c:104 | At each header the walk reads the block's size and allocation bit. Past the last block it reads size 0, allocated. |
| ImplicitList.TilesFrame | mm.c:121-123 | A tiling depends only on the words it covers. |
| ImplicitList.TilesConcat | mm.c:121-123 | Two adjacent tilings form one. |
| ImplicitList.TilesUpdate | mm.c:137-138 | Rewriting one block's header and footer with the tag of a same-size block, and nothing else, keeps the heap tiled with that block in place. |
| ImplicitList.TilesMark | mm.c:112-113 | Re-marking a block's header and footer keeps the heap tiled with the re-marked block. With the block's own bit, no word changes. |
| ImplicitList.TilesGrow | mm.c:121-123 | Header and footer over the old terminal, plus a new terminal after them, extend the tiling by the new block. |
| Allocator.Heap.ValidSpan | mm.c:164-168 | In a valid heap every block is well sized, and the terminal marker follows the last block. |
| Allocator.Heap.Sbrk | mm.c:117 | mem_sbrk returns the old break and raises it by exactly incr bytes, or fails with the break unchanged when the region is full. |
| Allocator.Heap.HeadSet | mm.c:69 | HEAD_SET writes the packed word at its index and changes no other word. |
| Allocator.Heap.HeadSetTag | mm.c:69 | HEAD_SET with a block's size and bit writes that block's tag and changes no other word. |
| Allocator.Heap.ReadHeader | mm.c:67-68 | Reading a block header gives the block's size and allocation bit. At the end of the heap it gives size 0, allocated. |
| Allocator.Heap.Init | mm.c:74-89 | On a fresh region mm_init returns 0 exactly when 16 bytes are available. It then writes (8, 1) at words 1 and 2 and (0, 1) at word 3 and no other word, and the heap is valid with only the sentinel. Otherwise it returns -1 and changes nothing. |
| Allocator.Heap.FindFit | mm.c:101-108 | The walk stops at the header of the block FirstFit picks, having read its size, or at the terminal marker with size 0 when no block fits. |
| Allocator.Heap.Mark | mm.c:112-113 | The two HEAD_SETs change exactly the header and footer of block k to its same size with the given bit. The heap stays valid, and the block list changes only in that bit. |
| Allocator.Heap.Extend | mm.c:115-125 | When the region has room, the heap grows by exactly req bytes and the old terminal word becomes the new allocated block's header. Its footer and a new terminal follow, the old break is returned, and the new block is appended to the list. Otherwise it returns NULL and changes nothing. |
| Allocator.Heap.Place | mm.c:100-125 | The heap ends as `Placed` describes: the first fitting block is marked allocated whole, with exactly its header and footer rewritten, and its payload returned. Otherwise a new block of req bytes is written over the old terminal marker, followed by a new terminal, and the old break is returned. If the region is full, NULL and nothing changes. The heap stays valid, and the payload is 8-byte aligned. |
| Allocator.Heap.Malloc | mm.c:95-126 | Size 0 and sizes too large for a size_t block size return NULL and change nothing. Otherwise the result is the first free block of at least ALIGN(size) + 8 bytes, marked allocated whole with every earlier block unfit, or a new block of exactly that size at the old break. NULL only when the heap cannot grow. The heap stays valid, and the payload is 8-byte aligned. |
| Allocator.Heap.Free | mm.c:131-138 | Only the header at p - 1 and its footer change, both to the block's own size with bit 0. No neighbour is merged, the heap stays valid, and freeing a free block changes no word. |
| Allocator.Heap.ReleaseBlock | mm.c:165-166 | One step of the walk frees block k exactly when its allocation bit is set. The heap stays valid, and both the block list and the words advance by one block of the walk. |
| Allocator.Heap.Exit | mm.c:156-169 | mm_exit leaves the heap valid with the break unchanged. Its block list is Released of the old one. Its words are the old words with the header and footer of every allocated block after the sentinel rewritten as free, and no other word changed. |
| Scenarios.MallocFreeMalloc | mm.c:95-138 | mm_malloc(n), mm_free of the result, then mm_malloc(n) again returns the same pointer. |
| Scenarios.FreeThenMalloc | mm.c:104-114 | After freeing block k, a request for which k is the first fit gets block k's payload back. |
| Scenarios.MallocTwice | mm.c:104-125 | Two mm_malloc calls with no mm_free between them never return the same pointer. |

## Left out

- Allocator.Heap.Sbrk: `mem_sbrk` and `mem_heap_lo` are declared in `memlib.h`, which is not part of this model. They are modelled as a break over a fixed region based at word 0 that fails exactly when the region is full. Real addresses, the alignment of the region's base and any other failure cause are not modelled.
- Allocator.Heap.Init: requires a fresh region (break 0). A second `mm_init` on a grown heap is not modelled.
- Allocator.Heap.Malloc: does not model sizes above MAX_REQUEST (0xFFFF_FFF0) as written, because there the 32-bit block size wraps around. The model refuses them with NULL (see Findings).
- Allocator.Heap.Place: its summary of the returned block leaves out the frame. The full new state of each branch is stated by `Placed`.
- Allocator.Heap.constructor: stands for memlib's setup of the region (`mem_init`), which is not part of this model. It only allocates the region and sets the break to its base.
- Allocator.Heap.FindFit: reads HEAD_ALLOC at every header, whereas the C condition skips that read when the size is too small. Both reads are of the same word, so the result is the same.
- Allocator.Heap.Free: requires a pointer that `mm_malloc` returned, i.e. the payload of a block after the sentinel. The C reads whatever word precedes any other pointer, with undefined results.
- `mm_realloc` (mm.c:148-151) always returns NULL and touches nothing, so there is nothing to prove about it.
- `remove_range`, `gl_ranges` and the notification at the end of `mm_free` (mm.c:32, 46-62, 86, 141-142) belong to the test harness's debug registry. They work on `range_t` from `mm.h`, which is not part of this model, and call libc `free`. The allocator's state does not depend on them.
- `team` (mm.c:24-29) and the includes carry no behaviour.
- `size_t` is fixed at 4 bytes. The layout in `mm_init` (16 bytes for words 1-3) and the two-word overhead in `mm_malloc` only fit 4-byte words.
- The header comments of the file (mm.c:1-10) and of `mm_free` (mm.c:129) describe an older version without headers or footers. The model follows the code.
- The payload bytes a client writes are not modelled. Only header, footer and terminal words are.

## Findings

| source | as written | input that shows it | evidently intended | confidence | as-written member | corrected member |
|---|---|---|---|---|---|---|
| mm.c:100 | `reqsz = ALIGN(size) + SIZE_T_SIZE` is computed in 32-bit `size_t` and wraps for size > 0xFFFF_FFF0: reqsz becomes 0 (size up to 0xFFFF_FFF8) or 8 (above). | size = 0xFFFF_FFF1 gives reqsz 0. The walk then stops at the first free block of any size, or at the terminal marker; there `cursz >= reqsz` holds, so the footer of the last block is overwritten with (0, 1) and a pointer past the heap is returned. | A request whose block size does not fit in a `size_t` gets NULL. | not executed | Layout.ReqSizeAsWrittenWraps | Allocator.Heap.Malloc |
