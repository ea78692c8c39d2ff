/**
 * The allocator of mm.c: an implicit list of blocks laid out in one
 * growable run of 4-byte words. Block sizes are in bytes; indices are in
 * words; the heap base is word 0 and a payload pointer is the index of its
 * block's header plus one. NULL is None.
 *
 * Layout of a valid heap of brk words:
 *   word 0            padding, never read
 *   words 1, 2        header and footer of the 8-byte allocated sentinel
 *   ...               the other blocks, back to back
 *   word brk - 1      the terminal marker: size 0, allocated
 */
module Allocator {
  import opened Wrappers
  import opened Layout
  import opened ImplicitList

  class Heap {
    /** The region the heap grows into; the heap itself is mem[..brk]. */
    var mem: array<Word>
    /** The break: one past the last word of the heap. */
    var brk: nat
    /** The blocks of the implicit list in address order, sentinel first, terminal marker excluded. */
    ghost var blocks: seq<Block>

    /**
     * Walking from word 1 by `size / 4` words visits exactly the blocks, each
     * a positive multiple of 8 bytes with header equal to footer, and lands on
     * the terminal marker in the last word.
     */
    ghost predicate Valid()
      reads this, mem
    {
      && 4 <= brk <= mem.Length
      && |blocks| >= 1 && blocks[0] == SENTINEL
      && TilesTo(mem[..], 1, blocks, brk - 1)
      && mem[brk - 1] == TERMINAL
    }

    /**
     * What Valid() says about the block list alone: every block is well
     * sized, and the terminal marker sits right after the last one.
     */
    lemma ValidSpan()
      requires Valid()
      ensures AllWellSized(blocks) && HeaderIndex(blocks, |blocks|) == brk - 1
    {
      TilesSpan(mem[..], 1, blocks, brk - 1);
    }

    /** A region of `capacity` words with an empty heap (break at the base). */
    constructor (capacity: nat)
      ensures fresh(mem) && mem.Length == capacity && brk == 0
    {
      mem := new Word[capacity];
      brk := 0;
      blocks := [];
    }

    /**
     * mem_sbrk(incr): moves the break up by incr bytes and returns the old
     * break, or fails, leaving the break alone, when the region is full.
     */
    method Sbrk(incr: Word) returns (area: Option<nat>)
      requires incr % 4 == 0
      modifies this`brk
      ensures old(brk) + incr / 4 <= mem.Length ==>
        area == Some(old(brk)) && brk == old(brk) + incr / 4
      ensures old(brk) + incr / 4 > mem.Length ==>
        area == None && brk == old(brk)
    {
      if brk + incr / 4 <= mem.Length {
        area := Some(brk);
        brk := brk + incr / 4;
      } else {
        area := None;
      }
    }

    /** HEAD_SET(h, size, alloc): stores the packed word at index h; no other word changes. */
    method HeadSet(h: nat, size: Word, alloc: Word)
      requires h < mem.Length
      modifies mem
      ensures mem[..] == old(mem[..])[h := HeadWord(size, alloc)]
    {
      mem[h] := HeadWord(size, alloc);
    }

    /**
     * HEAD_SET(h, size, alloc) as mm_malloc and mm_free use it, with a block
     * size and a single allocation bit: the word written is that block's tag.
     */
    method HeadSetTag(h: nat, size: Word, alloc: Word, ghost b: Block)
      requires h < mem.Length && WellSized(b) && size == Size(b) && alloc == AllocBit(b)
      modifies mem
      ensures mem[..] == old(mem[..])[h := Tag(b)]
    {
      HeadWordIsTag(b);
      HeadSet(h, size, alloc);
    }

    /**
     * HEAD_SIZE and HEAD_ALLOC applied to the header of block k (k == |blocks|
     * is the terminal marker): the block's size and allocation bit, or size 0
     * and allocated at the end of the heap.
     */
    method ReadHeader(h: nat, ghost k: nat) returns (size: Word, alloc: Word)
      requires Valid() && k <= |blocks| && h == HeaderIndex(blocks, k)
      ensures h < brk
      ensures k < |blocks| ==> WellSized(blocks[k]) && h + Words(blocks[k]) < brk
      ensures k < |blocks| ==> size == Size(blocks[k]) && size / 4 == Words(blocks[k])
      ensures k < |blocks| ==> alloc == AllocBit(blocks[k])
      ensures k == |blocks| ==> h == brk - 1 && size == 0 && alloc == 1
    {
      TilesHeader(mem[..], blocks, brk - 1, k);
      if k < |blocks| {
        SizeBytes(blocks[k]);
      }
      size := HeadSize(mem[h]);
      alloc := HeadAlloc(mem[h]);
    }

    /**
     * mm_init: takes 16 bytes from a fresh region and lays out the padding
     * word, the sentinel block and the terminal marker. Returns 0, or -1 when
     * the region cannot supply the 16 bytes.
     */
    method Init() returns (r: int)
      requires brk == 0
      modifies this`brk, this`blocks, mem
      ensures r == 0 || r == -1
      ensures r == 0 <==> mem.Length >= 4
      ensures r == -1 ==> brk == 0 && blocks == old(blocks) && mem[..] == old(mem[..])
      ensures r == 0 ==> Valid() && blocks == [SENTINEL] && brk == 4
      ensures r == 0 ==> mem[..] == old(mem[..])[1 := HeadWord(8, 1)][2 := HeadWord(8, 1)][3 := HeadWord(0, 1)]
    {
      var heap := Sbrk(16);
      if heap == None {
        return -1;
      }
      HeadSet(heap.value + 1, 8, 1);
      HeadSet(heap.value + 2, 8, 1);
      HeadSet(heap.value + 3, 0, 1);
      blocks := [SENTINEL];
      HeadWordIsTag(SENTINEL);
      assert BlockAt(mem[..], 1, SENTINEL);
      assert TilesTo(mem[..], 3, blocks[1..], 3);
      return 0;
    }

    /**
     * The first-fit walk of mm_malloc: from the sentinel's header, step
     * `size / 4` words at a time past every block that is too small or
     * allocated, stopping at the first that fits or at the terminal marker.
     * Returns the header index reached and the size read there.
     */
    method FindFit(req: Word) returns (i: nat, cursz: Word, ghost k: nat)
      requires Valid() && req > 0
      ensures k <= |blocks| && i == HeaderIndex(blocks, k) && i < brk
      ensures FirstFit(blocks, req) == (if k < |blocks| then Some(k) else None)
      ensures k < |blocks| ==> cursz == Size(blocks[k]) && cursz >= req
      ensures k == |blocks| ==> i == brk - 1 && cursz == 0
    {
      TilesSpan(mem[..], 1, blocks, brk - 1);
      var alloc;
      i, k := 1, 0;
      cursz, alloc := ReadHeader(i, k);
      while cursz < req || alloc == 1
        invariant k <= |blocks| && i == HeaderIndex(blocks, k) && i < brk
        invariant k < |blocks| ==> cursz == Size(blocks[k]) && alloc == AllocBit(blocks[k])
        invariant k == |blocks| ==> i == brk - 1 && cursz == 0
        invariant forall j :: 0 <= j < k ==> !Fits(blocks[j], req)
        decreases |blocks| - k
      {
        if cursz == 0 {
          break;
        }
        assert forall j :: 0 <= j < k + 1 ==> !Fits(blocks[j], req) by {
          forall j | 0 <= j < k + 1
            ensures !Fits(blocks[j], req)
          {
            if j < k {
            }
          }
        }
        OffsetNext(blocks, k);
        i := i + cursz / 4;
        k := k + 1;
        cursz, alloc := ReadHeader(i, k);
      }
      FirstFitUnique(blocks, req, k);
    }

    /**
     * The pair of HEAD_SETs mm_malloc and mm_free apply to a block whose
     * header at h holds size cursz: the header and the footer `cursz / 4 - 1`
     * words on both get that size and the allocation bit alloc. No other word
     * changes.
     */
    method Mark(h: nat, ghost k: nat, cursz: Word, alloc: Word)
      requires Valid()
      requires 1 <= k < |blocks| && h == HeaderIndex(blocks, k)
      requires cursz == Size(blocks[k]) && alloc < 2
      modifies this`blocks, mem
      ensures Valid() && brk == old(brk)
      ensures blocks == old(blocks)[k := Block(old(blocks)[k].units, alloc == 1)]
      ensures
        var b := Block(old(blocks)[k].units, alloc == 1);
        && WellSized(b) && h + Words(b) < brk
        && mem[..] == old(mem[..])[h := Tag(b)][h + Words(b) - 1 := Tag(b)]
      ensures old(blocks)[k].alloc == (alloc == 1) ==> mem[..] == old(mem[..])
      ensures h == HeaderIndex(blocks, k)
    {
      ghost var bs := blocks;
      ghost var b := Block(blocks[k].units, alloc == 1);
      TilesMark(mem[..], blocks, brk - 1, k, b);
      SizeBytes(b);
      HeadSetTag(h, cursz, alloc, b);
      HeadSetTag(h + cursz / 4 - 1, cursz, alloc, b);
      blocks := blocks[k := b];
      OffsetSameSizes(bs, blocks, k);
    }

    /**
     * The growing branch of mm_malloc, entered with the walk stopped on the
     * terminal marker: mem_sbrk(req), then the old terminal slot becomes the
     * header of an allocated block of req bytes, its footer follows, and a
     * new terminal marker after that. Returns mem_sbrk's result, the old
     * break, which is the new block's payload; NULL when the region is full.
     */
    method Extend(req: Word) returns (p: Option<nat>)
      requires Valid() && 0 < req && req % 8 == 0
      modifies this`brk, this`blocks, mem
      ensures Valid()
      ensures
        var b := BlockOf(req, true);
        var t := old(brk) - 1;
        if old(brk) + Words(b) <= mem.Length then
          && p == Some(old(brk))
          && blocks == old(blocks) + [b]
          && brk == old(brk) + Words(b)
          && mem[..] == old(mem[..])[t := Tag(b)][t + Words(b) - 1 := Tag(b)][t + Words(b) := TERMINAL]
          && t == HeaderIndex(blocks, |old(blocks)|)
        else
          p == None && blocks == old(blocks) && brk == old(brk) && mem[..] == old(mem[..])
    {
      ValidSpan();
      ghost var bs := blocks;
      ghost var w := mem[..];
      ghost var b := BlockOf(req, true);
      SizeBytes(b);
      var i := brk - 1;
      var area := Sbrk(req);
      if area == None {
        return None;
      }
      TilesGrow(w, blocks, i, b);
      HeadSetTag(i, req, 1, b);
      HeadSetTag(i + req / 4 - 1, req, 1, b);
      HeadSet(i + req / 4, 0, 1);
      blocks := blocks + [b];
      OffsetAppend(bs, b, |bs|);
      return area;
    }

    /**
     * What mm_malloc does with a block size of req bytes, against the heap it
     * started from (blocks bs0, words w0, break brk0): the first block that
     * fits is marked allocated whole and its payload returned; when none
     * fits, the heap grows by a new allocated block of req bytes over the old
     * terminal marker, with a new terminal marker after it, and the old break
     * is returned; when the region has no room for it, NULL and nothing
     * changes.
     */
    ghost predicate Placed(req: Word, p: Option<nat>, bs0: seq<Block>, w0: seq<Word>, brk0: nat)
      requires 0 < req && req % 8 == 0 && 1 <= brk0 <= |w0|
      reads this, mem
    {
      match FirstFit(bs0, req)
      case Some(k) =>
        var h := HeaderIndex(bs0, k);
        var b := Block(bs0[k].units, true);
        && Size(b) >= req
        && p == Some(h + 1)
        && blocks == bs0[k := b]
        && brk == brk0
        && WellSized(b) && h + Words(b) < brk
        && mem[..] == w0[h := Tag(b)][h + Words(b) - 1 := Tag(b)]
      case None =>
        var b := BlockOf(req, true);
        var t := brk0 - 1;
        if brk0 + Words(b) <= |w0| then
          && p == Some(brk0)
          && blocks == bs0 + [b]
          && brk == brk0 + Words(b)
          && mem[..] == w0[t := Tag(b)][t + Words(b) - 1 := Tag(b)][t + Words(b) := TERMINAL]
        else
          p == None && blocks == bs0 && brk == brk0 && mem[..] == w0
    }

    /**
     * The placement step of mm_malloc for a block of req bytes: the first-fit
     * walk, then the block found is marked allocated whole, or, when the walk
     * reaches the terminal marker, the heap grows by req bytes (see Extend).
     */
    method Place(req: Word) returns (p: Option<nat>, ghost k: nat)
      requires Valid() && 0 < req && req % 8 == 0
      modifies this`brk, this`blocks, mem
      ensures Valid()
      ensures p.Some? ==> Aligned(p.value)
      ensures p.Some? ==>
        && 1 <= k < |blocks| && p.value == HeaderIndex(blocks, k) + 1
        && blocks[k].alloc && Size(blocks[k]) >= req
        && forall j :: 0 <= j < k ==> !Fits(blocks[j], req)
      ensures Placed(req, p, old(blocks), old(mem[..]), old(brk))
    {
      var i, cursz;
      i, cursz, k := FindFit(req);
      TilesSpan(mem[..], 1, blocks, brk - 1);
      HeaderOdd(blocks, k);
      assert Aligned(i + 1);
      if cursz >= req {
        // allocate into an existing block, whole
        assert k < |blocks| && FirstFit(blocks, req) == Some(k);
        Mark(i, k, cursz, 1);
        p := Some(i + 1);
      } else {
        // allocate new memory
        assert k == |blocks| && FirstFit(blocks, req) == None;
        p := Extend(req);
      }
    }

    /**
     * mm_malloc(size): a zero-byte request, or one too large for its block
     * size to fit in a size_t, gets NULL. Otherwise the first free block in
     * address order of at least ALIGN(size) + 8 bytes is marked allocated
     * whole; when there is none, the heap grows by exactly that many bytes.
     * Returns the payload pointer, always 8-byte aligned relative to the heap
     * base, or NULL when the heap cannot grow; k is the index of the block
     * returned, in the new block list.
     */
    method Malloc(size: Word) returns (p: Option<nat>, ghost k: nat)
      requires Valid()
      modifies this`brk, this`blocks, mem
      ensures Valid()
      ensures p.Some? ==> Aligned(p.value)
      ensures p.Some? ==>
        && 0 < size <= MAX_REQUEST
        && 1 <= k < |blocks| && p.value == HeaderIndex(blocks, k) + 1
        && blocks[k].alloc && Size(blocks[k]) >= RequestSize(size)
        && forall j :: 0 <= j < k ==> !Fits(blocks[j], RequestSize(size))
      ensures size == 0 || size > MAX_REQUEST ==>
        p == None && blocks == old(blocks) && brk == old(brk) && mem[..] == old(mem[..])
      ensures 0 < size <= MAX_REQUEST ==> Placed(RequestSize(size), p, old(blocks), old(mem[..]), old(brk))
    {
      if size == 0 || size > MAX_REQUEST {
        return None, 0;
      }
      var req := RequestSize(size);
      p, k := Place(req);
    }

    /**
     * mm_free(p): clears the allocation bit in the header at p - 1 and in the
     * matching footer, and nothing else. No neighbour is merged, and freeing
     * a block that is already free rewrites the same words.
     */
    method Free(p: nat, ghost k: nat)
      requires Valid()
      requires 1 <= k < |blocks| && p == HeaderIndex(blocks, k) + 1
      modifies this`blocks, mem
      ensures Valid() && brk == old(brk)
      ensures blocks == old(blocks)[k := Block(old(blocks)[k].units, false)]
      ensures
        var b := Block(old(blocks)[k].units, false);
        && WellSized(b) && p - 1 + Words(b) < brk
        && mem[..] == old(mem[..])[p - 1 := Tag(b)][p - 2 + Words(b) := Tag(b)]
      ensures !old(blocks)[k].alloc ==> mem[..] == old(mem[..])
    {
      var cursz, _ := ReadHeader(p - 1, k);
      Mark(p - 1, k, cursz, 0);
    }

    /**
     * One step of mm_exit's walk, at the header i of block k: the block is
     * freed when its allocation bit is set, and left alone otherwise. With
     * the blocks before k released by the walk so far, so is block k after.
     */
    method ReleaseBlock(i: nat, ghost k: nat, alloc: Word, ghost bs: seq<Block>, ghost w0: seq<Word>)
      requires Valid() && 1 <= k < |bs| && AllWellSized(bs) && HeaderIndex(bs, |bs|) <= |w0|
      requires blocks == ReleasedUpTo(bs, k) && mem[..] == FreeTags(w0, bs, k)
      requires i == HeaderIndex(bs, k) && alloc == AllocBit(bs[k])
      modifies this`blocks, mem
      ensures Valid() && brk == old(brk)
      ensures blocks == ReleasedUpTo(bs, k + 1) && mem[..] == FreeTags(w0, bs, k + 1)
    {
      ReleasedUpToAt(bs, k, k);
      FreeTagsStep(w0, bs, k);
      OffsetSameSizes(blocks, bs, k);
      if alloc == 1 {
        Free(i + 1, k);
      } else {
        assert blocks == blocks[k := bs[k]];
      }
    }

    /**
     * mm_exit: walks from the block after the sentinel to the terminal
     * marker and frees every allocated block on the way.
     */
    method Exit()
      requires Valid()
      modifies this`blocks, mem
      ensures Valid() && brk == old(brk)
      ensures blocks == Released(old(blocks))
      ensures AllWellSized(old(blocks)) && HeaderIndex(old(blocks), |old(blocks)|) < old(mem.Length)
      ensures mem[..] == FreeTags(old(mem[..]), old(blocks), |old(blocks)|)
    {
      ValidSpan();
      ghost var w0 := mem[..];
      ghost var bs := blocks;
      var i: nat := 1;
      ghost var k: nat := 0;
      var cursz, alloc := ReadHeader(i, k);
      OffsetNext(blocks, k);
      i, k := i + cursz / 4, k + 1;
      cursz, alloc := ReadHeader(i, k);
      while cursz != 0
        invariant Valid() && brk == old(brk)
        invariant 1 <= k <= |bs| && blocks == ReleasedUpTo(bs, k)
        invariant i == HeaderIndex(bs, k)
        invariant k < |bs| ==> cursz / 4 == Words(bs[k]) && alloc == AllocBit(bs[k])
        invariant k == |bs| ==> cursz == 0
        invariant mem[..] == FreeTags(w0, bs, k)
        decreases |bs| - k
      {
        ReleaseBlock(i, k, alloc, bs, w0);
        OffsetNext(bs, k);
        i, k := i + cursz / 4, k + 1;
        OffsetSameSizes(blocks, bs, k);
        if k < |bs| {
          ReleasedUpToAt(bs, k, k);
        }
        cursz, alloc := ReadHeader(i, k);
      }
      ReleasedUpToAll(bs);
    }
  }
}
