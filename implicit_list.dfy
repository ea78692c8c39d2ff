/**
 * The implicit block list of mm.c, as values: a heap is a run of blocks,
 * each starting with a header word and ending with a footer word that both
 * hold `size | alloc`; the next block starts `size / 4` words further on.
 * No free list threads through the payloads: the list is implicit in the
 * sizes alone.
 */
module ImplicitList {
  import opened Wrappers
  import opened Layout

  /**
   * One block: its total size (header and footer included) counted in units
   * of ALIGNMENT, 8 bytes, and its allocation bit. Every block size the
   * allocator writes is a multiple of 8, so the unit count loses nothing.
   */
  datatype Block = Block(units: nat, alloc: bool)

  /** The sentinel block mm_init places at word 1: 8 bytes, allocated. */
  const SENTINEL: Block := Block(1, true)

  /** The block's size in bytes, as its header stores it. */
  function Size(b: Block): nat
  {
    8 * b.units
  }

  /** Number of 4-byte words a block occupies. */
  function Words(b: Block): nat
  {
    2 * b.units
  }

  /** A block size the layout admits: positive, and small enough to fit in a size_t. */
  predicate WellSized(b: Block)
  {
    0 < b.units < 0x2000_0000
  }

  predicate AllWellSized(bs: seq<Block>)
  {
    forall j :: 0 <= j < |bs| ==> WellSized(bs[j])
  }

  function AllocBit(b: Block): Word
  {
    if b.alloc then 1 else 0
  }

  /** The header (and footer) word of a block: its size in bytes with the allocation bit in bit 0. */
  function Tag(b: Block): Word
    requires WellSized(b)
  {
    Size(b) + AllocBit(b)
  }

  /** The block sizes in bytes are the positive multiples of 8 below 2^32; each spans size / 4 words. */
  lemma SizeBytes(b: Block)
    requires WellSized(b)
    ensures 0 < Size(b) < 0x1_0000_0000 && Size(b) % 8 == 0
    ensures Size(b) % 4 == 0 && Size(b) / 4 == Words(b)
  {
    assert Size(b) == 4 * Words(b);
  }

  /** The block whose header holds size and alloc, for a positive multiple of 8. */
  function BlockOf(size: Word, alloc: bool): (b: Block)
    requires 0 < size && size % 8 == 0
    ensures WellSized(b) && Size(b) == size && b.alloc == alloc
  {
    Block(size / 8, alloc)
  }

  /** HEAD_SET(h, Size(b), alloc) with alloc the block's allocation bit stores the block's tag. */
  lemma HeadWordIsTag(b: Block)
    requires WellSized(b)
    ensures HeadWord(Size(b), AllocBit(b)) == Tag(b)
  {
    SizeBytes(b);
    assert HeadSize(Size(b)) == Size(b);
  }

  /** HEAD_SIZE and HEAD_ALLOC read a block's size and allocation bit back from its tag. */
  lemma ReadTag(b: Block)
    requires WellSized(b)
    ensures HeadSize(Tag(b)) == Size(b) && HeadAlloc(Tag(b)) == AllocBit(b)
  {
    SizeBytes(b);
    HeadWordIsTag(b);
    HeadSetRoundTrip(Size(b), AllocBit(b));
  }

  /** The word HEAD_SET(h, 0, 1) writes: the terminal marker at the end of the heap. */
  const TERMINAL: Word := HeadWord(0, 1)

  /** The terminal marker reads as size 0, allocated. */
  lemma TerminalFields()
    ensures HeadSize(TERMINAL) == 0 && HeadAlloc(TERMINAL) == 1
  {
    HeadSetRoundTrip(0, 1);
  }

  /**
   * The words w[i..e] hold exactly the blocks bs, one after another: each
   * block's header at its first word and the same value as footer at its
   * last word.
   */
  ghost predicate TilesTo(w: seq<Word>, i: int, bs: seq<Block>, e: int)
    decreases |bs|
  {
    if bs == [] then i == e
    else
      && BlockAt(w, i, bs[0])
      && i + Words(bs[0]) <= e <= |w|
      && TilesTo(w, i + Words(bs[0]), bs[1..], e)
  }

  /** Block b occupies w[i..i + Words(b)], with its tag as header and as footer. */
  ghost predicate BlockAt(w: seq<Word>, i: int, b: Block)
  {
    && WellSized(b)
    && 0 <= i
    && i + Words(b) <= |w|
    && w[i] == Tag(b)
    && w[i + Words(b) - 1] == Tag(b)
  }

  /** Number of words the first k blocks occupy. */
  function Offset(bs: seq<Block>, k: nat): nat
    requires k <= |bs|
  {
    if k == 0 then 0 else Words(bs[0]) + Offset(bs[1..], k - 1)
  }

  /** Word index of the header of block k, the blocks starting at word 1. */
  function HeaderIndex(bs: seq<Block>, k: nat): nat
    requires k <= |bs|
  {
    1 + Offset(bs, k)
  }

  /** A free block large enough for a request of req bytes (header and footer included). */
  predicate Fits(b: Block, req: int)
  {
    !b.alloc && Size(b) >= req
  }

  /** First fit: the index of the first block in address order that fits, if any. */
  function FirstFit(bs: seq<Block>, req: int): (r: Option<nat>)
    ensures r.Some? ==> r.value < |bs| && Fits(bs[r.value], req)
    ensures r.Some? ==> forall j :: 0 <= j < r.value ==> !Fits(bs[j], req)
    ensures r.None? ==> forall j :: 0 <= j < |bs| ==> !Fits(bs[j], req)
  {
    if bs == [] then None
    else if Fits(bs[0], req) then Some(0)
    else
      match FirstFit(bs[1..], req)
      case None => None
      case Some(j) => Some(j + 1)
  }

  /** FirstFit is pinned down by its contract: the first fitting index, or None when no block fits. */
  lemma FirstFitUnique(bs: seq<Block>, req: int, k: nat)
    requires k <= |bs| && forall j :: 0 <= j < k ==> !Fits(bs[j], req)
    requires k < |bs| ==> Fits(bs[k], req)
    ensures FirstFit(bs, req) == (if k < |bs| then Some(k) else None)
  {
  }

  /** The blocks after mm_exit: every block but the sentinel marked free. */
  function Released(bs: seq<Block>): (r: seq<Block>)
    ensures |r| == |bs|
    ensures |bs| > 0 ==> r[0] == bs[0]
    ensures forall j :: 0 <= j < |bs| ==> r[j].units == bs[j].units
    ensures forall j :: 1 <= j < |bs| ==> !r[j].alloc
  {
    seq(|bs|, j requires 0 <= j < |bs| => if j == 0 then bs[0] else Block(bs[j].units, false))
  }

  /** The blocks once mm_exit has walked past blocks 1 .. k - 1: each of those marked free. */
  function ReleasedUpTo(bs: seq<Block>, k: nat): (r: seq<Block>)
    requires k <= |bs|
    ensures |r| == |bs|
    ensures forall j :: 0 <= j < |bs| ==> r[j].units == bs[j].units
    decreases k
  {
    if k <= 1 then bs else ReleasedUpTo(bs, k - 1)[k - 1 := Block(bs[k - 1].units, false)]
  }

  /** Block j after the walk has passed blocks 1 .. k - 1: freed if passed, untouched if not. */
  lemma {:induction false} ReleasedUpToAt(bs: seq<Block>, k: nat, j: nat)
    requires k <= |bs| && j < |bs|
    ensures ReleasedUpTo(bs, k)[j] == if 1 <= j < k then Block(bs[j].units, false) else bs[j]
    decreases k
  {
    if k > 1 {
      ReleasedUpToAt(bs, k - 1, j);
    }
  }

  /** The walk over all blocks releases them exactly as Released says. */
  lemma ReleasedUpToAll(bs: seq<Block>)
    ensures ReleasedUpTo(bs, |bs|) == Released(bs)
  {
    forall j | 0 <= j < |bs|
      ensures ReleasedUpTo(bs, |bs|)[j] == Released(bs)[j]
    {
      ReleasedUpToAt(bs, |bs|, j);
    }
  }

  // ---------------------------------------------------------------------
  // Lemmas about the layout

  /** The header of block k + 1 follows the footer of block k. */
  lemma {:induction false} OffsetNext(bs: seq<Block>, k: nat)
    requires k < |bs|
    ensures Offset(bs, k + 1) == Offset(bs, k) + Words(bs[k])
    decreases k
  {
    if k > 0 {
      OffsetNext(bs[1..], k - 1);
    }
  }

  /** Offsets depend only on the block sizes, not on their allocation bits. */
  lemma {:induction false} OffsetSameSizes(bs: seq<Block>, bs': seq<Block>, k: nat)
    requires k <= |bs| == |bs'|
    requires forall j :: 0 <= j < |bs| ==> bs[j].units == bs'[j].units
    ensures Offset(bs, k) == Offset(bs', k)
    decreases k
  {
    if k > 0 {
      OffsetSameSizes(bs[1..], bs'[1..], k - 1);
    }
  }

  /** Blocks lie in address order and never overlap: block j ends at or before block k starts. */
  lemma {:induction false} BlocksDisjoint(bs: seq<Block>, j: nat, k: nat)
    requires j < k <= |bs|
    ensures Offset(bs, j) + Words(bs[j]) <= Offset(bs, k)
    decreases k
  {
    if j == 0 {
      assert Offset(bs, 1) == Words(bs[0]) + Offset(bs[1..], 0);
      if k > 1 {
        BlocksDisjoint(bs, 0, k - 1);
        OffsetNext(bs, k - 1);
      }
    } else {
      BlocksDisjoint(bs[1..], j - 1, k - 1);
    }
  }

  /**
   * Every block spans an even number of words, so every header sits at an
   * odd word index and every payload at an even one: 8-byte aligned
   * relative to the heap base.
   */
  lemma {:induction false} HeaderOdd(bs: seq<Block>, k: nat)
    requires AllWellSized(bs) && k <= |bs|
    ensures HeaderIndex(bs, k) % 2 == 1
    ensures Aligned(HeaderIndex(bs, k) + 1)
    decreases k
  {
    if k > 0 {
      HeaderOdd(bs[1..], k - 1);
      assert Words(bs[0]) % 2 == 0;
    }
  }

  /** Appending a block leaves the offsets of the blocks before it alone. */
  lemma {:induction false} OffsetAppend(bs: seq<Block>, b: Block, k: nat)
    requires k <= |bs|
    ensures Offset(bs + [b], k) == Offset(bs, k)
    decreases k
  {
    if k > 0 {
      assert (bs + [b])[1..] == bs[1..] + [b];
      OffsetAppend(bs[1..], b, k - 1);
    }
  }

  /** Distinct blocks of well-sized blocks have distinct headers. */
  lemma HeadersDistinct(bs: seq<Block>, j: nat, k: nat)
    requires AllWellSized(bs) && j < |bs| && k < |bs| && j != k
    ensures HeaderIndex(bs, j) != HeaderIndex(bs, k)
  {
    if j < k {
      BlocksDisjoint(bs, j, k);
    } else {
      BlocksDisjoint(bs, k, j);
    }
  }

  /** A tiling ends exactly where the words of its blocks run out. */
  lemma {:induction false} TilesSpan(w: seq<Word>, i: int, bs: seq<Block>, e: int)
    requires TilesTo(w, i, bs, e)
    ensures e == i + Offset(bs, |bs|)
    ensures AllWellSized(bs)
    decreases |bs|
  {
    if bs != [] {
      TilesSpan(w, i + Words(bs[0]), bs[1..], e);
    }
  }

  /** Block k of a tiling: its header and footer words are its tag. */
  lemma {:induction false} TilesBlock(w: seq<Word>, i: int, bs: seq<Block>, e: int, k: nat)
    requires TilesTo(w, i, bs, e) && k < |bs|
    ensures WellSized(bs[k])
    ensures 0 <= i + Offset(bs, k) && i + Offset(bs, k) + Words(bs[k]) <= e
    ensures i + Offset(bs, k) + Words(bs[k]) <= |w|
    ensures w[i + Offset(bs, k)] == Tag(bs[k])
    ensures w[i + Offset(bs, k) + Words(bs[k]) - 1] == Tag(bs[k])
    decreases k
  {
    if k > 0 {
      TilesBlock(w, i + Words(bs[0]), bs[1..], e, k - 1);
    }
  }

  /**
   * What the walk reads at the header of block k of a heap whose blocks
   * start at word 1 and end at the terminal marker in word e: the block's
   * size and allocation bit, or, past the last block, size 0 and allocated.
   */
  lemma TilesHeader(w: seq<Word>, bs: seq<Block>, e: int, k: nat)
    requires TilesTo(w, 1, bs, e) && e < |w| && w[e] == TERMINAL && k <= |bs|
    ensures HeaderIndex(bs, k) <= e
    ensures k < |bs| ==> WellSized(bs[k]) && HeaderIndex(bs, k) + Words(bs[k]) <= e
    ensures k < |bs| ==> w[HeaderIndex(bs, k)] == Tag(bs[k])
    ensures k < |bs| ==> HeadSize(w[HeaderIndex(bs, k)]) == Size(bs[k])
    ensures k < |bs| ==> HeadAlloc(w[HeaderIndex(bs, k)]) == AllocBit(bs[k])
    ensures k == |bs| ==> HeaderIndex(bs, k) == e
    ensures k == |bs| ==> HeadSize(w[e]) == 0 && HeadAlloc(w[e]) == 1
  {
    TilesSpan(w, 1, bs, e);
    if k < |bs| {
      TilesBlock(w, 1, bs, e, k);
      ReadTag(bs[k]);
    } else {
      TerminalFields();
    }
  }

  /** A tiling reads only the words it covers. */
  lemma {:induction false} TilesFrame(w: seq<Word>, w': seq<Word>, i: int, bs: seq<Block>, e: int)
    requires TilesTo(w, i, bs, e)
    requires e <= |w'|
    requires e <= |w| && forall m :: i <= m < e ==> w'[m] == w[m]
    ensures TilesTo(w', i, bs, e)
    decreases |bs|
  {
    if bs != [] {
      TilesFrame(w, w', i + Words(bs[0]), bs[1..], e);
    }
  }

  /** Two adjacent tilings form one. */
  lemma {:induction false} TilesConcat(w: seq<Word>, i: int, a: seq<Block>, m: int, b: seq<Block>, e: int)
    requires TilesTo(w, i, a, m) && TilesTo(w, m, b, e)
    ensures TilesTo(w, i, a + b, e)
    decreases |a|
  {
    if a == [] {
      assert a + b == b;
    } else {
      TilesConcat(w, i + Words(a[0]), a[1..], m, b, e);
      assert (a + b)[1..] == a[1..] + b;
    }
  }

  /**
   * Rewriting the header and footer of block k with the tag of a block of the
   * same size, and nothing else, keeps the tiling.
   */
  lemma {:induction false} TilesUpdate(w: seq<Word>, w': seq<Word>, i: int, bs: seq<Block>, bs': seq<Block>, e: int, k: nat)
    requires TilesTo(w, i, bs, e) && k < |bs| == |bs'| && |w'| == |w|
    requires bs'[k].units == bs[k].units
    requires forall j :: 0 <= j < |bs| && j != k ==> bs'[j] == bs[j]
    requires WellSized(bs'[k])
    requires 0 <= i + Offset(bs, k) && i + Offset(bs, k) + Words(bs[k]) <= |w|
    requires w'[i + Offset(bs, k)] == Tag(bs'[k])
    requires w'[i + Offset(bs, k) + Words(bs[k]) - 1] == Tag(bs'[k])
    requires forall m :: i <= m < e && m != i + Offset(bs, k) && m != i + Offset(bs, k) + Words(bs[k]) - 1 ==> w'[m] == w[m]
    ensures TilesTo(w', i, bs', e)
    decreases k
  {
    var n := i + Words(bs[0]);
    if k == 0 {
      TilesFrame(w, w', n, bs[1..], e);
      assert bs'[1..] == bs[1..];
    } else {
      assert bs'[0] == bs[0];
      TilesUpdate(w, w', n, bs[1..], bs'[1..], e, k - 1);
    }
  }

  /**
   * The words after mm_exit has walked past blocks 1 .. k - 1: the header
   * and the footer of each of those that was allocated rewritten with the
   * tag of the same block marked free, in address order.
   */
  function FreeTags(w: seq<Word>, bs: seq<Block>, k: nat): (r: seq<Word>)
    requires k <= |bs| && AllWellSized(bs) && HeaderIndex(bs, |bs|) <= |w|
    ensures |r| == |w|
    decreases k
  {
    if k <= 1 then w
    else
      var j := k - 1;
      var b := Block(bs[j].units, false);
      var h := HeaderIndex(bs, j);
      BlocksDisjoint(bs, j, |bs|);
      if bs[j].alloc then FreeTags(w, bs, j)[h := Tag(b)][h + Words(b) - 1 := Tag(b)]
      else FreeTags(w, bs, j)
  }

  /** One step of FreeTags: walking past block k rewrites its two tag words when it is allocated. */
  lemma FreeTagsStep(w: seq<Word>, bs: seq<Block>, k: nat)
    requires 1 <= k < |bs| && AllWellSized(bs) && HeaderIndex(bs, |bs|) <= |w|
    ensures
      var b := Block(bs[k].units, false);
      var h := HeaderIndex(bs, k);
      && WellSized(b) && h + Words(b) <= |w|
      && FreeTags(w, bs, k + 1) ==
         if bs[k].alloc then FreeTags(w, bs, k)[h := Tag(b)][h + Words(b) - 1 := Tag(b)]
         else FreeTags(w, bs, k)
  {
    BlocksDisjoint(bs, k, |bs|);
  }

  /**
   * FreeTags touches nothing but the header and the footer words of the
   * allocated blocks it has walked past: every other word keeps its value.
   */
  lemma {:induction false} FreeTagsFrame(w: seq<Word>, bs: seq<Block>, k: nat, m: nat)
    requires k <= |bs| && AllWellSized(bs) && HeaderIndex(bs, |bs|) <= |w| && m < |w|
    requires forall j :: 1 <= j < k && bs[j].alloc ==>
      m != HeaderIndex(bs, j) && m != HeaderIndex(bs, j) + Words(bs[j]) - 1
    ensures FreeTags(w, bs, k)[m] == w[m]
    decreases k
  {
    if k > 1 {
      var j := k - 1;
      FreeTagsFrame(w, bs, j, m);
      var b := Block(bs[j].units, false);
      var h := HeaderIndex(bs, j);
      BlocksDisjoint(bs, j, |bs|);
      var prev: seq<Word> := FreeTags(w, bs, j);
      var t: Word := Tag(b);
      if bs[j].alloc {
        assert m != h && m != h + Words(b) - 1;
        assert FreeTags(w, bs, k) == prev[h := t][h + Words(b) - 1 := t];
      } else {
        assert FreeTags(w, bs, k) == prev;
      }
    }
  }

  /**
   * Rewriting the header and footer of block k with the tag of a block of the
   * same size keeps the tiling, now with that block in place k; rewriting them
   * with the block's own tag changes no word.
   */
  lemma TilesMark(w: seq<Word>, bs: seq<Block>, e: int, k: nat, b: Block)
    requires TilesTo(w, 1, bs, e) && k < |bs| && b.units == bs[k].units
    ensures WellSized(b) && HeaderIndex(bs, k) + Words(b) <= e
    ensures
      var h := HeaderIndex(bs, k);
      var w' := w[h := Tag(b)][h + Words(b) - 1 := Tag(b)];
      && TilesTo(w', 1, bs[k := b], e)
      && (b == bs[k] ==> w' == w)
  {
    TilesBlock(w, 1, bs, e, k);
    var h := HeaderIndex(bs, k);
    var w' := w[h := Tag(b)][h + Words(b) - 1 := Tag(b)];
    TilesUpdate(w, w', 1, bs, bs[k := b], e, k);
  }

  /**
   * Writing the header and footer of block b where the tiling ended, and a
   * terminal marker right after its footer, extends the tiling by b.
   */
  lemma TilesGrow(w: seq<Word>, bs: seq<Block>, e: int, b: Block)
    requires TilesTo(w, 1, bs, e) && WellSized(b) && e + Words(b) < |w|
    ensures
      var w' := w[e := Tag(b)][e + Words(b) - 1 := Tag(b)][e + Words(b) := TERMINAL];
      && TilesTo(w', 1, bs + [b], e + Words(b))
      && w'[e + Words(b)] == TERMINAL
  {
    var w' := w[e := Tag(b)][e + Words(b) - 1 := Tag(b)][e + Words(b) := TERMINAL];
    TilesSpan(w, 1, bs, e);
    TilesFrame(w, w', 1, bs, e);
    assert TilesTo(w', e + Words(b), [b][1..], e + Words(b));
    assert TilesTo(w', e, [b], e + Words(b));
    TilesConcat(w', 1, bs, e, [b], e + Words(b));
  }
}
