/**
 * Block layout of the allocator in mm.c: the 32-bit size_t arithmetic of
 * ALIGN and of the request size, and the packing of a block's size and
 * allocation bit into one header/footer word (HEAD_SET, HEAD_SIZE, HEAD_ALLOC).
 *
 * A heap word is a size_t of 4 bytes, so words and sizes share one type.
 * The masks `& ~0x7` and `& 0x1` are written as arithmetic on the word's
 * value: for 0 <= x < 2^32, `x & ~7 == x - x % 8` and `x & 1 == x % 2`.
 */
module Layout {

  /** One 32-bit size_t: a heap word, a byte count, a block size. */
  type Word = x: int | 0 <= x < 0x1_0000_0000

  const WORD_MODULUS: int := 0x1_0000_0000

  /** sizeof(size_t): every heap index step is one word of this many bytes. */
  const WORD_BYTES: int := 4

  /** ALIGNMENT, which is also SIZE_T_SIZE == ALIGN(sizeof(size_t)). */
  const ALIGNMENT: int := 8

  /** The largest size that ALIGN rounds up without wrapping around. */
  const MAX_ALIGNABLE: int := 0xFFFF_FFF8

  /** The largest request whose block size ALIGN(size) + 8 fits in a size_t. */
  const MAX_REQUEST: int := 0xFFFF_FFF0

  /** ALIGN(size): `(size + 7) & ~0x7`, with the addition wrapping at 2^32. */
  function Align(size: Word): (r: Word)
    ensures r % 8 == 0
    ensures size <= MAX_ALIGNABLE ==> size <= r < size + 8
    ensures size > MAX_ALIGNABLE ==> r == 0
  {
    var sum := (size + 7) % 0x1_0000_0000;
    sum - sum % 8
  }

  /**
   * `reqsz = ALIGN(size) + SIZE_T_SIZE` exactly as mm_malloc computes it,
   * in size_t arithmetic: for the largest requests it wraps around.
   */
  function ReqSizeAsWritten(size: Word): (r: Word)
    ensures r % 8 == 0
    ensures 0 < size <= MAX_REQUEST ==> size + 8 <= r < size + 16
  {
    var sum := Align(size) + 8;
    assert 8 <= sum <= 0x1_0000_0000;
    assert sum % 0x1_0000_0000 == if sum == 0x1_0000_0000 then 0 else sum;
    sum % 0x1_0000_0000
  }

  /**
   * For every request above MAX_REQUEST the computed block size is 0 or 8
   * bytes, so the block's payload (its size less a header and a footer)
   * cannot hold the request.
   */
  lemma ReqSizeAsWrittenWraps(size: Word)
    requires size > MAX_REQUEST
    ensures ReqSizeAsWritten(size) == (if size <= MAX_ALIGNABLE then 0 else 8)
    ensures ReqSizeAsWritten(size) - 8 < size
  {
  }

  /**
   * The block size the allocator uses: the payload rounded up to ALIGNMENT,
   * plus one header word and one footer word. Only defined where the sum
   * fits in a size_t; larger requests are refused before it is computed.
   */
  function RequestSize(size: Word): (r: Word)
    requires 0 < size <= MAX_REQUEST
    ensures r % 8 == 0
    ensures size + 8 <= r < size + 8 + 8
  {
    Align(size) + 8
  }

  /** Below the bound, the block size mm_malloc computes is exactly RequestSize: no wrap-around. */
  lemma RequestSizeAsWritten(size: Word)
    requires 0 < size <= MAX_REQUEST
    ensures RequestSize(size) == ReqSizeAsWritten(size)
  {
  }

  /** A word index whose byte offset from the heap base is a multiple of ALIGNMENT. */
  predicate Aligned(i: int)
  {
    (i * WORD_BYTES) % ALIGNMENT == 0
  }

  /** HEAD_SIZE: the word with its three low bits cleared. */
  function HeadSize(w: Word): Word
  {
    w - w % 8
  }

  /** HEAD_ALLOC: the lowest bit of the word. */
  function HeadAlloc(w: Word): Word
  {
    w % 2
  }

  /** The value HEAD_SET(h, size, alloc) stores: `(size & ~0x7) | (alloc & 0x1)`. */
  function HeadWord(size: Word, alloc: Word): Word
  {
    HeadSize(size) + alloc % 2
  }

  /** HEAD_SIZE and HEAD_ALLOC of any word: a multiple of 8 at most the word, and one bit. */
  lemma HeadFields(w: Word)
    ensures HeadSize(w) % 8 == 0 && HeadSize(w) <= w < HeadSize(w) + 8
    ensures HeadAlloc(w) < 2
  {
  }

  /**
   * After HEAD_SET(h, size, alloc) with size a multiple of 8 and alloc a
   * single bit, HEAD_SIZE(h) reads back size and HEAD_ALLOC(h) reads back
   * alloc.
   */
  lemma {:induction false} HeadSetRoundTrip(size: Word, alloc: Word)
    requires size % 8 == 0 && alloc < 2
    ensures HeadSize(HeadWord(size, alloc)) == size
    ensures HeadAlloc(HeadWord(size, alloc)) == alloc
  {
    assert HeadSize(size) == size;
    var v := size + alloc;
    assert HeadWord(size, alloc) == v;
    assert v % 8 == alloc;
    var q := v / 8;
    assert v == 2 * (4 * q) + alloc;
  }
}
