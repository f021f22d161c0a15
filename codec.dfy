/**
 * Boundary-tag codec of the allocator: the word constants, the packing of a
 * block size and an allocated bit into one 32-bit header/footer word, the
 * alignment macro, and the request-size adjustment done by mm_malloc.
 *
 * Words are 32-bit unsigned values (`size_t` of the 32-bit build).  The
 * allocator reasons with the arithmetic meaning of each macro
 * (`w & ~0x7` clears the three low bits, `w & 0x1` is the low bit,
 * `size | alloc` adds a bit into a multiple of 8); the bitwise definitions
 * are given as BitOr/BitAnd and proved to agree.
 */
module Codec {

  /** A `size_t` word of the 32-bit build. */
  type Word = x: int | 0 <= x < 0x1_0000_0000

  const WSIZE: int := 4           // bytes per word
  const DSIZE: int := 8           // double word
  const CHUNKSIZE: int := 4096    // 1 << 12, default heap growth
  const OVERHEAD: int := 8        // header + footer
  const ALIGNMENT: int := 8
  const MINBLOCK: int := 16       // DSIZE + OVERHEAD, the smallest block
  const SIZE_T_SIZE: int := 8     // ALIGN(sizeof(size_t)) on the 32-bit build
  /** `~0x7` converted to a 32-bit `size_t`. */
  const SIZE_MASK: int := 0xFFFF_FFF8

  /** Unsigned 32-bit wrap-around of a `size_t` sum. */
  function Wrap(x: nat): (r: Word)
    ensures x < 0x1_0000_0000 ==> r == x
  {
    x % 0x1_0000_0000
  }

  // ---------------------------------------------------------------------
  // Bit-level reference definitions of `|` and `&` on unsigned values.

  function BitOr(a: nat, b: nat): nat
    decreases a + b
  {
    if a == 0 then b
    else if b == 0 then a
    else 2 * BitOr(a / 2, b / 2) + (if a % 2 == 1 || b % 2 == 1 then 1 else 0)
  }

  function BitAnd(a: nat, b: nat): nat
    decreases a
  {
    if a == 0 || b == 0 then 0
    else 2 * BitAnd(a / 2, b / 2) + (if a % 2 == 1 && b % 2 == 1 then 1 else 0)
  }

  function Pow2(k: nat): (r: nat)
    ensures r >= 1
  {
    if k == 0 then 1 else 2 * Pow2(k - 1)
  }

  /** Masking with k low one-bits leaves a value below 2^k unchanged. */
  lemma {:induction false} AndLowOnes(x: nat, k: nat)
    requires x < Pow2(k)
    ensures BitAnd(x, Pow2(k) - 1) == x
  {
    if x != 0 {
      var m := Pow2(k) - 1;
      assert m / 2 == Pow2(k - 1) - 1 && m % 2 == 1;
      AndLowOnes(x / 2, k - 1);
    }
  }

  // ---------------------------------------------------------------------
  // The tag macros.

  /** PACK(size, alloc): a size that is a multiple of 8 with the allocated bit in bit 0. */
  function Pack(size: Word, alloc: Word): (w: Word)
    requires size % 8 == 0 && alloc <= 1
    ensures w % 8 == alloc && w - w % 8 == size
  {
    LowBits(size, alloc);
    size + alloc
  }

  /** Reading a packed tag back gives the size and the allocated bit that were packed. */
  lemma Unpack(size: Word, alloc: Word)
    requires size % 8 == 0 && alloc <= 1
    ensures GetSize(Pack(size, alloc)) == size && GetAlloc(Pack(size, alloc)) == alloc
  {
    LowBits(size, alloc);
  }

  /** The low bits of a multiple of 8 plus a bit are that bit. */
  lemma LowBits(size: int, alloc: int)
    requires size % 8 == 0 && 0 <= alloc <= 1
    ensures (size + alloc) % 8 == alloc && (size + alloc) % 2 == alloc
  {
    var k := size / 8;
    assert size == 8 * k;
    Parity(4 * k, alloc);
    Octet(k, alloc);
  }

  lemma Parity(j: int, a: int)
    requires 0 <= a <= 1
    ensures (2 * j + a) % 2 == a
  {
  }

  lemma Octet(j: int, a: int)
    requires 0 <= a <= 1
    ensures (8 * j + a) % 8 == a
  {
  }

  /** GET_SIZE applied to a word: the word with its three low bits cleared. */
  function GetSize(w: Word): (s: Word)
    ensures s % 8 == 0 && s <= w < s + 8
  {
    w - w % 8
  }

  /** GET_ALLOC applied to a word: its low bit. */
  function GetAlloc(w: Word): (a: Word)
    ensures a <= 1 && (w - a) % 2 == 0
  {
    w % 2
  }

  /** ALIGN(x): round up to a multiple of 8 in 32-bit `size_t` arithmetic. */
  function Align(x: Word): (r: Word)
    ensures r % 8 == 0
    ensures x + 7 < 0x1_0000_0000 ==> x <= r < x + 8
    ensures x + 7 >= 0x1_0000_0000 ==> r < 8
  {
    var y := Wrap(x + 7);
    y - y % 8
  }

  /** ALIGN leaves a multiple of 8 as it is. */
  lemma AlignFixed(x: Word)
    requires x % 8 == 0 && x + 7 < 0x1_0000_0000
    ensures Align(x) == x
  {
    var q := x / 8;
    assert x == 8 * q && x + 7 == 8 * q + 7;
  }

  /** PACK agrees with bitwise or wherever the allocator packs a tag. */
  lemma PackIsBitOr(size: Word, alloc: Word)
    requires size % 8 == 0 && alloc <= 1
    ensures Pack(size, alloc) == BitOr(size, alloc)
  {
    if size != 0 && alloc == 1 {
      assert BitOr(size, alloc) == 2 * BitOr(size / 2, 0) + 1;
    }
  }

  /** GET_SIZE's arithmetic form is the mask `& ~0x7` of the 32-bit build. */
  lemma GetSizeIsMask(w: Word)
    ensures GetSize(w) == BitAnd(w, SIZE_MASK)
  {
    var w2 := w / 2;
    var w4 := w2 / 2;
    var w8 := w4 / 2;
    assert w8 == w / 8 && w - w % 8 == 8 * w8;
    UnfoldAnd(w, SIZE_MASK);
    UnfoldAnd(w2, SIZE_MASK / 2);
    UnfoldAnd(w4, SIZE_MASK / 4);
    Pow2At29();
    AndLowOnes(w8, 29);
  }

  lemma UnfoldAnd(a: nat, b: nat)
    requires b % 2 == 0
    ensures BitAnd(a, b) == 2 * BitAnd(a / 2, b / 2)
  {
  }

  lemma Pow2At29()
    ensures Pow2(29) == 0x2000_0000
  {
    assert Pow2(8) == 256;
    assert Pow2(16) == 65536;
    assert Pow2(24) == 0x100_0000;
  }

  /** GET_ALLOC's arithmetic form is the mask `& 0x1`. */
  lemma GetAllocIsMask(w: Word)
    ensures GetAlloc(w) == BitAnd(w, 1)
  {
  }

  /** ALIGN's arithmetic form is `(x + 7) & ~0x7` on 32-bit words. */
  lemma AlignIsMask(x: Word)
    ensures Align(x) == BitAnd(Wrap(x + 7), SIZE_MASK)
  {
    GetSizeIsMask(Wrap(x + 7));
  }

  /**
   * Tag round trip at the bit level: for a multiple-of-8 size and an
   * allocated bit, GET_SIZE(PACK(size, alloc)) == size and
   * GET_ALLOC(PACK(size, alloc)) == alloc.
   */
  lemma TagRoundTrip(size: Word, alloc: Word)
    requires size % 8 == 0 && alloc <= 1
    ensures BitOr(size, alloc) < 0x1_0000_0000
    ensures BitAnd(BitOr(size, alloc), SIZE_MASK) == size
    ensures BitAnd(BitOr(size, alloc), 1) == alloc
  {
    PackIsBitOr(size, alloc);
    Unpack(size, alloc);
    var w := Pack(size, alloc);
    GetSizeIsMask(w);
    GetAllocIsMask(w);
  }

  // ---------------------------------------------------------------------
  // Request sizing in mm_malloc.

  /**
   * The adjusted block size exactly as mm_malloc computes it in 32-bit
   * `size_t` arithmetic: 16 for small requests, else ALIGN(size + SIZE_T_SIZE).
   */
  function AdjustedSizeAsWritten(size: Word): (asize: Word)
    ensures asize % 8 == 0
  {
    if size <= DSIZE then DSIZE + OVERHEAD else Align(Wrap(size + SIZE_T_SIZE))
  }

  /** The as-written sizing wraps for requests near 4 GiB: asize becomes 0. */
  lemma AdjustedSizeWraps()
    ensures AdjustedSizeAsWritten(0xFFFF_FFF8) == 0
    ensures AdjustedSizeAsWritten(0xFFFF_FFF8) < MINBLOCK
  {
  }

  /**
   * The largest request whose block size, and the heap growth derived from
   * it in extend_heap (asize + SIZE_T_SIZE rounded up), stays below 2^32.
   */
  const MAX_REQUEST: int := 0xFFFF_FFE8

  /**
   * Corrected sizing: requests above MAX_REQUEST are refused (None, which
   * mm_malloc reports as NULL); the others keep the source's formula.
   */
  function AdjustedSize(size: Word): (r: Option<Word>)
    requires size > 0
    ensures r.None? <==> size > MAX_REQUEST
    ensures r.Some? ==> r.value == AdjustedSizeAsWritten(size)
  {
    if size > MAX_REQUEST then None else Some(AdjustedSizeAsWritten(size))
  }

  /**
   * Malloc sizing: an accepted adjusted size is a multiple of 8, at least the
   * minimum block, leaves a payload (asize - OVERHEAD) of at least the request,
   * is the least such size, and its heap growth does not wrap either.
   */
  lemma AdjustedSizeFits(size: Word)
    requires 0 < size <= MAX_REQUEST
    ensures var asize := AdjustedSizeAsWritten(size);
      && asize % ALIGNMENT == 0
      && asize >= MINBLOCK
      && asize - OVERHEAD >= size
      && (asize == MINBLOCK || asize < size + OVERHEAD + ALIGNMENT)
      && asize + SIZE_T_SIZE <= 0xFFFF_FFF8
  {
  }

  datatype Option<T> = None | Some(value: T)
}
