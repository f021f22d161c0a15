/**
 * The heap as a word buffer and the block-traversal macros of the allocator.
 *
 * Memory is the region obtained from the growth primitive, one 32-bit word
 * per 4 bytes; a byte address `a` (an offset from the start of that region,
 * so 0 plays the part of NULL) lies in word `m[a / 4]`.  The allocator only
 * reads and writes words at multiples of 4.  The heap is
 *
 *   word 0      alignment padding
 *   word 1, 2   prologue header and footer, PACK(8, 1) each (prologue bp = 8)
 *   ...         the regular blocks, the first one at bp = 16
 *   last word   epilogue header PACK(0, 1)
 *
 * A block with payload address bp has its header at bp - 4 and its footer at
 * bp + size - 8; the next block starts at bp + size.  `Tagged(m, blocks)`
 * says that `blocks` lists the payload addresses of the regular blocks in
 * address order and that every one of them is well tagged.
 */
module Layout {
  import opened Codec

  type Mem = seq<Word>

  /** Payload address of the prologue block (heap_start_ptr after mm_init). */
  const PROLOGUE: int := 8
  /** Payload address of the first regular block. */
  const FIRST: int := 16

  /** The current break: one past the last byte of the heap. */
  function End(m: Mem): int
  {
    4 * |m|
  }

  predicate InHeap(m: Mem, a: int)
  {
    0 <= a < End(m)
  }

  /** GET(p) */
  function Get(m: Mem, a: int): Word
    requires InHeap(m, a)
  {
    m[a / 4]
  }

  /** PUT(p, val): only the word at p changes. */
  function Put(m: Mem, a: int, v: Word): (m': Mem)
    requires InHeap(m, a) && a % 4 == 0
    ensures |m'| == |m| && Get(m', a) == v
    ensures forall b {:trigger Get(m', b)} :: InHeap(m, b) && (b < a || a + 4 <= b) ==> Get(m', b) == Get(m, b)
  {
    m[a / 4 := v]
  }

  // ---------------------------------------------------------------------
  // Block traversal macros.

  /** HDRP(bp) */
  function Hdrp(bp: int): int
  {
    bp - 4
  }

  /** GET_SIZE(HDRP(bp)) */
  function BlockSize(m: Mem, bp: int): Word
    requires InHeap(m, bp - 4)
  {
    GetSize(Get(m, bp - 4))
  }

  /** FTRP(bp) */
  function Ftrp(m: Mem, bp: int): int
    requires InHeap(m, bp - 4)
  {
    bp + BlockSize(m, bp) - 8
  }

  /** NEXT_BLKP(bp) */
  function NextBlkp(m: Mem, bp: int): int
    requires InHeap(m, bp - 4)
  {
    bp + BlockSize(m, bp)
  }

  /** PREV_BLKP(bp): the size is read from the previous block's footer. */
  function PrevBlkp(m: Mem, bp: int): int
    requires InHeap(m, bp - 8)
  {
    bp - GetSize(Get(m, bp - 8))
  }

  /** GET_ALLOC(HDRP(bp)) == 0 */
  predicate IsFree(m: Mem, bp: int)
    requires InHeap(m, bp - 4)
  {
    GetAlloc(Get(m, bp - 4)) == 0
  }

  // ---------------------------------------------------------------------
  // Well-formed blocks and heaps.

  /**
   * A regular block: 8-aligned, inside the heap, at least the minimum size,
   * a header of the form PACK(size, alloc), and a footer equal to the header.
   */
  ghost predicate BlockOK(m: Mem, b: int)
  {
    && b % 8 == 0 && FIRST <= b < End(m)
    && BlockSize(m, b) >= 16 && NextBlkp(m, b) <= End(m)
    && Get(m, b - 4) % 8 <= 1
    && Get(m, Ftrp(m, b)) == Get(m, b - 4)
  }

  /** `blocks` is a chain of well-formed blocks leading from `from` to `to`. */
  ghost predicate Chain(m: Mem, blocks: seq<int>, from: int, to: int)
  {
    && (forall i :: 0 <= i < |blocks| ==> BlockOK(m, blocks[i]))
    && (forall i, j :: 0 <= i && j == i + 1 < |blocks| ==> NextBlkp(m, blocks[i]) == blocks[j])
    && (if |blocks| == 0 then from == to
        else blocks[0] == from && NextBlkp(m, blocks[|blocks| - 1]) == to)
  }

  /** The whole heap: padding, prologue, the chain of regular blocks, epilogue. */
  ghost predicate Tagged(m: Mem, blocks: seq<int>)
  {
    && FIRST <= End(m) < 0x1_0000_0000
    && Get(m, 4) == Pack(8, 1) && Get(m, 8) == Pack(8, 1)
    && Get(m, End(m) - 4) == Pack(0, 1)
    && Chain(m, blocks, FIRST, End(m))
  }

  /** Every word from a to b (exclusive) is the same in m' as in m. */
  ghost predicate Same(m: Mem, m': Mem, a: int, b: int)
  {
    && |m| <= |m'|
    && forall x {:trigger Get(m', x)} :: 0 <= a <= x < b <= End(m) ==> Get(m', x) == Get(m, x)
  }

  /** Every word of block b, header to footer, is the same in m' as in m. */
  ghost predicate Kept(m: Mem, m': Mem, b: int)
    requires BlockOK(m, b)
  {
    Same(m, m', b - 4, NextBlkp(m, b) - 4)
  }

  // ---------------------------------------------------------------------
  // Consequences of the tagging.

  /** Blocks follow each other in address order without overlap. */
  lemma {:induction false} ChainOrder(m: Mem, blocks: seq<int>, from: int, to: int, i: int, j: int)
    requires Chain(m, blocks, from, to) && 0 <= i < j < |blocks|
    ensures NextBlkp(m, blocks[i]) <= blocks[j]
    decreases j - i
  {
    var c := blocks[j - 1];
    assert NextBlkp(m, c) == blocks[j];
    if j > i + 1 {
      ChainOrder(m, blocks, from, to, i, j - 1);
    }
  }

  /** Every block of a chain lies between its two ends. */
  lemma Inside(m: Mem, blocks: seq<int>, from: int, to: int, i: int)
    requires Chain(m, blocks, from, to) && 0 <= i < |blocks|
    ensures from <= blocks[i] && NextBlkp(m, blocks[i]) <= to
  {
    if i > 0 {
      ChainOrder(m, blocks, from, to, 0, i);
    }
    if i < |blocks| - 1 {
      ChainOrder(m, blocks, from, to, i, |blocks| - 1);
    }
  }

  /** Two distinct blocks are separated: one ends before the other starts. */
  lemma Separated(m: Mem, blocks: seq<int>, from: int, to: int, i: int, j: int)
    requires Chain(m, blocks, from, to) && 0 <= i < |blocks| && 0 <= j < |blocks|
    ensures i < j ==> NextBlkp(m, blocks[i]) <= blocks[j]
    ensures j < i ==> NextBlkp(m, blocks[j]) <= blocks[i]
  {
    if i < j {
      ChainOrder(m, blocks, from, to, i, j);
    } else if j < i {
      ChainOrder(m, blocks, from, to, j, i);
    }
  }

  /** The break of a well-tagged heap is 8-aligned. */
  lemma EndAligned(m: Mem, blocks: seq<int>)
    requires Tagged(m, blocks)
    ensures End(m) % 8 == 0
  {
    if |blocks| > 0 {
      var b := blocks[|blocks| - 1];
      assert BlockOK(m, b) && NextBlkp(m, b) == End(m);
      Grid(b, BlockSize(m, b), 0);
    }
  }

  /** An 8-aligned address and the one 4 bytes above it are word addresses. */
  lemma WordAligned(x: int)
    requires x % 8 == 0
    ensures x % 4 == 0 && (x + 4) % 4 == 0
  {
    var q := x / 8;
    assert x == 8 * q;
    Quad(2 * q);
    Quad(2 * q + 1);
  }

  /** The footer and the next header of an 8-aligned block of 8-aligned size are word addresses. */
  lemma EndWords(bp: int, size: int)
    requires bp % 8 == 0 && size % 8 == 0
    ensures (bp + size - 8) % 4 == 0 && (bp + size - 4) % 4 == 0
  {
    var p, q := bp / 8, size / 8;
    assert bp == 8 * p && size == 8 * q;
    assert bp + size - 8 == 4 * (2 * p + 2 * q - 2) && bp + size - 4 == 4 * (2 * p + 2 * q - 1);
    Quad(2 * p + 2 * q - 2);
    Quad(2 * p + 2 * q - 1);
  }

  lemma Quad(j: int)
    ensures (4 * j) % 4 == 0
  {
  }

  /** A sum of two multiples of 8 is one. */
  lemma SumGrid(s: int, x: int, y: int)
    requires s == x + y && x % 8 == 0 && y % 8 == 0
    ensures s % 8 == 0
  {
  }

  /** Sums and differences of multiples of 8 are multiples of 8. */
  lemma Grid(x: int, y: int, z: int)
    requires x % 8 == 0 && y % 8 == 0 && z % 8 == 0
    ensures (x + y) % 8 == 0 && (x + y - z) % 8 == 0
  {
  }

  /** Same over a range given by other expressions of equal value. */
  lemma SameAt(m: Mem, m': Mem, a: int, b: int, a': int, b': int)
    requires Same(m, m', a, b) && a == a' && b == b'
    ensures Same(m, m', a', b')
  {
  }

  /** The words a tag pair rewrites: m' holds v at a - 4 and at a + size - 8 and is m elsewhere. */
  ghost predicate Retagged(m: Mem, m': Mem, a: int, size: int, v: Word)
  {
    && |m'| == |m| && InHeap(m, a - 4) && InHeap(m, a + size - 8)
    && Get(m', a - 4) == v && Get(m', a + size - 8) == v
    && Same(m, m', 0, a - 4) && Same(m, m', a, a + size - 8) && Same(m, m', a + size - 4, End(m))
  }

  /**
   * Writing a header at a - 4 and a footer at a + size - 8 with the same
   * tag, in either order, changes those two words only.
   */
  lemma TagPair(m: Mem, a: int, size: int, v: Word)
    requires a % 8 == 0 && size % 8 == 0 && FIRST <= a && 16 <= size && a + size <= End(m)
    ensures (a - 4) % 4 == 0 && (a + size - 8) % 4 == 0
    ensures Retagged(m, Put(Put(m, a - 4, v), a + size - 8, v), a, size, v)
    ensures Retagged(m, Put(Put(m, a + size - 8, v), a - 4, v), a, size, v)
  {
    Grid(a, 0, 8);
    Grid(a, size, 8);
    WordAligned(a - 8);
    WordAligned(a + size - 8);
  }

  /**
   * The two writes HDRP then FTRP of a block of the given size: after the
   * header write, FTRP reads the new size and lands on the block's last word.
   */
  lemma HeaderFooter(m: Mem, a: int, size: int, v: Word)
    requires a % 8 == 0 && size % 8 == 0 && FIRST <= a && 16 <= size && a + size <= End(m)
    requires GetSize(v) == size
    ensures InHeap(m, a - 4) && (a - 4) % 4 == 0
    ensures InHeap(Put(m, a - 4, v), a - 4) && Ftrp(Put(m, a - 4, v), a) == a + size - 8
    ensures InHeap(Put(m, a - 4, v), a + size - 8) && (a + size - 8) % 4 == 0
    ensures Retagged(m, Put(Put(m, a - 4, v), a + size - 8, v), a, size, v)
  {
    TagPair(m, a, size, v);
  }

  /**
   * The two writes of coalesce when it absorbs the previous block: first
   * the footer at FTRP(bp), then the header at HDRP(PREV_BLKP(bp)), where
   * PREV_BLKP still reads the predecessor's footer just below bp.
   */
  lemma FooterFirst(m: Mem, a: int, bp: int, size: int, v: Word)
    requires a % 8 == 0 && size % 8 == 0 && FIRST <= a && 16 <= size && a + size <= End(m)
    requires a + 16 <= bp && bp + 16 <= a + size
    requires InHeap(m, bp - 8) && PrevBlkp(m, bp) == a
    ensures InHeap(m, a + size - 8) && (a + size - 8) % 4 == 0 && (a - 4) % 4 == 0
    ensures InHeap(Put(m, a + size - 8, v), bp - 8) && PrevBlkp(Put(m, a + size - 8, v), bp) == a
    ensures InHeap(Put(m, a + size - 8, v), a - 4)
    ensures Retagged(m, Put(Put(m, a + size - 8, v), a - 4, v), a, size, v)
  {
    TagPair(m, a, size, v);
  }

  /**
   * The two writes of coalesce when it absorbs both neighbours: the header
   * at HDRP(PREV_BLKP(bp)), then the footer at FTRP(NEXT_BLKP(bp)); both
   * macros still read bp's and its successor's unchanged headers.
   */
  lemma OuterTags(m: Mem, a: int, bp: int, n: int, size: int, v: Word)
    requires a % 8 == 0 && size % 8 == 0 && FIRST <= a && 16 <= size && a + size <= End(m)
    requires a + 16 <= bp && bp + 16 <= n && n + 16 <= a + size
    requires InHeap(m, bp - 8) && PrevBlkp(m, bp) == a
    requires InHeap(m, n - 4) && NextBlkp(m, bp) == n && Ftrp(m, n) == a + size - 8
    ensures InHeap(m, a - 4) && (a - 4) % 4 == 0 && (a + size - 8) % 4 == 0
    ensures InHeap(Put(m, a - 4, v), n - 4) && NextBlkp(Put(m, a - 4, v), bp) == n
    ensures Ftrp(Put(m, a - 4, v), n) == a + size - 8 && InHeap(Put(m, a - 4, v), a + size - 8)
    ensures InHeap(Put(Put(m, a - 4, v), a + size - 8, v), bp - 8)
    ensures PrevBlkp(Put(Put(m, a - 4, v), a + size - 8, v), bp) == a
    ensures Retagged(m, Put(Put(m, a - 4, v), a + size - 8, v), a, size, v)
  {
    TagPair(m, a, size, v);
  }

  /**
   * Boundary tags: a block's footer repeats its header, NEXT_BLKP walks to
   * the following block (or the epilogue), and PREV_BLKP, reading the
   * footer just below a block, walks back to the preceding block (or the
   * prologue).
   */
  lemma {:induction false} BoundaryTags(m: Mem, blocks: seq<int>, i: int)
    requires Tagged(m, blocks) && 0 <= i < |blocks|
    ensures Get(m, Ftrp(m, blocks[i])) == Get(m, Hdrp(blocks[i]))
    ensures NextBlkp(m, blocks[i]) == if i + 1 < |blocks| then blocks[i + 1] else End(m)
    ensures InHeap(m, blocks[i] - 8)
    ensures PrevBlkp(m, blocks[i]) == if i == 0 then PROLOGUE else blocks[i - 1]
  {
    var b := blocks[i];
    assert BlockOK(m, b);
    if i > 0 {
      var c := blocks[i - 1];
      assert BlockOK(m, c) && NextBlkp(m, c) == b;
      assert Ftrp(m, c) == b - 8;
    }
    if i + 1 < |blocks| {
      assert NextBlkp(m, b) == blocks[i + 1];
    }
  }

  // ---------------------------------------------------------------------
  // Rebuilding chains after words change.

  /** A chain survives any change outside the words it spans. */
  lemma ChainKept(m: Mem, m': Mem, blocks: seq<int>, from: int, to: int)
    requires Chain(m, blocks, from, to) && Same(m, m', from - 4, to - 4)
    ensures Chain(m', blocks, from, to)
    ensures forall i :: 0 <= i < |blocks| ==> Kept(m, m', blocks[i])
  {
    forall i | 0 <= i < |blocks|
      ensures BlockOK(m', blocks[i]) && NextBlkp(m', blocks[i]) == NextBlkp(m, blocks[i])
      ensures Kept(m, m', blocks[i])
    {
      Inside(m, blocks, from, to, i);
      assert BlockOK(m, blocks[i]);
    }
  }

  /** Two chains that meet form one chain. */
  lemma ChainAppend(m: Mem, s: seq<int>, t: seq<int>, from: int, mid: int, to: int)
    requires Chain(m, s, from, mid) && Chain(m, t, mid, to)
    ensures Chain(m, s + t, from, to)
  {
    var st := s + t;
    forall i, j | 0 <= i && j == i + 1 < |st|
      ensures NextBlkp(m, st[i]) == st[j]
    {
      if j < |s| {
        assert st[i] == s[i] && st[j] == s[j];
      } else if i == |s| - 1 {
        assert st[i] == s[i] && st[j] == t[0];
      } else {
        assert st[i] == t[i - |s|] && st[j] == t[j - |s|];
      }
    }
  }

  /** A chain cut at index k: the part before and the part from k on. */
  lemma ChainSplit(m: Mem, blocks: seq<int>, from: int, to: int, k: int)
    requires Chain(m, blocks, from, to) && 0 <= k <= |blocks|
    ensures var cut := if k < |blocks| then blocks[k] else to;
      Chain(m, blocks[..k], from, cut) && Chain(m, blocks[k..], cut, to)
  {
    if 0 < k < |blocks| {
      assert NextBlkp(m, blocks[k - 1]) == blocks[k];
    }
    if k == |blocks| && k > 0 {
      assert blocks[..k][k - 1] == blocks[k - 1];
    }
  }

  /** The blocks before index i and the blocks from index j on, as chains of their own. */
  lemma Bracket(m: Mem, blocks: seq<int>, from: int, to: int, i: int, j: int)
    requires Chain(m, blocks, from, to) && 0 <= i < j <= |blocks|
    ensures from <= blocks[i] && NextBlkp(m, blocks[j - 1]) <= to
    ensures Chain(m, blocks[..i], from, blocks[i])
    ensures Chain(m, blocks[j..], NextBlkp(m, blocks[j - 1]), to)
  {
    Inside(m, blocks, from, to, i);
    Inside(m, blocks, from, to, j - 1);
    ChainSplit(m, blocks, from, to, i);
    ChainSplit(m, blocks, from, to, j);
    if j < |blocks| {
      assert NextBlkp(m, blocks[j - 1]) == blocks[j];
    }
  }

  /** Cutting s around index i and gluing it back gives s. */
  lemma Unsplit(s: seq<int>, i: int)
    requires 0 <= i < |s|
    ensures s[..i] + [s[i]] + s[i + 1..] == s
  {
  }

  /** The one-element slice at index i. */
  lemma Single(s: seq<int>, i: int)
    requires 0 <= i < |s|
    ensures s[i..i + 1] == [s[i]]
  {
  }

  /**
   * Replacing blocks i .. j-1 of a heap by a new chain over the same words,
   * with every word outside them unchanged, gives a well-tagged heap again,
   * and every other block keeps all of its words.
   */
  lemma Splice(m: Mem, blocks: seq<int>, i: int, j: int, m': Mem, mid: seq<int>)
    requires Tagged(m, blocks) && 0 <= i < j <= |blocks| && |m'| == |m|
    requires Same(m, m', 0, blocks[i] - 4)
    requires Same(m, m', NextBlkp(m, blocks[j - 1]) - 4, End(m))
    requires Chain(m', mid, blocks[i], NextBlkp(m, blocks[j - 1]))
    ensures Tagged(m', blocks[..i] + mid + blocks[j..])
    ensures forall k :: 0 <= k < i || j <= k < |blocks| ==> Kept(m, m', blocks[k])
  {
    var lo, hi := blocks[i], NextBlkp(m, blocks[j - 1]);
    var pre, post := blocks[..i], blocks[j..];
    Bracket(m, blocks, FIRST, End(m), i, j);
    ChainKept(m, m', pre, FIRST, lo);
    ChainKept(m, m', post, hi, End(m));
    ChainAppend(m', pre, mid, FIRST, lo, hi);
    ChainAppend(m', pre + mid, post, FIRST, hi, End(m));
    forall k | 0 <= k < i || j <= k < |blocks|
      ensures Kept(m, m', blocks[k])
    {
      if k < i {
        assert blocks[k] == pre[k];
      } else {
        assert blocks[k] == post[k - j];
      }
    }
  }
}
