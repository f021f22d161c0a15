/**
 * The malloc package itself: the two globals `heap_start_ptr` and
 * `head_FreeList` and the simulated heap they point into, as the fields of
 * an Allocator object, and mm_init, mm_malloc, mm_free and mm_realloc as
 * its methods.
 *
 * Addresses are byte offsets from the first byte of the simulated heap
 * (mem_heap_lo); offset 0 holds the alignment padding word, so no payload
 * address is 0 and NULL is written 0.  mem_sbrk hands out heap space up to
 * the fixed bound `limit` (MAX_HEAP of the memory library).
 */
module MM {
  import opened Codec
  import opened Layout
  import opened FreeList
  import opened Heap
  import opened Routines

  /** MAX(x, y) */
  function Max(x: int, y: int): (r: int)
    ensures r >= x && r >= y && (r == x || r == y)
  {
    if x > y then x else y
  }

  /** The `words` argument mm_malloc passes to extend_heap: MAX(asize, CHUNKSIZE) / WSIZE. */
  function ExtendWords(asize: Word): (w: Word)
    ensures w >= CHUNKSIZE / WSIZE && w * WSIZE <= Max(asize, CHUNKSIZE)
    ensures asize % 4 == 0 ==> w * WSIZE == Max(asize, CHUNKSIZE)
  {
    Max(asize, CHUNKSIZE) / WSIZE
  }

  /**
   * The bytes extend_heap adds when mm_malloc finds no fit for asize:
   * ALIGN(words * WSIZE + SIZE_T_SIZE) with words = ExtendWords(asize),
   * which for an aligned asize is MAX(asize, CHUNKSIZE) plus one double word.
   */
  function Growth(asize: Word): (g: int)
    requires asize % 8 == 0 && asize + SIZE_T_SIZE <= 0xFFFF_FFF8
    ensures g == Max(asize, CHUNKSIZE) + SIZE_T_SIZE
  {
    GrowthExact(asize);
    Align(ExtendWords(asize) * WSIZE + SIZE_T_SIZE)
  }

  /** For an aligned asize the words cover MAX(asize, CHUNKSIZE) exactly and ALIGN adds nothing. */
  lemma GrowthExact(asize: Word)
    requires asize % 8 == 0 && asize + SIZE_T_SIZE <= 0xFFFF_FFF8
    ensures ExtendWords(asize) * WSIZE == Max(asize, CHUNKSIZE)
    ensures Align(Max(asize, CHUNKSIZE) + SIZE_T_SIZE) == Max(asize, CHUNKSIZE) + SIZE_T_SIZE
  {
    var q := asize / 8;
    assert asize == 8 * q && asize == 4 * (2 * q);
    Quad(2 * q);
    var g := Max(asize, CHUNKSIZE) + SIZE_T_SIZE;
    assert g == 8 * (if q > 512 then q + 1 else 513);
    AlignFixed(g);
  }

  // ---------------------------------------------------------------------
  // mm_malloc.

  /**
   * When mm_malloc returns NULL: for a zero request, for a request whose
   * adjusted size does not fit a word, and when no listed block fits and
   * mem_sbrk cannot grow the heap far enough.
   */
  ghost predicate Refused(m: Mem, free: seq<int>, limit: int, size: Word)
    requires Nodes(m, free)
  {
    || size == 0
    || size > MAX_REQUEST
    || (AdjustedSizeFits(size);
        && FirstFit(m, free, AdjustedSizeAsWritten(size)) == 0
        && End(m) + Growth(AdjustedSizeAsWritten(size)) > limit)
  }

  /**
   * What mm_malloc promises of a block bp it returns for a request of size
   * bytes: an 8-aligned block of the heap, allocated and off the free list,
   * whose payload holds the request and which is less than a minimum block
   * longer than the adjusted size; a block that existed before was free.
   */
  ghost predicate Granted(blocks: seq<int>, free: seq<int>, m': Mem, blocks': seq<int>, free': seq<int>,
                          size: Word, bp: int)
  {
    && bp % 8 == 0 && bp in blocks' && bp !in free' && InHeap(m', bp - 4) && !IsFree(m', bp)
    && size + OVERHEAD <= BlockSize(m', bp) < AdjustedSizeAsWritten(size) + MINBLOCK
    && (bp in blocks ==> bp in free)
  }

  /** The block extend_heap returns: the last block when it is free (coalesce merges into it), else the old break. */
  ghost function LastFreeOrEnd(m: Mem, blocks: seq<int>): int
    requires Tagged(m, blocks)
  {
    if |blocks| > 0 && IsFree(m, blocks[|blocks| - 1]) then blocks[|blocks| - 1] else End(m)
  }

  /** placeBlock's promises about the block bp = blocks'[t] it placed an adjusted request in are mm_malloc's. */
  lemma Grants(blocks: seq<int>, free: seq<int>, m: Mem, m': Mem, head': int, blocks': seq<int>, free': seq<int>,
               size: Word, asize: Word, bp: int, t: int)
    requires Consistent(m', head', blocks', free', 0, 0) && 0 <= t < |blocks'| && blocks'[t] == bp
    requires !IsFree(m', blocks'[t]) && (bp in blocks ==> bp in free)
    requires 0 < size <= MAX_REQUEST && asize == AdjustedSizeAsWritten(size)
    requires InHeap(m, bp - 4) && asize <= BlockSize(m, bp)
    requires BlockSize(m', blocks'[t]) == if BlockSize(m, bp) - asize >= MINBLOCK then asize else BlockSize(m, bp)
    ensures Granted(blocks, free, m', blocks', free', size, bp)
  {
    AdjustedSizeFits(size);
    assert Outside(t, 0, 0) && BlockOK(m', blocks'[t]);
  }

  /** The block extend_heap returns was free and listed if it was a block at all. */
  lemma LastListed(m: Mem, head: int, blocks: seq<int>, free: seq<int>)
    requires Consistent(m, head, blocks, free, 0, 0)
    ensures LastFreeOrEnd(m, blocks) in blocks ==> LastFreeOrEnd(m, blocks) in free
  {
    forall k | 0 <= k < |blocks|
      ensures blocks[k] != End(m)
    {
      assert BlockOK(m, blocks[k]);
    }
    if |blocks| > 0 && IsFree(m, blocks[|blocks| - 1]) {
      FreeListed(m, head, blocks, free, 0, 0, |blocks| - 1);
    }
  }

  /** mm_malloc when findOpenSpot found bp: placeBlock(bp, asize). */
  method Reuse(m: Mem, head: Word, ghost blocks: seq<int>, ghost free: seq<int>, bp: Word, size: Word, asize: Word)
    returns (m': Mem, head': Word, ghost blocks': seq<int>, ghost free': seq<int>)
    requires Consistent(m, head, blocks, free, 0, 0) && bp != 0 && bp == FirstFit(m, free, asize)
    requires 0 < size <= MAX_REQUEST && asize == AdjustedSizeAsWritten(size)
    ensures |m'| == |m| && Consistent(m', head', blocks', free', 0, 0)
    ensures Granted(blocks, free, m', blocks', free', size, bp)
    ensures Keeps(m, blocks, free, m', blocks', free', []) && KeepsFree(m, free, m', free', [bp])
  {
    AdjustedSizeFits(size);
    FirstFitSpec(m, free, asize);
    ghost var i :| 0 <= i < |free| && free[i] == bp && asize <= BlockSize(m, free[i]);
    ListedIn(m, blocks, free, 0, 0, bp);
    ghost var t := IndexOf(blocks, bp);
    m', head', blocks', free' := PlaceBlock(m, head, blocks, free, bp, asize, t);
    Grants(blocks, free, m, m', head', blocks', free', size, asize, bp, t);
  }

  /** mm_malloc when no block fits: extend_heap(MAX(asize, CHUNKSIZE) / WSIZE), then placeBlock. */
  method Enlarge(m: Mem, limit: Word, head: Word, ghost blocks: seq<int>, ghost free: seq<int>, size: Word,
                 asize: Word)
    returns (m': Mem, head': Word, ghost blocks': seq<int>, ghost free': seq<int>, bp: Word)
    requires Consistent(m, head, blocks, free, 0, 0)
    requires 0 < size <= MAX_REQUEST && asize == AdjustedSizeAsWritten(size)
    requires asize % 8 == 0 && MINBLOCK <= asize && asize + SIZE_T_SIZE <= 0xFFFF_FFF8
    ensures End(m) + Growth(asize) > limit ==>
      bp == 0 && m' == m && head' == head && blocks' == blocks && free' == free
    ensures End(m) + Growth(asize) <= limit ==>
      && bp == LastFreeOrEnd(m, blocks) && End(m') == End(m) + Growth(asize)
      && Consistent(m', head', blocks', free', 0, 0)
      && bp != 0 && Granted(blocks, free, m', blocks', free', size, bp)
      && Keeps(m, blocks, free, m', blocks', free', []) && KeepsFree(m, free, m', free', [bp])
  {
    AdjustedSizeFits(size);
    var words := ExtendWords(asize);
    assert Growth(asize) == Align(words * WSIZE + SIZE_T_SIZE);
    var m1, h1, bp1;
    ghost var b1, f1, t1;
    m1, h1, b1, f1, bp1, t1 := ExtendHeap(m, limit, head, blocks, free, words);
    if bp1 == 0 {
      m', head', blocks', free', bp := m, head, blocks, free, 0;
      return;
    }
    bp := bp1;
    Room(m, blocks, free, m1, h1, b1, f1, bp, t1, asize);
    m', head', blocks', free' := PlaceBlock(m1, h1, b1, f1, bp, asize, t1);
    Enlarged(m, head, blocks, free, m1, h1, b1, f1, m', head', blocks', free', size, asize, bp, t1);
  }

  /** The block extend_heap returns to mm_malloc is listed and has room for the adjusted request. */
  lemma Room(m: Mem, blocks: seq<int>, free: seq<int>, m1: Mem, h1: int, b1: seq<int>, f1: seq<int>,
             bp: int, t1: int, asize: Word)
    requires Tagged(m, blocks) && asize % 8 == 0 && asize + SIZE_T_SIZE <= 0xFFFF_FFF8
    requires End(m1) == End(m) + Growth(asize) && Extension(m, blocks, free, m1, h1, b1, f1, bp, t1)
    ensures 0 <= t1 < |b1| && b1[t1] == bp && bp in f1 && InHeap(m1, bp - 4) && asize <= BlockSize(m1, bp)
    ensures bp == LastFreeOrEnd(m, blocks) && bp != 0
  {
  }

  /** placeBlock after extend_heap grants the request, and over both steps only bp leaves the list. */
  lemma Enlarged(m: Mem, head: int, blocks: seq<int>, free: seq<int>, m1: Mem, h1: int, b1: seq<int>, f1: seq<int>,
                 m': Mem, head': int, blocks': seq<int>, free': seq<int>, size: Word, asize: Word, bp: int, t1: int)
    requires Consistent(m, head, blocks, free, 0, 0) && Extension(m, blocks, free, m1, h1, b1, f1, bp, t1)
    requires 0 < size <= MAX_REQUEST && asize == AdjustedSizeAsWritten(size) && bp == LastFreeOrEnd(m, blocks)
    requires InHeap(m1, bp - 4) && asize <= BlockSize(m1, bp)
    requires Consistent(m', head', blocks', free', 0, 0)
    requires 0 <= t1 < |blocks'| && blocks'[t1] == bp && !IsFree(m', blocks'[t1])
    requires BlockSize(m', blocks'[t1]) == if BlockSize(m1, bp) - asize >= MINBLOCK then asize else BlockSize(m1, bp)
    requires Keeps(m1, b1, f1, m', blocks', free', []) && KeepsFree(m1, f1, m', free', [bp])
    ensures Granted(blocks, free, m', blocks', free', size, bp)
    ensures Keeps(m, blocks, free, m', blocks', free', []) && KeepsFree(m, free, m', free', [bp])
  {
    LastListed(m, head, blocks, free);
    Grants(blocks, free, m1, m', head', blocks', free', size, asize, bp, t1);
    KeepsThen(m, blocks, free, m1, b1, f1, m', blocks', free', []);
    KeepsFreeTrans(m, free, m1, f1, m', free', [bp], [bp]);
    KeepsFreeLess(m, free, m', free', [bp] + [bp], [bp]);
  }

  /** The n words starting at the word-aligned byte address a. */
  function Words(m: Mem, a: int, n: nat): (s: seq<Word>)
    requires a % 4 == 0 && 0 <= a && a + 4 * n <= End(m)
    ensures |s| == n
  {
    m[a / 4 .. a / 4 + n]
  }

  /** mm_malloc once a request of size bytes is adjusted to asize: first fit, else extend the heap; NULL when both fail. */
  method Serve(m: Mem, limit: Word, head: Word, ghost blocks: seq<int>, ghost free: seq<int>, size: Word, asize: Word)
    returns (m': Mem, head': Word, ghost blocks': seq<int>, ghost free': seq<int>, bp: Word)
    requires Consistent(m, head, blocks, free, 0, 0) && End(m) <= limit
    requires 0 < size <= MAX_REQUEST && asize == AdjustedSizeAsWritten(size)
    requires asize % 8 == 0 && MINBLOCK <= asize && asize + SIZE_T_SIZE <= 0xFFFF_FFF8
    ensures End(m') <= limit && Consistent(m', head', blocks', free', 0, 0)
    ensures bp == 0 <==> FirstFit(m, free, asize) == 0 && End(m) + Growth(asize) > limit
    ensures bp == 0 ==> m' == m && head' == head && blocks' == blocks && free' == free
    ensures bp != 0 ==> Granted(blocks, free, m', blocks', free', size, bp)
    ensures bp != 0 && FirstFit(m, free, asize) != 0 ==> bp == FirstFit(m, free, asize)
    ensures bp != 0 && FirstFit(m, free, asize) == 0 ==>
      bp == LastFreeOrEnd(m, blocks) && End(m') == End(m) + Growth(asize)
    ensures Keeps(m, blocks, free, m', blocks', free', [])
    ensures bp != 0 ==> KeepsFree(m, free, m', free', [bp])
  {
    AdjustedSizeFits(size);
    bp := FindOpenSpot(m, head, free, asize);
    if bp != 0 {
      m', head', blocks', free' := Reuse(m, head, blocks, free, bp, size, asize);
      return;
    }
    m', head', blocks', free', bp := Enlarge(m, limit, head, blocks, free, size, asize);
  }

  /**
   * mm_malloc: NULL for a zero or oversized request and when memory runs
   * out; otherwise the first listed block that fits (placeBlock splitting
   * off the rest), or, when none does, the block extend_heap returns. The
   * heap stays consistent, and a NULL result leaves it as it was.
   */
  method Allocate(m: Mem, limit: Word, head: Word, ghost blocks: seq<int>, ghost free: seq<int>, size: Word)
    returns (m': Mem, head': Word, ghost blocks': seq<int>, ghost free': seq<int>, bp: Word)
    requires Consistent(m, head, blocks, free, 0, 0) && End(m) <= limit
    ensures End(m') <= limit && Consistent(m', head', blocks', free', 0, 0)
    ensures bp == 0 <==> Refused(m, free, limit, size)
    ensures bp == 0 ==> m' == m && head' == head && blocks' == blocks && free' == free
    ensures bp != 0 ==> Granted(blocks, free, m', blocks', free', size, bp)
    ensures bp != 0 && FirstFit(m, free, AdjustedSizeAsWritten(size)) != 0 ==>
      bp == FirstFit(m, free, AdjustedSizeAsWritten(size))
    ensures bp != 0 && FirstFit(m, free, AdjustedSizeAsWritten(size)) == 0 ==>
      bp == LastFreeOrEnd(m, blocks) && End(m') == End(m) + Growth(AdjustedSizeAsWritten(size))
    ensures Keeps(m, blocks, free, m', blocks', free', [])
    ensures bp != 0 ==> KeepsFree(m, free, m', free', [bp])
  {
    if size == 0 {
      m', head', blocks', free', bp := m, head, blocks, free, 0;
      return;
    }
    var request := AdjustedSize(size);
    if request.None? {
      m', head', blocks', free', bp := m, head, blocks, free, 0;
      return;
    }
    AdjustedSizeFits(size);
    m', head', blocks', free', bp := Serve(m, limit, head, blocks, free, size, request.value);
  }

  // ---------------------------------------------------------------------
  // mm_free.

  /** Where the free block holding a freed blocks[t] starts: at the previous block when that one is free. */
  ghost function MergedStart(m: Mem, blocks: seq<int>, t: int): int
    requires Tagged(m, blocks) && 0 <= t < |blocks|
  {
    if t > 0 && IsFree(m, blocks[t - 1]) then blocks[t - 1] else blocks[t]
  }

  /** Where the free block holding a freed blocks[t] ends: with the next block when that one is free. */
  ghost function MergedEnd(m: Mem, blocks: seq<int>, t: int): int
    requires Tagged(m, blocks) && 0 <= t < |blocks|
  {
    assert BlockOK(m, blocks[t]);
    if t + 1 < |blocks| && IsFree(m, blocks[t + 1]) then NextBlkp(m, blocks[t + 1]) else NextBlkp(m, blocks[t])
  }

  /** Retagging blocks[t] alone leaves its neighbours' tags, so the merge bounds are the same in both heaps. */
  lemma MergeBounds(m: Mem, m': Mem, blocks: seq<int>, t: int, v: Word)
    requires Tagged(m, blocks) && Tagged(m', blocks) && 0 <= t < |blocks|
    requires Retagged(m, m', blocks[t], BlockSize(m, blocks[t]), v) && GetSize(v) == BlockSize(m, blocks[t])
    ensures MergedStart(m', blocks, t) == MergedStart(m, blocks, t)
    ensures MergedEnd(m', blocks, t) == MergedEnd(m, blocks, t)
    ensures RunLo(m', blocks, t) == RunLo(m, blocks, t) && RunHi(m', blocks, t) == RunHi(m, blocks, t)
  {
    var b := blocks[t];
    assert BlockOK(m, b);
    if t > 0 {
      assert BlockOK(m, blocks[t - 1]) && NextBlkp(m, blocks[t - 1]) == b;
      assert Get(m', blocks[t - 1] - 4) == Get(m, blocks[t - 1] - 4);
    }
    if t + 1 < |blocks| {
      assert BlockOK(m, blocks[t + 1]) && NextBlkp(m, b) == blocks[t + 1];
      assert Get(m', blocks[t + 1] - 4) == Get(m, blocks[t + 1] - 4);
    }
  }

  /**
   * After mm_free of blocks[t]: the run around it (the previous block when
   * that one was free, blocks[t], the next block when that one was free) is
   * one free block from MergedStart to MergedEnd; in the block sequence and
   * on the list that block takes the run's place, and every other listed
   * block stays listed with its header.
   */
  ghost predicate Freed(m: Mem, blocks: seq<int>, free: seq<int>, t: int, m': Mem, blocks': seq<int>, free': seq<int>)
    requires Tagged(m, blocks) && 0 <= t < |blocks| && Tagged(m', blocks')
  {
    && MergedView(blocks, free, RunLo(m, blocks, t), RunHi(m, blocks, t), blocks', free')
    && blocks'[RunLo(m, blocks, t)] == MergedStart(m, blocks, t) && IsFree(m', blocks'[RunLo(m, blocks, t)])
    && NextBlkp(m', blocks'[RunLo(m, blocks, t)]) == MergedEnd(m, blocks, t)
    && KeepsFree(m, free, m', free', blocks[RunLo(m, blocks, t)..RunHi(m, blocks, t)])
  }

  /** Freed for whichever index the block p has: the blocks of a heap are distinct, so there is one. */
  ghost predicate FreedAt(m: Mem, blocks: seq<int>, free: seq<int>, p: int, m': Mem, blocks': seq<int>, free': seq<int>)
    requires Tagged(m, blocks) && Tagged(m', blocks')
  {
    forall t {:trigger Freed(m, blocks, free, t, m', blocks', free')} ::
      0 <= t < |blocks| && blocks[t] == p ==> Freed(m, blocks, free, t, m', blocks', free')
  }

  /** Freed, from Unmark's and Coalesce's promises about the heap m1 between them. */
  lemma Freeing(m: Mem, free: seq<int>, m1: Mem, blocks: seq<int>, t: int, m': Mem, blocks': seq<int>,
                free': seq<int>, t': int)
    requires Tagged(m, blocks) && Tagged(m1, blocks) && 0 <= t < |blocks| && Tagged(m', blocks')
    requires RunLo(m1, blocks, t) == RunLo(m, blocks, t) && RunHi(m1, blocks, t) == RunHi(m, blocks, t)
    requires MergedEnd(m1, blocks, t) == MergedEnd(m, blocks, t) && KeepsFree(m, free, m1, free, [])
    requires t' == RunLo(m1, blocks, t) && MergedView(blocks, free, t', RunHi(m1, blocks, t), blocks', free')
    requires KeepsFree(m1, free, m', free', blocks[t'..RunHi(m1, blocks, t)])
    requires 0 <= t' < |blocks'| && IsFree(m', blocks'[t'])
    requires NextBlkp(m', blocks'[t'])
      == if t + 1 < |blocks| && IsFree(m1, blocks[t + 1]) then NextBlkp(m1, blocks[t + 1]) else NextBlkp(m1, blocks[t])
    ensures Freed(m, blocks, free, t, m', blocks', free')
  {
    var lo, hi := RunLo(m, blocks, t), RunHi(m, blocks, t);
    assert blocks'[lo] == blocks[lo];
    KeepsFreeTrans(m, free, m1, free, m', free', [], blocks[lo..hi]);
    assert [] + blocks[lo..hi] == blocks[lo..hi];
  }

  /** The address p lies in a listed free block. */
  ghost predicate Covered(m: Mem, blocks: seq<int>, free: seq<int>, p: int)
    requires Tagged(m, blocks)
  {
    exists k :: 0 <= k < |blocks| && blocks[k] in free && IsFree(m, blocks[k]) && blocks[k] <= p < NextBlkp(m, blocks[k])
  }

  /** The merged block covers the freed one: its start is at or below it and its end past it. */
  lemma FreedCovers(m: Mem, blocks: seq<int>, free: seq<int>, t: int, m': Mem, blocks': seq<int>, free': seq<int>)
    requires Tagged(m, blocks) && 0 <= t < |blocks| && Tagged(m', blocks')
    requires Freed(m, blocks, free, t, m', blocks', free')
    ensures MergedStart(m, blocks, t) <= blocks[t] < NextBlkp(m, blocks[t]) <= MergedEnd(m, blocks, t)
    ensures Covered(m', blocks', free', blocks[t])
  {
    assert BlockOK(m, blocks[t]);
    if t > 0 {
      assert BlockOK(m, blocks[t - 1]);
      ChainOrder(m, blocks, FIRST, End(m), t - 1, t);
    }
    if t + 1 < |blocks| {
      assert BlockOK(m, blocks[t + 1]);
      ChainOrder(m, blocks, FIRST, End(m), t, t + 1);
    }
    var k := RunLo(m, blocks, t);
    assert blocks'[k] in free';
  }

  /** mm_free's two PUTs: both tags of blocks[t] become PACK(size, 0); the block is free but not yet listed. */
  method Unmark(m: Mem, head: Word, ghost blocks: seq<int>, ghost free: seq<int>, ptr: Word, ghost t: int)
    returns (m': Mem)
    requires Consistent(m, head, blocks, free, 0, 0) && 0 <= t < |blocks| && blocks[t] == ptr && ptr !in free
    ensures |m'| == |m| && Pending(m', head, blocks, free, t)
    ensures MergedStart(m', blocks, t) == MergedStart(m, blocks, t)
    ensures MergedEnd(m', blocks, t) == MergedEnd(m, blocks, t)
    ensures RunLo(m', blocks, t) == RunLo(m, blocks, t) && RunHi(m', blocks, t) == RunHi(m, blocks, t)
    ensures Keeps(m, blocks, free, m', blocks, free, [ptr]) && KeepsFree(m, free, m', free, [])
  {
    var size := BlockSize(m, ptr);
    RunSpan(m, blocks, t, t + 1);
    Widen(m, head, blocks, free, t, t + 1);
    m' := SetTags(m, ptr, size, 0);
    RetagPair(m, m', head, blocks, free, t, t + 1, t, size, 0);
    Unpack(size, 0);
    MergeBounds(m, m', blocks, t, Pack(size, 0));
    KeepsFreeLess(m, free, m', free, [blocks[t]], []);
  }

  /**
   * mm_free: tag the block free, then coalesce. Afterwards the freed bytes
   * lie in a listed free block that starts at the previous block when that
   * one was free (else at ptr) and ends with the next block when that one
   * was free (else where ptr's block ends); every other block the program
   * holds is untouched.
   */
  method Release(m: Mem, head: Word, ghost blocks: seq<int>, ghost free: seq<int>, ptr: Word, ghost t: int)
    returns (m': Mem, head': Word, ghost blocks': seq<int>, ghost free': seq<int>)
    requires Consistent(m, head, blocks, free, 0, 0) && 0 <= t < |blocks| && blocks[t] == ptr && ptr !in free
    ensures |m'| == |m| && Consistent(m', head', blocks', free', 0, 0)
    ensures Freed(m, blocks, free, t, m', blocks', free')
    ensures Keeps(m, blocks, free, m', blocks', free', [ptr])
  {
    var m1 := Unmark(m, head, blocks, free, ptr, t);
    var r;
    ghost var t';
    m', head', blocks', free', r, t' := Coalesce(m1, head, blocks, free, ptr, t);
    KeepsListed(m, blocks, free, m1, blocks, free, m', blocks', free', ptr, ptr);
    Freeing(m, free, m1, blocks, t, m', blocks', free', t');
  }

  /** mm_free of a held block, by address: the freed bytes end up inside a listed free block. */
  method Dispose(m: Mem, head: Word, ghost blocks: seq<int>, ghost free: seq<int>, ptr: Word)
    returns (m': Mem, head': Word, ghost blocks': seq<int>, ghost free': seq<int>)
    requires Consistent(m, head, blocks, free, 0, 0) && ptr in blocks && ptr !in free
    ensures |m'| == |m| && Consistent(m', head', blocks', free', 0, 0)
    ensures Covered(m', blocks', free', ptr)
    ensures FreedAt(m, blocks, free, ptr, m', blocks', free')
    ensures Keeps(m, blocks, free, m', blocks', free', [ptr])
  {
    ghost var t := IndexOf(blocks, ptr);
    m', head', blocks', free' := Release(m, head, blocks, free, ptr, t);
    FreedCovers(m, blocks, free, t, m', blocks', free');
    forall k | 0 <= k < |blocks| && blocks[k] == ptr
      ensures k == t
    {
      if k != t {
        BlocksApart(m, blocks, k, t);
      }
    }
  }

  // ---------------------------------------------------------------------
  // mm_init.

  /**
   * The four words mm_init writes into the 16 bytes it gets from mem_sbrk:
   * alignment padding, prologue header and footer, epilogue header. They
   * make an empty heap with an empty free list.
   */
  method Prologue(m: Mem) returns (m': Mem)
    requires |m| == 4
    ensures |m'| == 4 && Consistent(m', 0, [], [], 0, 0)
  {
    m' := Put(m, 0, 0);
    m' := Put(m', WSIZE, Pack(OVERHEAD, 1));
    m' := Put(m', DSIZE, Pack(OVERHEAD, 1));
    m' := Put(m', WSIZE + DSIZE, Pack(0, 1));
  }

  /** b is the one block on the list. */
  ghost predicate Sole(free: seq<int>, b: int)
  {
    forall x :: x in free <==> x == b
  }

  /** The free list after extending the empty heap. */
  lemma FirstList(free': seq<int>, bp: int)
    requires bp == FIRST && forall b :: b in free' <==> b in [] || b == bp
    ensures Sole(free', FIRST)
  {
  }

  /** The bytes mm_init's extend_heap(CHUNKSIZE / WSIZE) adds: ALIGN(CHUNKSIZE + SIZE_T_SIZE). */
  const INIT_GROWTH: int := CHUNKSIZE + SIZE_T_SIZE

  /**
   * mm_init on a fresh simulated heap: mem_sbrk(16) for the padding,
   * prologue and epilogue, then extend_heap(CHUNKSIZE / WSIZE). When the
   * first mem_sbrk fails the start pointer becomes (void *) -1 and the
   * result is -1. The result test after extend_heap is the corrected one
   * (InitStatus): -1 exactly when the heap could not take the first free
   * block, in which case the heap is left initialised but empty.
   */
  method Setup(m: Mem, limit: Word)
    returns (m': Mem, head': Word, ghost blocks': seq<int>, ghost free': seq<int>, start: int, r: int)
    requires m == []
    ensures limit < FIRST ==> r == -1 && start == -1 && m' == []
    ensures FIRST <= limit ==> start == PROLOGUE && End(m') <= limit && Consistent(m', head', blocks', free', 0, 0)
    ensures r == 0 <==> FIRST + INIT_GROWTH <= limit
    ensures FIRST <= limit < FIRST + INIT_GROWTH ==> blocks' == [] && End(m') == FIRST
    ensures r == 0 ==>
      && End(m') == FIRST + INIT_GROWTH && blocks' == [FIRST]
      && Sole(free', FIRST) && IsFree(m', FIRST) && BlockSize(m', FIRST) == INIT_GROWTH
  {
    var m1, p := MemSbrk(m, limit, 4 * WSIZE);
    if p == -1 {
      m', head', blocks', free', start, r := m, 0, [], [], -1, -1;
      return;
    }
    var m2 := Prologue(m1);
    start := p + DSIZE;
    var bp;
    m', head', blocks', free', bp := FirstChunk(m2, limit);
    r := InitStatus(bp);
  }

  /** mm_init's extend_heap(CHUNKSIZE / WSIZE) on the heap that holds only the prologue and epilogue. */
  method FirstChunk(m: Mem, limit: Word)
    returns (m': Mem, head': Word, ghost blocks': seq<int>, ghost free': seq<int>, bp: Word)
    requires End(m) == FIRST && Consistent(m, 0, [], [], 0, 0)
    ensures Consistent(m', head', blocks', free', 0, 0)
    ensures bp == 0 <==> limit < FIRST + INIT_GROWTH
    ensures bp == 0 ==> End(m') == FIRST && blocks' == []
    ensures bp != 0 ==>
      && bp == FIRST && End(m') == FIRST + INIT_GROWTH && blocks' == [FIRST]
      && Sole(free', FIRST) && IsFree(m', FIRST) && BlockSize(m', FIRST) == INIT_GROWTH
  {
    ghost var t;
    ChunkGrowth();
    m', head', blocks', free', bp, t := ExtendHeap(m, limit, 0, [], [], CHUNKSIZE / WSIZE);
    FirstChunkDone(m, limit, m', head', blocks', free', bp, t);
  }

  /** mm_init asks extend_heap for CHUNKSIZE / WSIZE words, which it rounds to INIT_GROWTH bytes. */
  lemma ChunkGrowth()
    ensures CHUNKSIZE / WSIZE * WSIZE + SIZE_T_SIZE + 7 < 0x1_0000_0000
    ensures Align(CHUNKSIZE / WSIZE * WSIZE + SIZE_T_SIZE) == INIT_GROWTH
  {
    AlignFixed(INIT_GROWTH);
  }

  /**
   * Extending the empty heap of mm_init either fails and leaves it as it
   * was, or yields one free block at FIRST, the only listed block, that
   * ends at the new epilogue.
   */
  lemma FirstChunkDone(m: Mem, limit: Word, m': Mem, head': Word, blocks': seq<int>, free': seq<int>, bp: Word, t: int)
    requires End(m) == FIRST && Tagged(m, [])
    requires End(m) + Align(CHUNKSIZE / WSIZE * WSIZE + SIZE_T_SIZE) > limit ==>
      bp == 0 && m' == m && head' == 0 && blocks' == [] && free' == []
    requires End(m) + Align(CHUNKSIZE / WSIZE * WSIZE + SIZE_T_SIZE) <= limit ==>
      && End(m') == End(m) + Align(CHUNKSIZE / WSIZE * WSIZE + SIZE_T_SIZE)
      && Extension(m, [], [], m', head', blocks', free', bp, t)
    ensures bp == 0 <==> limit < FIRST + INIT_GROWTH
    ensures bp == 0 ==> End(m') == FIRST && blocks' == []
    ensures bp != 0 ==>
      && bp == FIRST && End(m') == FIRST + INIT_GROWTH && blocks' == [FIRST]
      && Sole(free', FIRST) && IsFree(m', FIRST) && BlockSize(m', FIRST) == INIT_GROWTH
  {
    ChunkGrowth();
    if End(m) + INIT_GROWTH <= limit {
      FirstRegion(m, m', blocks', free', bp, t);
    }
  }

  /** FirstChunkDone when the heap could grow. */
  lemma FirstRegion(m: Mem, m': Mem, blocks': seq<int>, free': seq<int>, bp: Word, t: int)
    requires End(m) == FIRST && End(m') == End(m) + INIT_GROWTH && bp == End(m) && blocks' == [] + [bp]
    requires 0 <= t < |blocks'| && blocks'[t] == bp && IsFree(m', blocks'[t]) && NextBlkp(m', blocks'[t]) == End(m')
    requires forall b :: b in free' <==> b in [] || b == bp
    ensures bp == FIRST && blocks' == [FIRST] && Sole(free', FIRST)
    ensures IsFree(m', FIRST) && BlockSize(m', FIRST) == End(m') - FIRST
  {
    FirstList(free', bp);
  }

  // ---------------------------------------------------------------------
  // mm_init's result test.

  /** mm_init's test of extend_heap's result as written: failure is taken to be (void *) -1. */
  function InitStatusAsWritten(bp: Word): (r: int)
    ensures r == -1 <==> bp == 0xFFFF_FFFF
  {
    if bp == 0xFFFF_FFFF then -1 else 0
  }

  /**
   * extend_heap returns NULL or an 8-aligned payload address, never
   * (void *) -1: as written, mm_init reports success even when the first
   * extension of the heap fails.
   */
  lemma InitMissesFailure(bp: Word)
    requires bp == 0 || bp % 8 == 0
    ensures InitStatusAsWritten(bp) == 0
  {
  }

  /** mm_init's test of extend_heap's result as intended: failure is NULL. */
  function InitStatus(bp: Word): (r: int)
    ensures r == -1 <==> bp == 0
    ensures r == 0 <==> bp != 0
  {
    if bp == 0 then -1 else 0
  }

  // ---------------------------------------------------------------------
  // mm_realloc's copy length.

  /**
   * mm_realloc's copy length as written: the smaller of the request and
   * the raw header word of the old block, which is the block size with the
   * allocated bit, header and footer included.
   */
  function CopyLengthAsWritten(size: Word, header: Word): (n: Word)
    ensures n <= size && n <= header && (n == size || n == header)
  {
    if size < header then size else header
  }

  /**
   * With the header of an allocated block of bsize bytes, a request larger
   * than its payload copies bsize + 1 bytes: nine bytes more than the
   * payload holds (the footer, and beyond it, the next header).
   */
  lemma CopyOverruns(bsize: Word, size: Word)
    requires bsize % 8 == 0 && MINBLOCK <= bsize && bsize + 1 <= size
    ensures CopyLengthAsWritten(size, Pack(bsize, 1)) == bsize + 1
    ensures CopyLengthAsWritten(size, Pack(bsize, 1)) == (bsize - OVERHEAD) + 9
  {
  }

  /** A concrete case: a 16-byte block (8-byte payload) reallocated to 100 bytes copies 17 bytes. */
  lemma CopyOverrunsAt16()
    ensures CopyLengthAsWritten(100, Pack(16, 1)) == 17 && 17 > 16 - OVERHEAD
  {
    CopyOverruns(16, 100);
  }

  /** mm_realloc's copy length as intended: the smaller of the request and the old payload. */
  function CopyLength(size: Word, bsize: Word): (n: Word)
    requires bsize >= OVERHEAD
    ensures n <= size && n <= bsize - OVERHEAD
    ensures n == size || n == bsize - OVERHEAD
  {
    if size < bsize - OVERHEAD then size else bsize - OVERHEAD
  }

  /** memcpy of n bytes moves (n + 3) / 4 whole words. */
  function WordCount(n: Word): (w: nat)
    ensures 4 * w >= n && 4 * w < n + 4
  {
    (n + 3) / 4
  }

  /** Four times the word count of a length within the payload of an aligned block still fits that payload. */
  lemma WordsFit(n: Word, bsize: int)
    requires bsize % 8 == 0 && n + OVERHEAD <= bsize
    ensures 4 * WordCount(n) <= bsize - OVERHEAD
  {
    var w, q := WordCount(n), bsize / 8;
    assert bsize == 8 * q && w < 2 * q - 1;
  }

  // ---------------------------------------------------------------------
  // mm_realloc.

  /**
   * memcpy(d, s, 4 * n) on whole words: the n words at d become the n
   * words at s, and no other word changes. The two regions do not overlap.
   */
  method CopyWords(m: Mem, d: Word, s: Word, n: nat) returns (m': Mem)
    requires d % 4 == 0 && s % 4 == 0 && d + 4 * n <= End(m) && s + 4 * n <= End(m)
    requires d + 4 * n <= s || s + 4 * n <= d
    ensures |m'| == |m| && Words(m', d, n) == Words(m, s, n)
    ensures forall k :: 0 <= k < |m| && (k < d / 4 || d / 4 + n <= k) ==> m'[k] == m[k]
  {
    var di, si := d / 4, s / 4;
    assert d == 4 * di && s == 4 * si;
    m' := m;
    var i := 0;
    while i < n
      invariant 0 <= i <= n && |m'| == |m|
      invariant forall k :: di <= k < di + i ==> m'[k] == m[k - di + si]
      invariant forall k :: 0 <= k < |m| && (k < di || di + i <= k) ==> m'[k] == m[k]
    {
      m' := m'[di + i := m'[si + i]];
      i := i + 1;
    }
    assert forall j :: 0 <= j < n ==> Words(m', d, n)[j] == Words(m, s, n)[j];
  }

  /** Words untouched outside [d, d + 4n) are the same as seen through Get. */
  lemma Untouched(m: Mem, m': Mem, d: int, n: nat)
    requires |m'| == |m| && d % 4 == 0 && 0 <= d
    requires forall k :: 0 <= k < |m| && (k < d / 4 || d / 4 + n <= k) ==> m'[k] == m[k]
    ensures Same(m, m', 0, d) && Same(m, m', d + 4 * n, End(m))
  {
    forall x | 0 <= x < d && x < End(m)
      ensures Get(m', x) == Get(m, x)
    {
      assert x / 4 < d / 4;
    }
    forall x | d + 4 * n <= x < End(m)
      ensures Get(m', x) == Get(m, x)
    {
      assert d / 4 + n <= x / 4;
    }
  }

  /** A block whose words were kept keeps the words of its payload. */
  lemma KeptWords(m: Mem, m': Mem, b: int, n: nat)
    requires BlockOK(m, b) && Kept(m, m', b) && 4 * n <= BlockSize(m, b) - OVERHEAD
    ensures b % 4 == 0 && b + 4 * n <= End(m) <= End(m') && Words(m', b, n) == Words(m, b, n)
  {
    WordAligned(b);
    var q := b / 4;
    assert b == 4 * q;
    forall j | 0 <= j < n
      ensures Words(m', b, n)[j] == Words(m, b, n)[j]
    {
      assert Get(m', 4 * (q + j)) == Get(m, 4 * (q + j));
    }
  }

  /**
   * Writing only the first n words of the payload of an allocated block r
   * keeps the heap consistent and every other block's words.
   */
  lemma Scribble(m: Mem, m': Mem, head: int, blocks: seq<int>, free: seq<int>, r: int, n: nat)
    requires Consistent(m, head, blocks, free, 0, 0) && r in blocks && r !in free && |m'| == |m|
    requires InHeap(m, r - 4) && 4 * n <= BlockSize(m, r) - OVERHEAD
    requires Same(m, m', 0, r) && Same(m, m', r + 4 * n, End(m))
    ensures Consistent(m', head, blocks, free, 0, 0)
    ensures Keeps(m, blocks, free, m', blocks, free, [r]) && KeepsFree(m, free, m', free, [])
  {
    var i := IndexOf(blocks, r);
    assert BlockOK(m, blocks[i]);
    var v := Get(m, r - 4);
    assert Get(m', Ftrp(m, r)) == v;
    Widen(m, head, blocks, free, i, i + 1);
    Retag(m, m', head, blocks, free, i, i + 1, i, v);
    assert Get(m', r - 4) == v;
    Rejoin(m', head, blocks, free, i);
    KeepsFreeLess(m, free, m', free, [r], []);
  }

  /** An allocated, unlisted block set apart needs no more setting apart. */
  lemma Rejoin(m: Mem, head: int, blocks: seq<int>, free: seq<int>, i: int)
    requires Consistent(m, head, blocks, free, i, i + 1) && blocks[i] !in free && !IsFree(m, blocks[i])
    ensures Consistent(m, head, blocks, free, 0, 0)
  {
    Settle(m, head, blocks, free, i, i + 1);
    NoRange(m, head, blocks, free, i + 1);
  }

  /**
   * The memcpy of mm_realloc: the first n words of the allocated block r
   * become those of the allocated block ptr. Only r's payload is written,
   * so the heap stays consistent and every other block keeps its words.
   */
  method Transfer(m: Mem, head: Word, ghost blocks: seq<int>, ghost free: seq<int>, r: Word, ptr: Word, n: nat)
    returns (m': Mem)
    requires Consistent(m, head, blocks, free, 0, 0)
    requires r in blocks && r !in free && ptr in blocks && ptr !in free && r != ptr
    requires InHeap(m, r - 4) && InHeap(m, ptr - 4)
    requires 4 * n <= BlockSize(m, r) - OVERHEAD && 4 * n <= BlockSize(m, ptr) - OVERHEAD
    ensures |m'| == |m| && Consistent(m', head, blocks, free, 0, 0)
    ensures r % 4 == 0 && ptr % 4 == 0 && r + 4 * n <= End(m) && ptr + 4 * n <= End(m)
    ensures Words(m', r, n) == Words(m, ptr, n) && Get(m', r - 4) == Get(m, r - 4)
    ensures Keeps(m, blocks, free, m', blocks, free, [r]) && KeepsFree(m, free, m', free, [])
  {
    Disjoint(m, blocks, r, ptr);
    WordAligned(r);
    WordAligned(ptr);
    m' := CopyWords(m, r, ptr, n);
    Untouched(m, m', r, n);
    Scribble(m, m', head, blocks, free, r, n);
  }

  /**
   * What mm_realloc promises about the contents: the first words of the new
   * block r, as many as the copy length covers, are those of the old block
   * ptr before the call.
   */
  ghost predicate Copied(m: Mem, ptr: int, m': Mem, r: int, size: Word)
    requires InHeap(m, ptr - 4) && BlockSize(m, ptr) >= OVERHEAD
  {
    var w := WordCount(CopyLength(size, BlockSize(m, ptr)));
    && ptr % 4 == 0 && r % 4 == 0 && 0 <= ptr && 0 <= r && ptr + 4 * w <= End(m) && r + 4 * w <= End(m')
    && Words(m', r, w) == Words(m, ptr, w)
  }

  /** A step that keeps every held block, then one that drops only x, a block that was free or new. */
  lemma KeepsFresh(m0: Mem, blocks0: seq<int>, free0: seq<int>, m1: Mem, blocks1: seq<int>, free1: seq<int>,
                   m2: Mem, blocks2: seq<int>, free2: seq<int>, x: int)
    requires Keeps(m0, blocks0, free0, m1, blocks1, free1, [])
    requires Keeps(m1, blocks1, free1, m2, blocks2, free2, [x]) && (x in blocks0 ==> x in free0)
    ensures Keeps(m0, blocks0, free0, m2, blocks2, free2, [])
  {
    KeepsTrans(m0, blocks0, free0, m1, blocks1, free1, m2, blocks2, free2, [], [x]);
    KeepsLess(m0, blocks0, free0, m2, blocks2, free2, [] + [x], []);
  }

  /**
   * mm_realloc after a successful mm_malloc of r: memcpy the old payload's
   * first CopyLength bytes (in whole words) from ptr to r.
   */
  method CopyOut(ghost m0: Mem, ghost head0: int, ghost blocks0: seq<int>, ghost free0: seq<int>,
                 m: Mem, head: Word, ghost blocks: seq<int>, ghost free: seq<int>, ptr: Word, r: Word, size: Word)
    returns (m': Mem)
    requires Consistent(m0, head0, blocks0, free0, 0, 0) && ptr in blocks0 && ptr !in free0
    requires Consistent(m, head, blocks, free, 0, 0) && Keeps(m0, blocks0, free0, m, blocks, free, [])
    requires 0 < size && r != 0 && Granted(blocks0, free0, m, blocks, free, size, r)
    ensures |m'| == |m| && Consistent(m', head, blocks, free, 0, 0)
    ensures r != ptr && InHeap(m0, ptr - 4) && BlockSize(m0, ptr) >= OVERHEAD && Copied(m0, ptr, m', r, size)
    ensures Granted(blocks0, free0, m', blocks, free, size, r)
    ensures ptr in blocks && ptr !in free
    ensures Keeps(m0, blocks0, free0, m', blocks, free, []) && KeepsFree(m, free, m', free, [])
  {
    assert BlockOK(m0, ptr) && Kept(m0, m, ptr) && ptr in blocks && ptr !in free;
    assert Get(m, ptr - 4) == Get(m0, ptr - 4);
    var n := CopyLength(size, BlockSize(m, ptr));
    WordsFit(n, BlockSize(m, ptr));
    WordsFit(n, BlockSize(m, r));
    var w := WordCount(n);
    KeptWords(m0, m, ptr, w);
    m' := Transfer(m, head, blocks, free, r, ptr, w);
    KeepsFresh(m0, blocks0, free0, m, blocks, free, m', blocks, free, r);
  }

  /** r, held by the program, survives mm_free of ptr: still granted, its words unchanged. */
  lemma StillGranted(blocks0: seq<int>, free0: seq<int>, m0: Mem, ptr: int, size: Word,
                     m: Mem, blocks: seq<int>, free: seq<int>, m': Mem, blocks': seq<int>, free': seq<int>, r: int)
    requires Tagged(m, blocks) && Granted(blocks0, free0, m, blocks, free, size, r) && r != ptr
    requires Keeps(m, blocks, free, m', blocks', free', [ptr])
    requires InHeap(m0, ptr - 4) && BlockSize(m0, ptr) >= OVERHEAD && Copied(m0, ptr, m, r, size)
    ensures Granted(blocks0, free0, m', blocks', free', size, r)
    ensures Copied(m0, ptr, m', r, size)
  {
    assert BlockOK(m, r) && Kept(m, m', r);
    assert Get(m', r - 4) == Get(m, r - 4);
    var n := CopyLength(size, BlockSize(m0, ptr));
    WordsFit(n, BlockSize(m, r));
    KeptWords(m, m', r, WordCount(n));
  }

  /**
   * mm_realloc's main path, ptr held and size > 0: mm_malloc a new block,
   * copy the old payload into it, mm_free the old block.
   */
  method Move(m: Mem, limit: Word, head: Word, ghost blocks: seq<int>, ghost free: seq<int>, ptr: Word, size: Word)
    returns (m': Mem, head': Word, ghost blocks': seq<int>, ghost free': seq<int>, r: Word)
    requires Consistent(m, head, blocks, free, 0, 0) && End(m) <= limit
    requires ptr in blocks && ptr !in free && 0 < size
    ensures End(m') <= limit && Consistent(m', head', blocks', free', 0, 0)
    ensures r == 0 <==> Refused(m, free, limit, size)
    ensures r == 0 ==> m' == m && head' == head && blocks' == blocks && free' == free
    ensures r != 0 ==> r != ptr && Granted(blocks, free, m', blocks', free', size, r)
    ensures r != 0 ==> InHeap(m, ptr - 4) && BlockSize(m, ptr) >= OVERHEAD && Copied(m, ptr, m', r, size)
    ensures r != 0 ==> Covered(m', blocks', free', ptr)
    ensures r != 0 ==> InHeap(m, ptr - 8) && KeepsFree(m, free, m', free', [r, PrevBlkp(m, ptr), NextBlkp(m, ptr)])
    ensures Keeps(m, blocks, free, m', blocks', free', [ptr])
  {
    var m1, head1, blocks1, free1, r1 := Allocate(m, limit, head, blocks, free, size);
    if r1 == 0 {
      KeepsLess(m, blocks, free, m1, blocks1, free1, [], [ptr]);
      m', head', blocks', free', r := m1, head1, blocks1, free1, 0;
      return;
    }
    var m2 := CopyOut(m, head, blocks, free, m1, head1, blocks1, free1, ptr, r1, size);
    ghost var t := IndexOf(blocks1, ptr);
    m', head', blocks', free' := Release(m2, head1, blocks1, free1, ptr, t);
    StillGranted(blocks, free, m, ptr, size, m2, blocks1, free1, m', blocks', free', r1);
    FreedCovers(m2, blocks1, free1, t, m', blocks', free');
    KeepsThen(m, blocks, free, m2, blocks1, free1, m', blocks', free', [ptr]);
    MoveFrame(m, blocks, free, m1, blocks1, free1, m2, m', free', ptr, r1, t);
    r := r1;
  }

  /**
   * A listed block that sits beside ptr in a later heap, where both kept
   * their headers, sat beside ptr before: it is PREV_BLKP(ptr) or
   * NEXT_BLKP(ptr).
   */
  lemma Flank(m: Mem, blocks: seq<int>, free: seq<int>, m1: Mem, blocks1: seq<int>, free1: seq<int>,
              ptr: int, r: int, t: int, k: int)
    requires Tagged(m, blocks) && Listed(m, blocks, free, 0, 0) && ptr in blocks && ptr !in free
    requires Tagged(m1, blocks1) && 0 <= t < |blocks1| && blocks1[t] == ptr
    requires t - 1 <= k <= t + 1 && 0 <= k < |blocks1| && blocks1[k] in free && blocks1[k] != r
    requires InHeap(m, ptr - 4) && InHeap(m1, ptr - 4) && Get(m1, ptr - 4) == Get(m, ptr - 4)
    requires KeepsFree(m, free, m1, free1, [r])
    ensures InHeap(m, ptr - 8) && (blocks1[k] == PrevBlkp(m, ptr) || blocks1[k] == NextBlkp(m, ptr))
  {
    var i := IndexOf(blocks, ptr);
    PrevAllocBit(m, blocks, i);
    var g := blocks1[k];
    assert InHeap(m, g - 4) && Get(m1, g - 4) == Get(m, g - 4);
    if k == t - 1 {
      assert NextBlkp(m1, blocks1[t - 1]) == blocks1[t];
      var j := IndexOf(blocks, g);
      Predecessor(m, blocks, i, j);
    } else if k == t + 1 {
      assert NextBlkp(m1, blocks1[t]) == blocks1[t + 1];
    }
  }

  /**
   * Over mm_realloc's main path every listed block other than the new
   * block r and the two neighbours of ptr stays listed with its header:
   * mm_malloc took only r, and mm_free merged ptr only with a free
   * neighbour.
   */
  lemma MoveFrame(m: Mem, blocks: seq<int>, free: seq<int>, m1: Mem, blocks1: seq<int>, free1: seq<int>,
                  m2: Mem, m': Mem, free': seq<int>, ptr: int, r: int, t: int)
    requires Tagged(m, blocks) && Listed(m, blocks, free, 0, 0) && ptr in blocks && ptr !in free
    requires Tagged(m1, blocks1) && 0 <= t < |blocks1| && blocks1[t] == ptr
    requires Keeps(m, blocks, free, m1, blocks1, free1, []) && KeepsFree(m, free, m1, free1, [r])
    requires KeepsFree(m1, free1, m2, free1, []) && Tagged(m2, blocks1)
    requires KeepsFree(m2, free1, m', free', blocks1[RunLo(m2, blocks1, t)..RunHi(m2, blocks1, t)])
    ensures InHeap(m, ptr - 8) && KeepsFree(m, free, m', free', [r, PrevBlkp(m, ptr), NextBlkp(m, ptr)])
  {
    var lo, hi := RunLo(m2, blocks1, t), RunHi(m2, blocks1, t);
    KeepsFreeTrans(m, free, m1, free1, m2, free1, [r], []);
    KeepsFreeTrans(m, free, m2, free1, m', free', [r] + [], blocks1[lo..hi]);
    assert BlockOK(m, ptr) && Kept(m, m1, ptr);
    Flanks(m, blocks, free, m1, blocks1, free1, ptr, r, t, lo, hi);
    KeepsFreeLess(m, free, m', free', ([r] + []) + blocks1[lo..hi], [r, PrevBlkp(m, ptr), NextBlkp(m, ptr)]);
  }

  /** Flank for every listed block of a run around ptr. */
  lemma Flanks(m: Mem, blocks: seq<int>, free: seq<int>, m1: Mem, blocks1: seq<int>, free1: seq<int>,
               ptr: int, r: int, t: int, lo: int, hi: int)
    requires Tagged(m, blocks) && Listed(m, blocks, free, 0, 0) && ptr in blocks && ptr !in free
    requires Tagged(m1, blocks1) && 0 <= t < |blocks1| && blocks1[t] == ptr
    requires t - 1 <= lo <= t && t + 1 <= hi <= t + 2 && 0 <= lo && hi <= |blocks1|
    requires InHeap(m, ptr - 4) && InHeap(m1, ptr - 4) && Get(m1, ptr - 4) == Get(m, ptr - 4)
    requires KeepsFree(m, free, m1, free1, [r])
    ensures InHeap(m, ptr - 8)
    ensures forall g :: g in ([r] + []) + blocks1[lo..hi] && g in free ==> g in [r, PrevBlkp(m, ptr), NextBlkp(m, ptr)]
  {
    var i := IndexOf(blocks, ptr);
    PrevAllocBit(m, blocks, i);
    forall g | g in ([r] + []) + blocks1[lo..hi] && g in free
      ensures g in [r, PrevBlkp(m, ptr), NextBlkp(m, ptr)]
    {
      if g != r {
        var q := IndexOf(blocks1[lo..hi], g);
        Flank(m, blocks, free, m1, blocks1, free1, ptr, r, t, lo + q);
      }
    }
  }

  /**
   * mm_realloc. A NULL ptr with a nonzero size is mm_malloc; size 0 frees
   * ptr and hands the same, now free, address back (NULL for a NULL ptr);
   * otherwise Move.
   */
  method Resize(m: Mem, limit: Word, head: Word, ghost blocks: seq<int>, ghost free: seq<int>, ptr: Word, size: Word)
    returns (m': Mem, head': Word, ghost blocks': seq<int>, ghost free': seq<int>, r: Word)
    requires Consistent(m, head, blocks, free, 0, 0) && End(m) <= limit
    requires ptr == 0 || (ptr in blocks && ptr !in free)
    ensures End(m') <= limit && Consistent(m', head', blocks', free', 0, 0)
    ensures ptr == 0 || size != 0 ==> (r == 0 <==> Refused(m, free, limit, size))
    ensures (ptr == 0 || size != 0) && r == 0 ==> m' == m && head' == head && blocks' == blocks && free' == free
    ensures r != 0 && size != 0 ==> r != ptr && Granted(blocks, free, m', blocks', free', size, r)
    ensures ptr != 0 && size == 0 ==> r == ptr && Covered(m', blocks', free', ptr)
    ensures ptr != 0 && size != 0 && r != 0 ==>
      && InHeap(m, ptr - 4) && BlockSize(m, ptr) >= OVERHEAD && Copied(m, ptr, m', r, size)
      && Covered(m', blocks', free', ptr)
    ensures ptr == 0 && r != 0 ==> KeepsFree(m, free, m', free', [r])
    ensures ptr != 0 && size == 0 ==> FreedAt(m, blocks, free, ptr, m', blocks', free')
    ensures ptr != 0 && size != 0 && r != 0 ==>
      InHeap(m, ptr - 8) && KeepsFree(m, free, m', free', [r, PrevBlkp(m, ptr), NextBlkp(m, ptr)])
    ensures Keeps(m, blocks, free, m', blocks', free', if ptr == 0 then [] else [ptr])
  {
    if ptr == 0 && size != 0 {
      m', head', blocks', free', r := Allocate(m, limit, head, blocks, free, size);
      return;
    }
    if size == 0 {
      if ptr == 0 {
        m', head', blocks', free', r := m, head, blocks, free, 0;
        return;
      }
      m', head', blocks', free' := Dispose(m, head, blocks, free, ptr);
      r := ptr;
      return;
    }
    m', head', blocks', free', r := Move(m, limit, head, blocks, free, ptr, size);
  }

  /**
   * The allocator's globals: the simulated heap, the free-list head
   * (head_FreeList) and heap_start_ptr. The block and free-list
   * sequences are the ghost view that Consistent ties to the words.
   */
  class Allocator {
    var mem: Mem
    var head: Word
    var heapStart: int
    const limit: Word
    ghost var blocks: seq<int>
    ghost var free: seq<int>

    /** After a successful mm_init: the heap is laid out and the free list agrees with it. */
    ghost predicate Valid()
      reads this
    {
      heapStart == PROLOGUE && End(mem) <= limit && Consistent(mem, head, blocks, free, 0, 0)
    }

    /** Before mm_init: no heap, heap_start_ptr 0. */
    constructor (limit: Word)
      ensures this.limit == limit && mem == [] && head == 0 && heapStart == 0
    {
      this.limit := limit;
      mem, head, heapStart := [], 0, 0;
      blocks, free := [], [];
    }

    /** mm_init on a fresh heap. */
    method Init() returns (r: int)
      requires mem == []
      modifies this
      ensures limit < FIRST ==> r == -1 && heapStart == -1 && mem == []
      ensures FIRST <= limit ==> Valid()
      ensures r == 0 <==> FIRST + INIT_GROWTH <= limit
      ensures FIRST <= limit < FIRST + INIT_GROWTH ==> blocks == [] && End(mem) == FIRST
      ensures r == 0 ==>
        && blocks == [FIRST] && Sole(free, FIRST) && IsFree(mem, FIRST)
        && End(mem) == FIRST + INIT_GROWTH && BlockSize(mem, FIRST) == INIT_GROWTH
    {
      mem, head, blocks, free, heapStart, r := Setup(mem, limit);
    }

    /** mm_malloc. */
    method Malloc(size: Word) returns (bp: Word)
      requires Valid()
      modifies this
      ensures Valid()
      ensures bp == 0 <==> Refused(old(mem), old(free), limit, size)
      ensures bp == 0 ==> mem == old(mem) && head == old(head) && blocks == old(blocks) && free == old(free)
      ensures bp != 0 ==> Granted(old(blocks), old(free), mem, blocks, free, size, bp)
      ensures bp != 0 && FirstFit(old(mem), old(free), AdjustedSizeAsWritten(size)) != 0 ==>
        bp == FirstFit(old(mem), old(free), AdjustedSizeAsWritten(size))
      ensures bp != 0 && FirstFit(old(mem), old(free), AdjustedSizeAsWritten(size)) == 0 ==>
        bp == LastFreeOrEnd(old(mem), old(blocks)) && End(mem) == End(old(mem)) + Growth(AdjustedSizeAsWritten(size))
      ensures Keeps(old(mem), old(blocks), old(free), mem, blocks, free, [])
      ensures bp != 0 ==> KeepsFree(old(mem), old(free), mem, free, [bp])
    {
      mem, head, blocks, free, bp := Allocate(mem, limit, head, blocks, free, size);
    }

    /** mm_free of a block the program holds. */
    method Free(ptr: Word)
      requires Valid() && ptr in blocks && ptr !in free
      modifies this
      ensures Valid() && Covered(mem, blocks, free, ptr)
      ensures FreedAt(old(mem), old(blocks), old(free), ptr, mem, blocks, free)
      ensures Keeps(old(mem), old(blocks), old(free), mem, blocks, free, [ptr])
    {
      mem, head, blocks, free := Dispose(mem, head, blocks, free, ptr);
    }

    /** mm_realloc. */
    method Realloc(ptr: Word, size: Word) returns (r: Word)
      requires Valid() && (ptr == 0 || (ptr in blocks && ptr !in free))
      modifies this
      ensures Valid()
      ensures ptr == 0 || size != 0 ==> (r == 0 <==> Refused(old(mem), old(free), limit, size))
      ensures (ptr == 0 || size != 0) && r == 0 ==>
        mem == old(mem) && head == old(head) && blocks == old(blocks) && free == old(free)
      ensures r != 0 && size != 0 ==> r != ptr && Granted(old(blocks), old(free), mem, blocks, free, size, r)
      ensures ptr != 0 && size == 0 ==> r == ptr && Covered(mem, blocks, free, ptr)
      ensures ptr != 0 && size != 0 && r != 0 ==>
        && InHeap(old(mem), ptr - 4) && BlockSize(old(mem), ptr) >= OVERHEAD && Copied(old(mem), ptr, mem, r, size)
        && Covered(mem, blocks, free, ptr)
      ensures ptr == 0 && r != 0 ==> KeepsFree(old(mem), old(free), mem, free, [r])
      ensures ptr != 0 && size == 0 ==> FreedAt(old(mem), old(blocks), old(free), ptr, mem, blocks, free)
      ensures ptr != 0 && size != 0 && r != 0 ==>
        InHeap(old(mem), ptr - 8)
        && KeepsFree(old(mem), old(free), mem, free, [r, PrevBlkp(old(mem), ptr), NextBlkp(old(mem), ptr)])
      ensures Keeps(old(mem), old(blocks), old(free), mem, blocks, free, if ptr == 0 then [] else [ptr])
    {
      mem, head, blocks, free, r := Resize(mem, limit, head, blocks, free, ptr, size);
    }
  }
}
