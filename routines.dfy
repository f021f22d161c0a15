/**
 * The static routines of the allocator: mem_sbrk, findOpenSpot,
 * removeBlock, addBlock, coalesce, extend_heap and placeBlock.
 *
 * Each routine takes the heap words and the list head as values and returns
 * their new values, together with the ghost description of the heap before
 * and after (`blocks`, the regular blocks in address order, and `free`, the
 * explicit free list in list order).  The allocator class in module MM
 * threads its fields through these routines.  The steps of coalesce and
 * placeBlock are methods of their own, each ending at one of the checkpoint
 * predicates of module Heap.
 */
module Routines {
  import opened Codec
  import opened Layout
  import opened FreeList
  import opened Heap

  /**
   * mem_sbrk: grow the region by incr bytes and return the old break, or
   * fail with -1 and leave the region as it is when the capacity would be
   * passed.  The new words' contents are unspecified; here they are zero.
   */
  method MemSbrk(m: Mem, limit: int, incr: Word) returns (m': Mem, p: int)
    requires incr % 4 == 0
    ensures End(m) + incr > limit ==> p == -1 && m' == m
    ensures End(m) + incr <= limit ==>
      p == End(m) && End(m') == End(m) + incr && Same(m, m', 0, End(m))
  {
    if End(m) + incr > limit {
      m', p := m, -1;
    } else {
      m', p := m + seq(incr / 4, _ => 0), End(m);
    }
  }

  // ---------------------------------------------------------------------
  // The explicit free list.

  /**
   * findOpenSpot: walk the list from head along the next links and return
   * the first block whose size is at least asize, or NULL.
   */
  method FindOpenSpot(m: Mem, head: Word, ghost free: seq<int>, asize: Word) returns (bp: Word)
    requires Linked(m, head, free)
    ensures bp == FirstFit(m, free, asize)
  {
    bp := head;
    ghost var k := 0;
    while bp != 0
      invariant 0 <= k <= |free| && bp == SlotNext(free, k)
      invariant FirstFit(m, free[k..], asize) == FirstFit(m, free, asize)
      decreases |free| - k
    {
      if asize <= BlockSize(m, bp) {
        assert FirstFitIndex(m, free[k..], asize) == 0;
        return;
      }
      Links(m, head, free, k);
      FirstFitStep(m, free, asize, k);
      bp := NextFree(m, bp);
      k := k + 1;
    }
    assert free[k..] == [];
  }

  /**
   * removeBlock: unlink bp; its predecessor's next link and its successor's
   * prev link now name each other, and head moves on when bp was first.
   * Only the link words of those two neighbours change.
   */
  method RemoveBlock(m: Mem, head: Word, ghost free: seq<int>, bp: Word)
    returns (m': Mem, head': Word, ghost free': seq<int>)
    requires Linked(m, head, free) && bp in free
    ensures free' == Remove(free, bp)
    ensures Linked(m', head', free')
    ensures LinksOnly(m, m', PrevFree(m, bp), NextFree(m, bp), 0)
    ensures PrevFree(m, bp) == 0 || PrevFree(m, bp) in free
    ensures NextFree(m, bp) == 0 || NextFree(m, bp) in free
  {
    ghost var k := IndexOf(free, bp);
    Links(m, head, free, k);
    m', head' := m, head;
    var next := NextFree(m', bp);
    var prev := PrevFree(m', bp);
    if prev != 0 {
      assert IsNode(m, free[k - 1]);
      WordAligned(prev);
    }
    if next != 0 {
      assert IsNode(m, free[k + 1]);
      WordAligned(next);
    }
    if prev == 0 {
      head' := next;
    } else {
      m' := Put(m', prev + 4, next);
    }
    if next != 0 {
      m' := Put(m', next, prev);
    }
    Unlink(m, m', head, head', free, k, prev, next);
    forall i | 0 <= i < k
      ensures free[i] != free[k]
    {
      ApartAt(free, i, k);
    }
    RemoveAt(free, k);
    free' := Remove(free, bp);
  }

  /**
   * addBlock: walk from head past the blocks above bp, then link bp in
   * between the last block passed and that block's predecessor (at the head
   * when no block was passed).  Only bp's links and the two neighbours'
   * facing links change.
   */
  method AddBlock(m: Mem, head: Word, ghost free: seq<int>, bp: Word)
    returns (m': Mem, head': Word, ghost free': seq<int>)
    requires Linked(m, head, free) && IsNode(m, bp)
    requires forall i :: 0 <= i < |free| ==> Apart(bp, free[i])
    ensures free' == InsertAt(free, InsertPos(free, bp), bp)
    ensures Linked(m', head', free')
    ensures LinksOnly(m, m', bp, SlotPrev(free, InsertPos(free, bp)), SlotNext(free, InsertPos(free, bp)))
  {
    var current := head;
    var temp := current;
    var prev: Word := 0;
    ghost var k := 0;
    while current != 0 && bp < current
      invariant 0 <= k <= |free| && current == SlotNext(free, k)
      invariant forall j :: 0 <= j < k ==> free[j] > bp
      invariant k == 0 ==> prev == 0 && temp == head
      invariant k > 0 ==> prev == SlotPrev(free, k - 1) && temp == free[k - 1]
      decreases |free| - k
    {
      Links(m, head, free, k);
      prev := PrevFree(m, current);
      temp := current;
      current := NextFree(m, current);
      k := k + 1;
    }
    ghost var p := InsertPos(free, bp);
    assert k == LeadingAbove(free, bp);
    assert prev == SlotPrev(free, p) && temp == SlotNext(free, p);
    LinkIn(m, head, free, p, bp, prev, temp);
    m', head' := LinkWords(m, head, bp, prev, temp);
    free' := InsertAt(free, p, bp);
  }

  /** The four link writes of addBlock, linking bp between prev and temp. */
  method LinkWords(m: Mem, head: Word, bp: Word, prev: Word, temp: Word) returns (m': Mem, head': Word)
    requires IsNode(m, bp) && (prev != 0 ==> IsNode(m, prev)) && (temp != 0 ==> IsNode(m, temp))
    ensures m' == InsertWrites(m, bp, prev, temp) && head' == if prev == 0 then bp else head
  {
    WordAligned(bp);
    WordsAligned(prev, temp);
    m' := Put(m, bp, prev);
    m' := Put(m', bp + 4, temp);
    if prev != 0 {
      m' := Put(m', prev + 4, bp);
      head' := head;
    } else {
      head' := bp;
    }
    if temp != 0 {
      m' := Put(m', temp, bp);
    }
  }

  // ---------------------------------------------------------------------
  // Heap steps.

  /** PUT(HDRP(bp), PACK(size, alloc)); PUT(FTRP(bp), PACK(size, alloc)) */
  method SetTags(m: Mem, bp: Word, size: Word, alloc: Word) returns (m': Mem)
    requires bp % 8 == 0 && size % 8 == 0 && FIRST <= bp && 16 <= size && bp + size <= End(m) && alloc <= 1
    ensures Retagged(m, m', bp, size, Pack(size, alloc))
  {
    Unpack(size, alloc);
    HeaderFooter(m, bp, size, Pack(size, alloc));
    m' := Put(m, Hdrp(bp), Pack(size, alloc));
    m' := Put(m', Ftrp(m', bp), Pack(size, alloc));
  }

  /** removeBlock on the listed block blocks[t], as a step of coalesce or placeBlock. */
  method Unlist(m: Mem, head: Word, ghost blocks: seq<int>, ghost free: seq<int>, ghost lo: int, ghost hi: int,
                bp: Word, ghost t: int, ghost lo': int, ghost hi': int)
    returns (m': Mem, head': Word, ghost free': seq<int>)
    requires Consistent(m, head, blocks, free, lo, hi)
    requires 0 <= lo' <= lo && hi <= hi' <= |blocks| && lo' <= t < hi' && blocks[t] == bp && bp in free
    ensures |m'| == |m| && free' == Remove(free, bp)
    ensures Consistent(m', head', blocks, free', lo', hi')
    ensures SameTags(m, m', blocks)
    ensures Keeps(m, blocks, free, m', blocks, free', [])
    ensures forall b :: b in free' <==> b in free && b != bp
  {
    ghost var x, y := PrevFree(m, bp), NextFree(m, bp);
    m', head', free' := RemoveBlock(m, head, free, bp);
    AfterRemove(m, m', head, head', blocks, free, lo, hi, t, lo', hi', x, y);
  }

  /** addBlock on the free block blocks[t], set apart from the list: the heap is consistent again. */
  method ListBlock(m: Mem, head: Word, ghost blocks: seq<int>, ghost free: seq<int>, bp: Word, ghost t: int)
    returns (m': Mem, head': Word, ghost free': seq<int>)
    requires Run(m, head, blocks, free, t, t + 1) && blocks[t] == bp && IsFree(m, blocks[t])
    ensures |m'| == |m| && Consistent(m', head', blocks, free', 0, 0) && bp in free'
    ensures InHeap(m', bp - 4) && IsFree(m', bp) && BlockSize(m', bp) == BlockSize(m, bp)
    ensures Keeps(m, blocks, free, m', blocks, free', [bp])
    ensures forall b :: b in free' <==> b in free || b == bp
    ensures KeepsFree(m, free, m', free', [])
  {
    ApartFromList(m, blocks, free, t, t + 1, t);
    ghost var p := InsertPos(free, bp);
    ghost var x, y := SlotPrev(free, p), SlotNext(free, p);
    assert x == 0 || x == free[p - 1];
    assert y == 0 || y == free[p];
    m', head', free' := AddBlock(m, head, free, bp);
    AfterAdd(m, m', head, head', blocks, free, t, p, x, y);
    InsertIn(free, p, bp);
    TagKept(m, m', blocks, t);
    TagsKeepFree(m, m', blocks, free, free', []);
  }

  // ---------------------------------------------------------------------
  // coalesce, case by case.

  /** The two tag writes HDRP then FTRP that turn the run blocks[lo..hi] into one free block. */
  method FuseRun(m: Mem, head: Word, ghost blocks: seq<int>, ghost free: seq<int>, ghost lo: int, ghost hi: int,
                 bp: Word, size: Word)
    returns (m': Mem, ghost nb: seq<int>)
    requires Run(m, head, blocks, free, lo, hi) && blocks[lo] == bp
    requires size % 8 == 0 && blocks[lo] + size == NextBlkp(m, blocks[hi - 1])
    ensures |m'| == |m| && nb == blocks[..lo] + [bp] + blocks[hi..] && nb[lo] == bp
    ensures Run(m', head, nb, free, lo, lo + 1) && IsFree(m', nb[lo]) && BlockSize(m', nb[lo]) == size
    ensures Keeps(m, blocks, free, m', nb, free, blocks[lo..hi]) && KeepsFree(m, free, m', free, [])
  {
    RunSpan(m, blocks, lo, hi);
    m' := SetTags(m, bp, size, 0);
    nb := blocks[..lo] + [bp] + blocks[hi..];
    Fused(m, m', head, blocks, free, lo, hi, size, nb);
  }

  /**
   * coalesce, case 2, first half: removeBlock(NEXT_BLKP(bp)) and
   * size += GET_SIZE(HDRP(NEXT_BLKP(bp))); the two blocks now form a run
   * whose size is the sum.
   */
  method UnlistNext(m: Mem, head: Word, ghost blocks: seq<int>, ghost free: seq<int>, bp: Word, size0: Word,
                    ghost t: int)
    returns (m1: Mem, h1: Word, ghost f1: seq<int>, size: Word)
    requires Pending(m, head, blocks, free, t) && blocks[t] == bp && size0 == BlockSize(m, blocks[t])
    requires t + 1 < |blocks| && IsFree(m, blocks[t + 1])
    requires t == 0 || !IsFree(m, blocks[t - 1])
    ensures |m1| == |m| && Run(m1, h1, blocks, f1, t, t + 2)
    ensures size % 8 == 0 && blocks[t] + size == NextBlkp(m1, blocks[t + 1])
    ensures NextBlkp(m1, blocks[t + 1]) == NextBlkp(m, blocks[t + 1])
    ensures Keeps(m, blocks, free, m1, blocks, f1, []) && blocks[t + 1] in free
    ensures (forall b :: b in f1 <==> b in free && b != blocks[t + 1]) && KeepsFree(m, free, m1, f1, [blocks[t + 1]])
  {
    NextAllocBit(m, blocks, t);
    FreeListed(m, head, blocks, free, t, t + 1, t + 1);
    size := size0;
    m1, h1, f1 := Unlist(m, head, blocks, free, t, t + 1, NextBlkp(m, bp), t + 1, t, t + 2);
    NextRun(m, m1, head, h1, blocks, free, f1, t);
    TagsKeepFree(m, m1, blocks, free, f1, [blocks[t + 1]]);
    Absorb(m, m1, blocks, t, bp, size0);
    TagKept(m, m1, blocks, t + 1);
    size := size + BlockSize(m1, NextBlkp(m1, bp));
    SumGrid(size, size0, BlockSize(m1, NextBlkp(m1, bp)));
  }

  /** coalesce, case 2: the next block is free and absorbed into bp. */
  method MergeNext(m: Mem, head: Word, ghost blocks: seq<int>, ghost free: seq<int>, bp: Word, size0: Word,
                   ghost t: int)
    returns (m': Mem, head': Word, ghost blocks': seq<int>, ghost free': seq<int>)
    requires Pending(m, head, blocks, free, t) && blocks[t] == bp && size0 == BlockSize(m, blocks[t])
    requires t + 1 < |blocks| && IsFree(m, blocks[t + 1])
    requires t == 0 || !IsFree(m, blocks[t - 1])
    ensures MergedRun(m, blocks, free, t, m', head', blocks', free', bp, t)
  {
    var m1, size;
    m1, head', free', size := UnlistNext(m, head, blocks, free, bp, size0, t);
    assert blocks[t + 2 - 1] == blocks[t + 1];
    m', blocks' := FuseRun(m1, head', blocks, free', t, t + 2, bp, size);
    NextMerged(m, head, blocks, free, t, m1, head', free', size, m', blocks');
  }

  /** What MergeNext's two steps leave, gathered into MergedRun. */
  lemma NextMerged(m: Mem, head: int, blocks: seq<int>, free: seq<int>, t: int,
                   m1: Mem, h1: int, f1: seq<int>, size: int, m': Mem, nb: seq<int>)
    requires Tagged(m, blocks) && 0 <= t < |blocks| && blocks[t] !in free
    requires t + 1 < |blocks| && IsFree(m, blocks[t + 1])
    requires t == 0 || !IsFree(m, blocks[t - 1])
    requires |m1| == |m| && Run(m1, h1, blocks, f1, t, t + 2)
    requires blocks[t] + size == NextBlkp(m1, blocks[t + 1])
    requires NextBlkp(m1, blocks[t + 1]) == NextBlkp(m, blocks[t + 1])
    requires Keeps(m, blocks, free, m1, blocks, f1, []) && blocks[t + 1] in free
    requires (forall b :: b in f1 <==> b in free && b != blocks[t + 1]) && KeepsFree(m, free, m1, f1, [blocks[t + 1]])
    requires |m'| == |m1| && nb == blocks[..t] + [blocks[t]] + blocks[t + 2..] && nb[t] == blocks[t]
    requires Run(m', h1, nb, f1, t, t + 1) && IsFree(m', nb[t]) && BlockSize(m', nb[t]) == size
    requires Keeps(m1, blocks, f1, m', nb, f1, blocks[t..t + 2]) && KeepsFree(m1, f1, m', f1, [])
    ensures MergedRun(m, blocks, free, t, m', h1, nb, f1, blocks[t], t)
  {
    KeepsRun(m, blocks, free, m1, f1, m', nb, f1, t, t + 2, t);
    NextFrame(m, blocks, free, t, m1, f1, m', nb);
  }

  /**
   * coalesce, case 3, first half: removeBlock(PREV_BLKP(bp)) and
   * size += GET_SIZE(HDRP(PREV_BLKP(bp))); the two blocks now form a run
   * whose size is the sum and whose last word is bp's footer.
   */
  method UnlistPrev(m: Mem, head: Word, ghost blocks: seq<int>, ghost free: seq<int>, bp: Word, size0: Word,
                    ghost t: int)
    returns (m1: Mem, h1: Word, ghost f1: seq<int>, size: Word)
    requires Pending(m, head, blocks, free, t) && blocks[t] == bp && size0 == BlockSize(m, blocks[t])
    requires 0 < t && IsFree(m, blocks[t - 1])
    requires t + 1 == |blocks| || !IsFree(m, blocks[t + 1])
    ensures |m1| == |m| && Run(m1, h1, blocks, f1, t - 1, t + 1)
    ensures size % 8 == 0 && InHeap(m1, bp - 8) && PrevBlkp(m1, bp) == blocks[t - 1]
    ensures blocks[t - 1] + 16 <= bp && bp + 16 <= blocks[t - 1] + size
    ensures InHeap(m1, bp - 4) && Ftrp(m1, bp) == blocks[t - 1] + size - 8
    ensures blocks[t - 1] + size == NextBlkp(m1, bp) == NextBlkp(m, bp)
    ensures Keeps(m, blocks, free, m1, blocks, f1, []) && blocks[t - 1] in free
    ensures (forall b :: b in f1 <==> b in free && b != blocks[t - 1]) && KeepsFree(m, free, m1, f1, [blocks[t - 1]])
  {
    PrevAllocBit(m, blocks, t);
    FreeListed(m, head, blocks, free, t, t + 1, t - 1);
    size := size0;
    m1, h1, f1 := Unlist(m, head, blocks, free, t, t + 1, PrevBlkp(m, bp), t - 1, t - 1, t + 1);
    PrevRun(m, m1, head, h1, blocks, free, f1, t);
    TagsKeepFree(m, m1, blocks, free, f1, [blocks[t - 1]]);
    AbsorbPrev(m, m1, blocks, t, bp, size0);
    TagKept(m, m1, blocks, t);
    size := size + BlockSize(m1, PrevBlkp(m1, bp));
    SumGrid(size, size0, BlockSize(m1, PrevBlkp(m1, bp)));
  }

  /**
   * coalesce, case 3, second half: PUT(FTRP(bp), ...), then
   * PUT(HDRP(PREV_BLKP(bp)), ...); bp becomes PREV_BLKP(bp), the start of
   * one free block over the run.
   */
  method FusePrev(m: Mem, head: Word, ghost blocks: seq<int>, ghost free: seq<int>, bp: Word, size: Word, ghost t: int)
    returns (m': Mem, ghost nb: seq<int>, r: Word)
    requires Run(m, head, blocks, free, t - 1, t + 1) && blocks[t] == bp
    requires size % 8 == 0 && InHeap(m, bp - 8) && PrevBlkp(m, bp) == blocks[t - 1]
    requires blocks[t - 1] + 16 <= bp && bp + 16 <= blocks[t - 1] + size
    requires InHeap(m, bp - 4) && Ftrp(m, bp) == blocks[t - 1] + size - 8
    requires blocks[t - 1] + size == NextBlkp(m, bp)
    ensures |m'| == |m| && nb == blocks[..t - 1] + [blocks[t - 1]] + blocks[t + 1..] && r == blocks[t - 1]
    ensures Run(m', head, nb, free, t - 1, t) && nb[t - 1] == r && IsFree(m', nb[t - 1])
    ensures BlockSize(m', nb[t - 1]) == size && NextBlkp(m', nb[t - 1]) == NextBlkp(m, bp)
    ensures Keeps(m, blocks, free, m', nb, free, blocks[t - 1..t + 1]) && KeepsFree(m, free, m', free, [])
  {
    RunSpan(m, blocks, t - 1, t + 1);
    ghost var a := blocks[t - 1];
    m', r := TagsBelow(m, bp, size, a);
    nb := blocks[..t - 1] + [a] + blocks[t + 1..];
    Fused(m, m', head, blocks, free, t - 1, t + 1, size, nb);
  }

  /**
   * PUT(FTRP(bp), PACK(size, 0)); PUT(HDRP(PREV_BLKP(bp)), PACK(size, 0));
   * bp = PREV_BLKP(bp): the tags of one free block from the predecessor a
   * to the end of bp.
   */
  method TagsBelow(m: Mem, bp: Word, size: Word, ghost a: int) returns (m': Mem, r: Word)
    requires a % 8 == 0 && size % 8 == 0 && FIRST <= a && 16 <= size && a + size <= End(m)
    requires a + 16 <= bp && bp + 16 <= a + size
    requires InHeap(m, bp - 8) && PrevBlkp(m, bp) == a
    requires InHeap(m, bp - 4) && Ftrp(m, bp) == a + size - 8
    ensures r == a && Retagged(m, m', a, size, Pack(size, 0))
  {
    FooterFirst(m, a, bp, size, Pack(size, 0));
    m' := Put(m, Ftrp(m, bp), Pack(size, 0));
    m' := Put(m', Hdrp(PrevBlkp(m', bp)), Pack(size, 0));
    r := PrevBlkp(m', bp);
  }

  /** coalesce, case 3: the previous block is free and absorbs bp. */
  method MergePrev(m: Mem, head: Word, ghost blocks: seq<int>, ghost free: seq<int>, bp: Word, size0: Word,
                   ghost t: int)
    returns (m': Mem, head': Word, ghost blocks': seq<int>, ghost free': seq<int>, r: Word)
    requires Pending(m, head, blocks, free, t) && blocks[t] == bp && size0 == BlockSize(m, blocks[t])
    requires 0 < t && IsFree(m, blocks[t - 1])
    requires t + 1 == |blocks| || !IsFree(m, blocks[t + 1])
    ensures MergedRun(m, blocks, free, t, m', head', blocks', free', r, t - 1)
  {
    var m1, size;
    m1, head', free', size := UnlistPrev(m, head, blocks, free, bp, size0, t);
    m', blocks', r := FusePrev(m1, head', blocks, free', bp, size, t);
    PrevMerged(m, head, blocks, free, t, m1, head', free', m', blocks', r);
  }

  /** What MergePrev's two steps leave, gathered into MergedRun. */
  lemma PrevMerged(m: Mem, head: int, blocks: seq<int>, free: seq<int>, t: int,
                   m1: Mem, h1: int, f1: seq<int>, m': Mem, nb: seq<int>, r: int)
    requires Tagged(m, blocks) && 0 <= t < |blocks| && blocks[t] !in free
    requires 0 < t && IsFree(m, blocks[t - 1])
    requires t + 1 == |blocks| || !IsFree(m, blocks[t + 1])
    requires |m1| == |m| && Run(m1, h1, blocks, f1, t - 1, t + 1)
    requires Keeps(m, blocks, free, m1, blocks, f1, []) && blocks[t - 1] in free
    requires (forall b :: b in f1 <==> b in free && b != blocks[t - 1]) && KeepsFree(m, free, m1, f1, [blocks[t - 1]])
    requires |m'| == |m1| && nb == blocks[..t - 1] + [blocks[t - 1]] + blocks[t + 1..] && r == blocks[t - 1]
    requires Run(m', h1, nb, f1, t - 1, t) && nb[t - 1] == r && IsFree(m', nb[t - 1])
    requires NextBlkp(m', nb[t - 1]) == NextBlkp(m, blocks[t])
    requires Keeps(m1, blocks, f1, m', nb, f1, blocks[t - 1..t + 1]) && KeepsFree(m1, f1, m', f1, [])
    ensures MergedRun(m, blocks, free, t, m', h1, nb, f1, r, t - 1)
  {
    KeepsRun(m, blocks, free, m1, f1, m', nb, f1, t - 1, t + 1, t);
    PrevFrame(m, blocks, free, t, m1, f1, m', nb);
  }

  /**
   * coalesce, case 4, first half: removeBlock(PREV_BLKP(bp)) and
   * removeBlock(NEXT_BLKP(bp)); the three blocks now form a run.
   */
  method UnlistBoth(m: Mem, head: Word, ghost blocks: seq<int>, ghost free: seq<int>, bp: Word, ghost t: int)
    returns (m2: Mem, h2: Word, ghost f2: seq<int>)
    requires Pending(m, head, blocks, free, t) && blocks[t] == bp
    requires 0 < t && t + 1 < |blocks| && IsFree(m, blocks[t - 1]) && IsFree(m, blocks[t + 1])
    ensures |m2| == |m| && Run(m2, h2, blocks, f2, t - 1, t + 2) && SameTags(m, m2, blocks)
    ensures Keeps(m, blocks, free, m2, blocks, f2, []) && blocks[t - 1] in free && blocks[t + 1] in free
    ensures forall b :: b in f2 <==> b in free && b != blocks[t - 1] && b != blocks[t + 1]
    ensures KeepsFree(m, free, m2, f2, [blocks[t - 1], blocks[t + 1]])
  {
    PrevAllocBit(m, blocks, t);
    NextAllocBit(m, blocks, t);
    FreeListed(m, head, blocks, free, t, t + 1, t - 1);
    FreeListed(m, head, blocks, free, t, t + 1, t + 1);
    Neighbours(m, blocks, t);
    var m1, h1, f1 := Unlist(m, head, blocks, free, t, t + 1, PrevBlkp(m, bp), t - 1, t - 1, t + 1);
    TagKept(m, m1, blocks, t);
    m2, h2, f2 := Unlist(m1, h1, blocks, f1, t - 1, t + 1, NextBlkp(m1, bp), t + 1, t - 1, t + 2);
    SameTagsTrans(m, m1, m2, blocks);
    BothRun(m, m2, head, h2, blocks, free, f1, f2, t);
    KeepsThen(m, blocks, free, m1, blocks, f1, m2, blocks, f2, []);
    UnlistedBoth(m, m2, head, blocks, free, f1, f2, t);
  }

  /**
   * coalesce, case 4: size += GET_SIZE(HDRP(PREV_BLKP(bp))) and
   * size += GET_SIZE(HDRP(NEXT_BLKP(bp))), read after both neighbours left
   * the list: the size of the run of the three blocks.
   */
  method AddNeighbours(ghost m0: Mem, m: Mem, ghost blocks: seq<int>, bp: Word, size0: Word, ghost t: int)
    returns (size: Word)
    requires Tagged(m0, blocks) && Tagged(m, blocks) && |m0| == |m| && SameTags(m0, m, blocks)
    requires 0 < t && t + 1 < |blocks| && bp == blocks[t] && size0 == BlockSize(m0, bp)
    ensures size % 8 == 0 && InHeap(m, bp - 8) && PrevBlkp(m, bp) == blocks[t - 1]
    ensures InHeap(m, bp - 4) && NextBlkp(m, bp) == blocks[t + 1]
    ensures blocks[t - 1] + 16 <= bp && bp + 16 <= blocks[t + 1] && blocks[t + 1] + 16 <= blocks[t - 1] + size
    ensures InHeap(m, blocks[t + 1] - 4) && Ftrp(m, blocks[t + 1]) == blocks[t - 1] + size - 8
    ensures blocks[t - 1] + size == NextBlkp(m, blocks[t + 1]) == NextBlkp(m0, blocks[t + 1])
  {
    AbsorbBoth(m0, m, blocks, t, bp, size0);
    TagKept(m0, m, blocks, t + 1);
    size := size0;
    size := size + BlockSize(m, PrevBlkp(m, bp));
    size := size + BlockSize(m, NextBlkp(m, bp));
    Grid(size0, BlockSize(m, PrevBlkp(m, bp)), 0);
    SumGrid(size, size0 + BlockSize(m, PrevBlkp(m, bp)), BlockSize(m, NextBlkp(m, bp)));
  }

  /**
   * PUT(HDRP(PREV_BLKP(bp)), PACK(size, 0)); PUT(FTRP(NEXT_BLKP(bp)),
   * PACK(size, 0)); bp = PREV_BLKP(bp): the tags of one free block from the
   * predecessor a to the end of the successor n.
   */
  method TagsAround(m: Mem, bp: Word, size: Word, ghost a: int, ghost n: int) returns (m': Mem, r: Word)
    requires a % 8 == 0 && size % 8 == 0 && FIRST <= a && 16 <= size && a + size <= End(m)
    requires a + 16 <= bp && bp + 16 <= n && n + 16 <= a + size
    requires InHeap(m, bp - 8) && PrevBlkp(m, bp) == a
    requires InHeap(m, bp - 4) && InHeap(m, n - 4) && NextBlkp(m, bp) == n && Ftrp(m, n) == a + size - 8
    ensures r == a && Retagged(m, m', a, size, Pack(size, 0))
  {
    OuterTags(m, a, bp, n, size, Pack(size, 0));
    m' := Put(m, Hdrp(PrevBlkp(m, bp)), Pack(size, 0));
    m' := Put(m', Ftrp(m', NextBlkp(m', bp)), Pack(size, 0));
    r := PrevBlkp(m', bp);
  }

  /** coalesce, case 4, second half: one free block over the run of three. */
  method FuseBoth(m: Mem, head: Word, ghost blocks: seq<int>, ghost free: seq<int>, bp: Word, size: Word, ghost t: int)
    returns (m': Mem, ghost nb: seq<int>, r: Word)
    requires Run(m, head, blocks, free, t - 1, t + 2) && blocks[t] == bp
    requires size % 8 == 0 && InHeap(m, bp - 8) && PrevBlkp(m, bp) == blocks[t - 1]
    requires InHeap(m, bp - 4) && NextBlkp(m, bp) == blocks[t + 1]
    requires blocks[t - 1] + 16 <= bp && bp + 16 <= blocks[t + 1] && blocks[t + 1] + 16 <= blocks[t - 1] + size
    requires InHeap(m, blocks[t + 1] - 4) && Ftrp(m, blocks[t + 1]) == blocks[t - 1] + size - 8
    requires blocks[t - 1] + size == NextBlkp(m, blocks[t + 1])
    ensures |m'| == |m| && nb == blocks[..t - 1] + [blocks[t - 1]] + blocks[t + 2..] && r == blocks[t - 1]
    ensures Run(m', head, nb, free, t - 1, t) && nb[t - 1] == r && IsFree(m', nb[t - 1])
    ensures BlockSize(m', nb[t - 1]) == size
    ensures Keeps(m, blocks, free, m', nb, free, blocks[t - 1..t + 2]) && KeepsFree(m, free, m', free, [])
  {
    RunSpan(m, blocks, t - 1, t + 2);
    ghost var a := blocks[t - 1];
    m', r := TagsAround(m, bp, size, a, blocks[t + 1]);
    nb := blocks[..t - 1] + [a] + blocks[t + 2..];
    Fused(m, m', head, blocks, free, t - 1, t + 2, size, nb);
  }

  /** coalesce, case 4: both neighbours are free; the previous one absorbs bp and the next one. */
  method MergeBoth(m: Mem, head: Word, ghost blocks: seq<int>, ghost free: seq<int>, bp: Word, size0: Word,
                   ghost t: int)
    returns (m': Mem, head': Word, ghost blocks': seq<int>, ghost free': seq<int>, r: Word)
    requires Pending(m, head, blocks, free, t) && blocks[t] == bp && size0 == BlockSize(m, blocks[t])
    requires 0 < t && t + 1 < |blocks| && IsFree(m, blocks[t - 1]) && IsFree(m, blocks[t + 1])
    ensures MergedRun(m, blocks, free, t, m', head', blocks', free', r, t - 1)
  {
    var m2;
    m2, head', free' := UnlistBoth(m, head, blocks, free, bp, t);
    var size := AddNeighbours(m, m2, blocks, bp, size0, t);
    m', blocks', r := FuseBoth(m2, head', blocks, free', bp, size, t);
    BothMerged(m, head, blocks, free, t, m2, head', free', size, m', blocks', r);
  }

  /** What MergeBoth's steps leave, gathered into MergedRun. */
  lemma BothMerged(m: Mem, head: int, blocks: seq<int>, free: seq<int>, t: int,
                   m2: Mem, h2: int, f2: seq<int>, size: int, m': Mem, nb: seq<int>, r: int)
    requires Tagged(m, blocks) && 0 <= t < |blocks| && blocks[t] !in free
    requires 0 < t && t + 1 < |blocks| && IsFree(m, blocks[t - 1]) && IsFree(m, blocks[t + 1])
    requires |m2| == |m| && Run(m2, h2, blocks, f2, t - 1, t + 2)
    requires Keeps(m, blocks, free, m2, blocks, f2, []) && blocks[t - 1] in free && blocks[t + 1] in free
    requires forall b :: b in f2 <==> b in free && b != blocks[t - 1] && b != blocks[t + 1]
    requires KeepsFree(m, free, m2, f2, [blocks[t - 1], blocks[t + 1]])
    requires InHeap(m2, blocks[t + 1] - 4)
    requires blocks[t - 1] + size == NextBlkp(m2, blocks[t + 1]) == NextBlkp(m, blocks[t + 1])
    requires |m'| == |m2| && nb == blocks[..t - 1] + [blocks[t - 1]] + blocks[t + 2..] && r == blocks[t - 1]
    requires Run(m', h2, nb, f2, t - 1, t) && nb[t - 1] == r && IsFree(m', nb[t - 1])
    requires BlockSize(m', nb[t - 1]) == size
    requires Keeps(m2, blocks, f2, m', nb, f2, blocks[t - 1..t + 2]) && KeepsFree(m2, f2, m', f2, [])
    ensures MergedRun(m, blocks, free, t, m', h2, nb, f2, r, t - 1)
  {
    KeepsRun(m, blocks, free, m2, f2, m', nb, f2, t - 1, t + 2, t);
    BothFrame(m, blocks, free, t, m2, f2, m', nb);
  }

  /**
   * The four cases of coalesce, up to the final addBlock: bp and its free
   * neighbours become one free block r, off the list and flanked by blocks
   * that are not free.
   */
  method MergeFree(m: Mem, head: Word, ghost blocks: seq<int>, ghost free: seq<int>, bp: Word, ghost t: int)
    returns (m1: Mem, h1: Word, ghost b1: seq<int>, ghost f1: seq<int>, r: Word, ghost t': int)
    requires Pending(m, head, blocks, free, t) && blocks[t] == bp
    ensures MergedRun(m, blocks, free, t, m1, h1, b1, f1, r, t')
    ensures r == if t > 0 && IsFree(m, blocks[t - 1]) then blocks[t - 1] else bp
  {
    PrevAllocBit(m, blocks, t);
    NextAllocBit(m, blocks, t);
    var prevAlloc := GetAlloc(Get(m, Ftrp(m, PrevBlkp(m, bp))));
    var nextAlloc := GetAlloc(Get(m, Hdrp(NextBlkp(m, bp))));
    var size := BlockSize(m, bp);
    if prevAlloc != 0 {
      m1, h1, b1, f1, r, t' := MergeAbove(m, head, blocks, free, bp, size, nextAlloc, t);
    } else {
      m1, h1, b1, f1, r, t' := MergeBelow(m, head, blocks, free, bp, size, nextAlloc, t);
    }
  }

  /** coalesce, cases 1 and 2: the previous block is allocated. */
  method MergeAbove(m: Mem, head: Word, ghost blocks: seq<int>, ghost free: seq<int>, bp: Word, size: Word,
                    nextAlloc: Word, ghost t: int)
    returns (m1: Mem, h1: Word, ghost b1: seq<int>, ghost f1: seq<int>, r: Word, ghost t': int)
    requires Pending(m, head, blocks, free, t) && blocks[t] == bp && size == BlockSize(m, blocks[t])
    requires t == 0 || !IsFree(m, blocks[t - 1])
    requires nextAlloc == 0 <==> t + 1 < |blocks| && IsFree(m, blocks[t + 1])
    ensures MergedRun(m, blocks, free, t, m1, h1, b1, f1, r, t')
    ensures r == bp
  {
    if nextAlloc != 0 {
      Isolated(m, head, blocks, free, t);
      KeepsOthers(m, m, blocks, free, t);
      m1, h1, b1, f1, r, t' := m, head, blocks, free, bp, t;
    } else {
      m1, h1, b1, f1 := MergeNext(m, head, blocks, free, bp, size, t);
      r, t' := bp, t;
    }
  }

  /** coalesce, cases 3 and 4: the previous block is free. */
  method MergeBelow(m: Mem, head: Word, ghost blocks: seq<int>, ghost free: seq<int>, bp: Word, size: Word,
                    nextAlloc: Word, ghost t: int)
    returns (m1: Mem, h1: Word, ghost b1: seq<int>, ghost f1: seq<int>, r: Word, ghost t': int)
    requires Pending(m, head, blocks, free, t) && blocks[t] == bp && size == BlockSize(m, blocks[t])
    requires 0 < t && IsFree(m, blocks[t - 1])
    requires nextAlloc == 0 <==> t + 1 < |blocks| && IsFree(m, blocks[t + 1])
    ensures MergedRun(m, blocks, free, t, m1, h1, b1, f1, r, t')
    ensures r == blocks[t - 1]
  {
    if nextAlloc != 0 {
      m1, h1, b1, f1, r := MergePrev(m, head, blocks, free, bp, size, t);
    } else {
      m1, h1, b1, f1, r := MergeBoth(m, head, blocks, free, bp, size, t);
    }
    t' := t - 1;
  }

  /**
   * coalesce: merge the pending free block bp with whichever neighbours are
   * free, put the merged block on the list, and return it.  The merged block
   * starts at the previous block when that one is free (else at bp) and ends
   * where the next block ends when that one is free (else where bp ends);
   * afterwards no two free blocks are adjacent and every free block is listed.
   */
  method Coalesce(m: Mem, head: Word, ghost blocks: seq<int>, ghost free: seq<int>, bp: Word, ghost t: int)
    returns (m': Mem, head': Word, ghost blocks': seq<int>, ghost free': seq<int>, r: Word, ghost t': int)
    requires Pending(m, head, blocks, free, t) && blocks[t] == bp
    ensures |m'| == |m| && Consistent(m', head', blocks', free', 0, 0)
    ensures 0 <= t' < |blocks'| && blocks'[t'] == r && r in free' && IsFree(m', blocks'[t'])
    ensures r == if t > 0 && IsFree(m, blocks[t - 1]) then blocks[t - 1] else bp
    ensures NextBlkp(m', blocks'[t'])
      == if t + 1 < |blocks| && IsFree(m, blocks[t + 1]) then NextBlkp(m, blocks[t + 1]) else NextBlkp(m, bp)
    ensures Keeps(m, blocks, free, m', blocks', free', [bp])
    ensures t' == RunLo(m, blocks, t) && MergedView(blocks, free, t', RunHi(m, blocks, t), blocks', free')
    ensures KeepsFree(m, free, m', free', blocks[t'..RunHi(m, blocks, t)])
  {
    var m1, h1;
    ghost var b1, f1;
    m1, h1, b1, f1, r, t' := MergeFree(m, head, blocks, free, bp, t);
    m', head', free' := ListBlock(m1, h1, b1, f1, r, t');
    blocks' := b1;
    KeepsListed(m, blocks, free, m1, b1, f1, m', b1, free', bp, r);
    CoalesceFrame(m, free, m1, f1, m', free', blocks, b1, t', RunHi(m, blocks, t), r);
  }

  // ---------------------------------------------------------------------
  // extend_heap.

  /**
   * The three tag writes of extend_heap on a new region of `size` bytes
   * ending at the break: PUT(HDRP(bp)), PUT(FTRP(bp)), and the epilogue
   * header PUT(HDRP(NEXT_BLKP(bp))).
   */
  method NewBlockTags(m: Mem, bp: Word, size: Word) returns (m': Mem)
    requires bp % 8 == 0 && FIRST <= bp && size % 8 == 0 && 16 <= size && End(m) == bp + size
    ensures |m'| == |m| && Get(m', bp - 4) == Pack(size, 0) && Get(m', bp + size - 8) == Pack(size, 0)
    ensures Get(m', End(m') - 4) == Pack(0, 1) && Same(m, m', 0, bp - 4)
  {
    EndWords(bp, size);
    var epilogue := bp + size - 4;
    assert epilogue % 4 == 0;
    var m1 := SetTags(m, bp, size, 0);
    Unpack(size, 0);
    assert End(m1) == bp + size && Get(m1, bp - 4) == Pack(size, 0);
    assert Hdrp(NextBlkp(m1, bp)) == epilogue;
    m' := Put(m1, epilogue, Pack(0, 1));
  }

  /**
   * What a successful extend_heap leaves behind, besides a consistent heap:
   * its last block bp is free and listed and ends at the new break; bp is the
   * old last block when that one was free (coalesce merged the new region
   * into it) and the old break otherwise; no block the program holds moved
   * or changed; the list gains bp and keeps every other listed block as it
   * was.
   */
  ghost predicate Extension(m: Mem, blocks: seq<int>, free: seq<int>,
                            m': Mem, head': int, blocks': seq<int>, free': seq<int>, bp: int, t': int)
    requires Tagged(m, blocks)
  {
    && 0 <= t' < |blocks'| && blocks'[t'] == bp && bp in free' && InHeap(m', bp - 4) && IsFree(m', blocks'[t'])
    && bp == (if |blocks| > 0 && IsFree(m, blocks[|blocks| - 1]) then blocks[|blocks| - 1] else End(m))
    && bp <= End(m) && NextBlkp(m', blocks'[t']) == End(m')
    && Keeps(m, blocks, free, m', blocks', free', [])
    && blocks' == (if bp == End(m) then blocks + [bp] else blocks)
    && (forall b :: b in free' <==> b in free || b == bp)
    && KeepsFree(m, free, m', free', [bp])
  }

  /** The conjuncts of Extension, gathered into the predicate. */
  lemma ExtensionIntro(m: Mem, blocks: seq<int>, free: seq<int>,
                       m': Mem, head': int, blocks': seq<int>, free': seq<int>, bp: int, t': int)
    requires Tagged(m, blocks)
    requires 0 <= t' < |blocks'| && blocks'[t'] == bp && bp in free' && InHeap(m', bp - 4) && IsFree(m', blocks'[t'])
    requires bp == (if |blocks| > 0 && IsFree(m, blocks[|blocks| - 1]) then blocks[|blocks| - 1] else End(m))
    requires bp <= End(m) && NextBlkp(m', blocks'[t']) == End(m')
    requires Keeps(m, blocks, free, m', blocks', free', [])
    requires blocks' == (if bp == End(m) then blocks + [bp] else blocks)
    requires forall b :: b in free' <==> b in free || b == bp
    requires KeepsFree(m, free, m', free', [bp])
    ensures Extension(m, blocks, free, m', head', blocks', free', bp, t')
  {
  }

  /**
   * extend_heap after a successful mem_sbrk: tag the new region as one free
   * block, then coalesce it with the last block when that one is free.
   */
  method FillRegion(ghost m0: Mem, m: Mem, head: Word, ghost blocks: seq<int>, ghost free: seq<int>, bp: Word,
                    size: Word)
    returns (m': Mem, head': Word, ghost blocks': seq<int>, ghost free': seq<int>, r: Word, ghost t': int)
    requires Consistent(m0, head, blocks, free, 0, 0) && bp == End(m0)
    requires size % 8 == 0 && 16 <= size && End(m) == End(m0) + size < 0x1_0000_0000 && Same(m0, m, 0, End(m0))
    ensures End(m') == End(m) && Consistent(m', head', blocks', free', 0, 0)
    ensures Extension(m0, blocks, free, m', head', blocks', free', r, t')
  {
    EndAligned(m0, blocks);
    var m1 := NewBlockTags(m, bp, size);
    Extended(m0, m1, head, blocks, free, size);
    ghost var n := |blocks|;
    m', head', blocks', free', r, t' := Coalesce(m1, head, blocks + [bp], free, bp, n);
    if n > 0 {
      assert (blocks + [bp])[n - 1] == blocks[n - 1];
      TagKept(m0, m1, blocks, n - 1);
    }
    KeepsThenNew(m0, blocks, free, m1, blocks + [bp], free, m', blocks', free', bp);
    GrowUnlisted(m0, blocks, free);
    ExtendFrame(m0, free, m1, m', free', blocks, blocks', bp, blocks + [bp], t', RunHi(m1, blocks + [bp], n));
    ExtensionIntro(m0, blocks, free, m', head', blocks', free', r, t');
  }

  /** ALIGN of a request of at least 9 bytes that does not wrap is a multiple of 8 of at least 16. */
  lemma RegionSize(x: int, r: int)
    requires 8 < x && x <= r < x + 8 && r % 8 == 0
    ensures r % 4 == 0 && 16 <= r
  {
  }

  /**
   * extend_heap: grow the heap by ALIGN(words * WSIZE + SIZE_T_SIZE) bytes
   * and return the free block that ends at the new break (the new region,
   * merged with the last block when that one was free), or NULL when
   * mem_sbrk fails, leaving everything as it was.
   */
  method ExtendHeap(m: Mem, limit: int, head: Word, ghost blocks: seq<int>, ghost free: seq<int>, words: Word)
    returns (m': Mem, head': Word, ghost blocks': seq<int>, ghost free': seq<int>, bp: Word, ghost t': int)
    requires Consistent(m, head, blocks, free, 0, 0)
    requires 0 < words && words * WSIZE + SIZE_T_SIZE + 7 < 0x1_0000_0000
    requires limit < 0x1_0000_0000
    ensures Consistent(m', head', blocks', free', 0, 0)
    ensures End(m) + Align(words * WSIZE + SIZE_T_SIZE) > limit ==>
      bp == 0 && m' == m && head' == head && blocks' == blocks && free' == free
    ensures End(m) + Align(words * WSIZE + SIZE_T_SIZE) <= limit ==>
      && End(m') == End(m) + Align(words * WSIZE + SIZE_T_SIZE)
      && Extension(m, blocks, free, m', head', blocks', free', bp, t')
  {
    var size := Align(words * WSIZE + SIZE_T_SIZE);
    RegionSize(words * WSIZE + SIZE_T_SIZE, size);
    var m1, p := MemSbrk(m, limit, size);
    if p == -1 {
      m', head', blocks', free', bp, t' := m, head, blocks, free, 0, 0;
      return;
    }
    m', head', blocks', free', bp, t' := FillRegion(m, m1, head, blocks, free, p, size);
  }

  // ---------------------------------------------------------------------
  // placeBlock.

  /** placeBlock without a split: PUT both tags as PACK(csize, 1), then removeBlock(bp). */
  method Occupy(m: Mem, head: Word, ghost blocks: seq<int>, ghost free: seq<int>, bp: Word, csize: Word, ghost t: int)
    returns (m': Mem, head': Word, ghost free': seq<int>)
    requires Consistent(m, head, blocks, free, 0, 0) && 0 <= t < |blocks| && blocks[t] == bp && bp in free
    requires csize == BlockSize(m, bp)
    ensures |m'| == |m| && Consistent(m', head', blocks, free', 0, 0) && free' == Remove(free, bp)
    ensures !IsFree(m', blocks[t]) && BlockSize(m', blocks[t]) == csize
    ensures Keeps(m, blocks, free, m', blocks, free', [])
    ensures KeepsFree(m, free, m', free', [bp])
  {
    RunSpan(m, blocks, t, t + 1);
    Widen(m, head, blocks, free, t, t + 1);
    var m1 := SetTags(m, bp, csize, 1);
    Unpack(csize, 1);
    RetagPair(m, m1, head, blocks, free, t, t + 1, t, csize, 1);
    m', head', free' := Unlist(m1, head, blocks, free, t, t + 1, bp, t, t, t + 1);
    TagKept(m1, m', blocks, t);
    Settle(m', head', blocks, free', t, t + 1);
    NoRange(m', head', blocks, free', t + 1);
    OccupyFrame(m, blocks, free, m1, m', free', bp);
  }

  /** Over Occupy's two steps the held blocks keep their words and only bp leaves the list. */
  lemma OccupyFrame(m: Mem, blocks: seq<int>, free: seq<int>, m1: Mem, m': Mem, free': seq<int>, bp: int)
    requires Tagged(m1, blocks) && |m1| <= |m'| && SameTags(m1, m', blocks) && bp in free
    requires forall k :: 0 <= k < |free| ==> free[k] in blocks
    requires forall b :: b in free' <==> b in free && b != bp
    requires Keeps(m, blocks, free, m1, blocks, free, [bp]) && KeepsFree(m, free, m1, free, [bp])
    requires Keeps(m1, blocks, free, m', blocks, free', [])
    ensures Keeps(m, blocks, free, m', blocks, free', []) && KeepsFree(m, free, m', free', [bp])
  {
    KeepsTrans(m, blocks, free, m1, blocks, free, m', blocks, free', [bp], []);
    KeepsLess(m, blocks, free, m', blocks, free', [bp] + [], []);
    UnlistFrame(m, free, m1, m', blocks, free', bp);
  }

  /**
   * The four tag writes of a split: PACK(asize, 1) on bp, then, at
   * NEXT_BLKP(bp) as read from the new header, PACK(rest, 0).
   */
  method CarveTags(m: Mem, bp: Word, asize: Word, rest: Word) returns (m': Mem, rp: Word)
    requires bp % 8 == 0 && FIRST <= bp && asize % 8 == 0 && rest % 8 == 0
    requires MINBLOCK <= asize && MINBLOCK <= rest && bp + asize + rest <= End(m) < 0x1_0000_0000
    ensures |m'| == |m| && rp == bp + asize
    ensures Get(m', bp - 4) == Pack(asize, 1) && Get(m', bp + asize - 8) == Pack(asize, 1)
    ensures Get(m', bp + asize - 4) == Pack(rest, 0) && Get(m', bp + asize + rest - 8) == Pack(rest, 0)
    ensures Same(m, m', 0, bp - 4) && Same(m, m', bp + asize + rest - 4, End(m))
  {
    var m1 := SetTags(m, bp, asize, 1);
    Unpack(asize, 1);
    assert BlockSize(m1, bp) == asize;
    rp := NextBlkp(m1, bp);
    Grid(bp, asize, 8);
    m' := SetTags(m1, rp, rest, 0);
  }

  /** The tag writes of a split, as a chain of two blocks in place of blocks[t]. */
  method Divide(m: Mem, ghost blocks: seq<int>, bp: Word, csize: Word, asize: Word, ghost t: int)
    returns (m': Mem, rp: Word)
    requires Tagged(m, blocks) && 0 <= t < |blocks| && blocks[t] == bp
    requires csize == BlockSize(m, bp) && asize % 8 == 0 && MINBLOCK <= asize && csize - asize >= MINBLOCK
    ensures |m'| == |m| && NextBlkp(m, bp) == bp + csize && rp == bp + asize
    ensures Same(m, m', 0, bp - 4) && Same(m, m', NextBlkp(m, bp) - 4, End(m))
    ensures Chain(m', [bp, bp + asize], bp, NextBlkp(m, bp))
    ensures !IsFree(m', bp) && BlockSize(m', bp) == asize
    ensures IsFree(m', rp) && BlockSize(m', rp) == csize - asize
  {
    DivideRoom(m, blocks, bp, csize, asize, t);
    m', rp := CarveTags(m, bp, asize, csize - asize);
    Split(m, m', blocks, t, asize, csize - asize);
  }

  /** The arithmetic CarveTags needs of a block that Divide splits. */
  lemma DivideRoom(m: Mem, blocks: seq<int>, bp: int, csize: int, asize: int, t: int)
    requires Tagged(m, blocks) && 0 <= t < |blocks| && blocks[t] == bp
    requires csize == BlockSize(m, bp) && asize % 8 == 0
    ensures bp % 8 == 0 && FIRST <= bp && (csize - asize) % 8 == 0
    ensures NextBlkp(m, bp) == bp + csize <= End(m) < 0x1_0000_0000
  {
    RunSpan(m, blocks, t, t + 1);
    Grid(0, csize, asize);
  }

  /**
   * The split itself, on the block blocks[t] already taken off the list:
   * its first asize bytes become an allocated block, the rest, at rp, a
   * free block not yet listed.
   */
  method Halve(m: Mem, head: Word, ghost blocks: seq<int>, ghost free: seq<int>, bp: Word, csize: Word, asize: Word,
               ghost t: int)
    returns (m': Mem, ghost blocks': seq<int>, rp: Word)
    requires Consistent(m, head, blocks, free, t, t + 1) && 0 <= t < |blocks| && blocks[t] == bp && bp !in free
    requires IsFree(m, bp) && (t + 1 == |blocks| || !IsFree(m, blocks[t + 1]))
    requires csize == BlockSize(m, bp) && asize % 8 == 0 && MINBLOCK <= asize && csize - asize >= MINBLOCK
    ensures |m'| == |m| && rp == bp + asize && Run(m', head, blocks', free, t + 1, t + 2)
    ensures blocks' == blocks[..t] + [bp, bp + asize] + blocks[t + 1..] && blocks'[t + 1] == rp
    ensures InHeap(m', bp - 4) && !IsFree(m', bp) && BlockSize(m', bp) == asize
    ensures InHeap(m', rp - 4) && IsFree(m', rp) && BlockSize(m', rp) == csize - asize
    ensures rp !in blocks && Keeps(m, blocks, free, m', blocks', free, [bp]) && KeepsFree(m, free, m', free, [])
  {
    Inner(m, blocks, t, bp + asize);
    m', rp := Divide(m, blocks, bp, csize, asize, t);
    blocks' := blocks[..t] + [bp, bp + asize] + blocks[t + 1..];
    SplitMerge(m, m', head, blocks, free, t, [bp, bp + asize], blocks');
    Single(blocks, t);
    Flanks(m, m', blocks, t, t + 1);
    if t + 1 < |blocks| {
      assert blocks'[t + 2] == blocks[t + 1];
    }
  }

  /** removeBlock(bp) ahead of a split: bp is off the list and its neighbour above is not free. */
  method Detach(m: Mem, head: Word, ghost blocks: seq<int>, ghost free: seq<int>, bp: Word, ghost t: int)
    returns (m': Mem, head': Word, ghost free': seq<int>)
    requires Consistent(m, head, blocks, free, 0, 0) && 0 <= t < |blocks| && blocks[t] == bp && bp in free
    ensures |m'| == |m| && Consistent(m', head', blocks, free', t, t + 1) && bp !in free'
    ensures IsFree(m', bp) && BlockSize(m', bp) == BlockSize(m, bp) && (t + 1 == |blocks| || !IsFree(m', blocks[t + 1]))
    ensures forall b :: b in free' <==> b in free && b != bp
    ensures Keeps(m, blocks, free, m', blocks, free', []) && KeepsFree(m, free, m', free', [bp])
  {
    Widen(m, head, blocks, free, t, t + 1);
    m', head', free' := Unlist(m, head, blocks, free, t, t + 1, bp, t, t, t + 1);
    TagsKeepFree(m, m', blocks, free, free', [bp]);
    TagKept(m, m', blocks, t);
    if t + 1 < |blocks| {
      TagKept(m, m', blocks, t + 1);
    }
  }

  /**
   * placeBlock with a split, up to addBlock: removeBlock(bp) and the four
   * tag writes; the remainder at rp is a free block not yet listed.
   */
  method Cut(m: Mem, head: Word, ghost blocks: seq<int>, ghost free: seq<int>, bp: Word, csize: Word, asize: Word,
             ghost t: int)
    returns (m': Mem, head': Word, ghost blocks': seq<int>, ghost free': seq<int>, rp: Word)
    requires Consistent(m, head, blocks, free, 0, 0) && 0 <= t < |blocks| && blocks[t] == bp && bp in free
    requires csize == BlockSize(m, bp) && asize % 8 == 0 && MINBLOCK <= asize && csize - asize >= MINBLOCK
    ensures |m'| == |m| && rp == bp + asize && Run(m', head', blocks', free', t + 1, t + 2)
    ensures blocks' == blocks[..t] + [bp, bp + asize] + blocks[t + 1..] && blocks'[t + 1] == rp
    ensures InHeap(m', bp - 4) && !IsFree(m', bp) && BlockSize(m', bp) == asize
    ensures InHeap(m', rp - 4) && IsFree(m', rp) && BlockSize(m', rp) == csize - asize
    ensures forall b :: b in free' <==> b in free && b != bp
    ensures rp !in blocks && Keeps(m, blocks, free, m', blocks', free', [bp])
    ensures KeepsFree(m, free, m', free', [bp])
  {
    var m1;
    m1, head', free' := Detach(m, head, blocks, free, bp, t);
    m', blocks', rp := Halve(m1, head', blocks, free', bp, csize, asize, t);
    KeepsThen(m, blocks, free, m1, blocks, free', m', blocks', free', [bp]);
    KeepsFreeTrans(m, free, m1, free', m', free', [bp], []);
    KeepsFreeLess(m, free, m', free', [bp] + [], [bp]);
  }

  /**
   * placeBlock with a split: removeBlock(bp), allocate the first asize bytes,
   * and addBlock the remainder, at rp = NEXT_BLKP(bp), as a new free block.
   */
  method Carve(m: Mem, head: Word, ghost blocks: seq<int>, ghost free: seq<int>, bp: Word, csize: Word, asize: Word,
               ghost t: int)
    returns (m': Mem, head': Word, ghost blocks': seq<int>, ghost free': seq<int>, rp: Word)
    requires Consistent(m, head, blocks, free, 0, 0) && 0 <= t < |blocks| && blocks[t] == bp && bp in free
    requires csize == BlockSize(m, bp) && asize % 8 == 0 && MINBLOCK <= asize && csize - asize >= MINBLOCK
    ensures |m'| == |m| && rp == bp + asize && Consistent(m', head', blocks', free', 0, 0)
    ensures blocks' == blocks[..t] + [bp, bp + asize] + blocks[t + 1..] && blocks'[t] == bp && blocks'[t + 1] == rp
    ensures InHeap(m', bp - 4) && !IsFree(m', bp) && BlockSize(m', bp) == asize
    ensures InHeap(m', rp - 4) && IsFree(m', rp) && BlockSize(m', rp) == csize - asize
    ensures forall b :: b in free' <==> (b in free && b != bp) || b == rp
    ensures Keeps(m, blocks, free, m', blocks', free', []) && KeepsFree(m, free, m', free', [bp])
  {
    var m1, h1;
    ghost var f1;
    m1, h1, blocks', f1, rp := Cut(m, head, blocks, free, bp, csize, asize, t);
    m', head', free' := ListBlock(m1, h1, blocks', f1, rp, t + 1);
    assert blocks'[t] == bp;
    KeepsDropped(m, blocks, free, m1, blocks', f1, m', blocks', free', bp, rp);
    KeepsFreeTrans(m, free, m1, f1, m', free', [bp], []);
    KeepsFreeLess(m, free, m', free', [bp] + [], [bp]);
  }

  /**
   * placeBlock: allocate asize bytes of the free block bp, splitting off the
   * remainder as a new free block when it is at least the minimum block
   * size (DSIZE + OVERHEAD).
   */
  method PlaceBlock(m: Mem, head: Word, ghost blocks: seq<int>, ghost free: seq<int>, bp: Word, asize: Word,
                    ghost t: int)
    returns (m': Mem, head': Word, ghost blocks': seq<int>, ghost free': seq<int>)
    requires Consistent(m, head, blocks, free, 0, 0) && 0 <= t < |blocks| && blocks[t] == bp && bp in free
    requires asize % 8 == 0 && MINBLOCK <= asize <= BlockSize(m, bp)
    ensures |m'| == |m| && Consistent(m', head', blocks', free', 0, 0)
    ensures 0 <= t < |blocks'| && blocks'[t] == bp && !IsFree(m', blocks'[t])
    ensures BlockSize(m', blocks'[t]) == if BlockSize(m, bp) - asize >= MINBLOCK then asize else BlockSize(m, bp)
    ensures BlockSize(m, bp) - asize >= MINBLOCK ==>
      && blocks' == blocks[..t] + [bp, bp + asize] + blocks[t + 1..]
      && IsFree(m', blocks'[t + 1]) && BlockSize(m', blocks'[t + 1]) == BlockSize(m, bp) - asize
      && forall b :: b in free' <==> (b in free && b != bp) || b == bp + asize
    ensures BlockSize(m, bp) - asize < MINBLOCK ==> blocks' == blocks && free' == Remove(free, bp)
    ensures Keeps(m, blocks, free, m', blocks', free', []) && KeepsFree(m, free, m', free', [bp])
  {
    var csize := BlockSize(m, bp);
    if csize - asize >= DSIZE + OVERHEAD {
      var rp;
      m', head', blocks', free', rp := Carve(m, head, blocks, free, bp, csize, asize, t);
    } else {
      m', head', free' := Occupy(m, head, blocks, free, bp, csize, t);
      blocks' := blocks;
    }
  }
}
