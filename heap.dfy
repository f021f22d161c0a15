/**
 * Heap consistency: how the block chain, the free bits in the tags and the
 * explicit free list fit together between and during the allocator's
 * operations.
 *
 * `Consistent(m, head, blocks, free, lo, hi)` says that the heap is well
 * tagged, the free list is well linked, every listed entry is a block, and,
 * for every block outside the index range [lo, hi), the block is listed
 * exactly when its tag says free and no two such neighbours are both free.
 * The range [lo, hi) holds the blocks an operation is working on; between
 * operations it is empty.
 */
module Heap {
  import opened Codec
  import opened Layout
  import opened FreeList

  /** A block handed out by mm_malloc and not yet freed. */
  ghost predicate Allocated(m: Mem, b: int)
  {
    BlockOK(m, b) && !IsFree(m, b)
  }

  predicate Outside(i: int, lo: int, hi: int)
  {
    i < lo || hi <= i
  }

  /** Blocks outside [lo, hi) are listed exactly when free. */
  ghost predicate Listed(m: Mem, blocks: seq<int>, free: seq<int>, lo: int, hi: int)
    requires Tagged(m, blocks)
  {
    && (forall k :: 0 <= k < |free| ==> free[k] in blocks)
    && (forall i :: 0 <= i < |blocks| && Outside(i, lo, hi) ==> (blocks[i] in free <==> IsFree(m, blocks[i])))
  }

  /** No two neighbouring blocks outside [lo, hi) are both free. */
  ghost predicate Coalesced(m: Mem, blocks: seq<int>, lo: int, hi: int)
    requires Tagged(m, blocks)
  {
    forall i, j :: 0 <= i && j == i + 1 < |blocks| && Outside(i, lo, hi) && Outside(j, lo, hi) ==>
      !IsFree(m, blocks[i]) || !IsFree(m, blocks[j])
  }

  ghost predicate Consistent(m: Mem, head: int, blocks: seq<int>, free: seq<int>, lo: int, hi: int)
  {
    && Tagged(m, blocks) && 0 <= lo <= hi <= |blocks|
    && Linked(m, head, free)
    && Listed(m, blocks, free, lo, hi)
    && Coalesced(m, blocks, lo, hi)
  }

  /**
   * Every block of `blocks` that is off the list `free` and not in `gone`
   * is still a block off the list afterwards, with all its words unchanged:
   * the payload of a block the program holds is never disturbed.
   */
  ghost predicate Keeps(m: Mem, blocks: seq<int>, free: seq<int>, m': Mem, blocks': seq<int>, free': seq<int>,
                        gone: seq<int>)
  {
    forall b :: b in blocks && b !in free && b !in gone ==>
      b in blocks' && b !in free' && BlockOK(m, b) && Kept(m, m', b)
  }

  /**
   * Every listed block of `free` that is not in `gone` is still listed
   * afterwards and keeps its header, so its size: the free blocks an
   * operation does not work on stay on the list as they were.
   */
  ghost predicate KeepsFree(m: Mem, free: seq<int>, m': Mem, free': seq<int>, gone: seq<int>)
  {
    forall b :: b in free && b !in gone ==>
      b in free' && InHeap(m, b - 4) && InHeap(m', b - 4) && Get(m', b - 4) == Get(m, b - 4)
  }

  /**
   * The view after coalesce made the run blocks[lo..hi] one block at
   * blocks[lo] and listed it: in the block sequence the run gives way to its
   * first block, and on the list the run's blocks give way to that block.
   */
  ghost predicate MergedView(blocks: seq<int>, free: seq<int>, lo: int, hi: int, blocks': seq<int>, free': seq<int>)
  {
    && 0 <= lo < hi <= |blocks|
    && blocks' == blocks[..lo] + [blocks[lo]] + blocks[hi..]
    && forall b :: b in free' <==> (b in free && b !in blocks[lo..hi]) || b == blocks[lo]
  }

  // ---------------------------------------------------------------------
  // Basic facts.

  lemma IndexOf(s: seq<int>, x: int) returns (i: int)
    requires x in s
    ensures 0 <= i < |s| && s[i] == x
  {
    i :| 0 <= i < |s| && s[i] == x;
  }

  /** Distinct blocks are at least a minimum block apart, so their link words never overlap. */
  lemma BlocksApart(m: Mem, blocks: seq<int>, i: int, j: int)
    requires Tagged(m, blocks) && 0 <= i < |blocks| && 0 <= j < |blocks| && i != j
    ensures Apart(blocks[i], blocks[j]) && blocks[i] != blocks[j]
  {
    Separated(m, blocks, FIRST, End(m), i, j);
    assert BlockOK(m, blocks[i]) && BlockOK(m, blocks[j]);
  }

  /** A block's link words are away from every block's tags, from the prologue and from the epilogue. */
  lemma OffTags(m: Mem, blocks: seq<int>, j: int, x: int)
    requires Tagged(m, blocks) && 0 <= j < |blocks| && (x == 0 || x in blocks)
    ensures BlockOK(m, blocks[j])
    ensures Off(blocks[j] - 4, x) && Off(Ftrp(m, blocks[j]), x)
    ensures Off(4, x) && Off(8, x) && Off(End(m) - 4, x)
    ensures x != blocks[j] ==> forall a :: blocks[j] - 4 <= a < NextBlkp(m, blocks[j]) - 4 ==> Off(a, x)
  {
    assert BlockOK(m, blocks[j]);
    if x != 0 {
      var k := IndexOf(blocks, x);
      assert BlockOK(m, x);
      Separated(m, blocks, FIRST, End(m), j, k);
      Inside(m, blocks, FIRST, End(m), k);
    }
  }

  /**
   * Writing link words of blocks x, y and z (or of none, for NULL) keeps
   * every tag, so the heap stays well tagged, and keeps every word of every
   * other block.
   */
  lemma LinkWrites(m: Mem, m': Mem, blocks: seq<int>, x: int, y: int, z: int)
    requires Tagged(m, blocks) && LinksOnly(m, m', x, y, z)
    requires (x == 0 || x in blocks) && (y == 0 || y in blocks) && (z == 0 || z in blocks)
    ensures Tagged(m', blocks)
    ensures forall k :: 0 <= k < |blocks| ==> Get(m', blocks[k] - 4) == Get(m, blocks[k] - 4)
    ensures forall k :: 0 <= k < |blocks| && blocks[k] != x && blocks[k] != y && blocks[k] != z ==>
      Kept(m, m', blocks[k])
  {
    forall k | 0 <= k < |blocks|
      ensures BlockOK(m', blocks[k]) && Get(m', blocks[k] - 4) == Get(m, blocks[k] - 4)
      ensures NextBlkp(m', blocks[k]) == NextBlkp(m, blocks[k])
      ensures blocks[k] != x && blocks[k] != y && blocks[k] != z ==> Kept(m, m', blocks[k])
    {
      LinkWritesAt(m, m', blocks, x, y, z, k);
    }
    if |blocks| > 0 {
      OffTags(m, blocks, 0, x);
      OffTags(m, blocks, 0, y);
      OffTags(m, blocks, 0, z);
    } else {
      assert Off(4, x) && Off(8, x) && Off(End(m) - 4, x);
      assert Off(4, y) && Off(8, y) && Off(End(m) - 4, y);
      assert Off(4, z) && Off(8, z) && Off(End(m) - 4, z);
    }
  }

  /** LinkWrites for the one block blocks[k]. */
  lemma LinkWritesAt(m: Mem, m': Mem, blocks: seq<int>, x: int, y: int, z: int, k: int)
    requires Tagged(m, blocks) && LinksOnly(m, m', x, y, z) && 0 <= k < |blocks|
    requires (x == 0 || x in blocks) && (y == 0 || y in blocks) && (z == 0 || z in blocks)
    ensures BlockOK(m', blocks[k]) && Get(m', blocks[k] - 4) == Get(m, blocks[k] - 4)
    ensures NextBlkp(m', blocks[k]) == NextBlkp(m, blocks[k])
    ensures blocks[k] != x && blocks[k] != y && blocks[k] != z ==> Kept(m, m', blocks[k])
  {
    OffTags(m, blocks, k, x);
    OffTags(m, blocks, k, y);
    OffTags(m, blocks, k, z);
  }

  /** A list whose link words are all unchanged is still linked. */
  lemma LinkedKept(m: Mem, m': Mem, head: int, free: seq<int>)
    requires Linked(m, head, free) && |m| <= |m'|
    requires forall k :: 0 <= k < |free| ==>
      PrevFree(m', free[k]) == PrevFree(m, free[k]) && NextFree(m', free[k]) == NextFree(m, free[k])
    ensures Linked(m', head, free)
  {
    if |free| > 0 {
      Links(m, head, free, 0);
      Links(m, head, free, |free| - 1);
    }
  }

  /** Keeping a block's words is transitive. */
  lemma KeptTrans(m: Mem, m': Mem, m'': Mem, b: int)
    requires BlockOK(m, b) && Kept(m, m', b) && BlockOK(m', b) && Kept(m', m'', b)
    ensures Kept(m, m'', b)
  {
    assert Get(m', b - 4) == Get(m, b - 4);
  }

  /** An entry of a list whose links are apart occurs in it once. */
  lemma CountOne(s: seq<int>, k: int)
    requires LinksApart(s) && 0 <= k < |s|
    ensures multiset(s)[s[k]] == 1
  {
    var x := s[k];
    assert s == s[..k] + [x] + s[k + 1..];
    forall i | 0 <= i < k
      ensures s[..k][i] != x
    {
      assert Apart(s[i], s[k]);
    }
    forall i | k < i < |s|
      ensures s[i] != x
    {
      assert Apart(s[k], s[i]);
    }
    assert x !in s[k + 1..];
  }

  /** Membership after removing a list entry. */
  lemma RemoveIn(s: seq<int>, x: int)
    requires LinksApart(s)
    ensures forall b :: b in Remove(s, x) <==> b in s && b != x
  {
    RemoveMultiset(s, x);
    if x in s {
      var k := IndexOf(s, x);
      CountOne(s, k);
    }
    forall b
      ensures b in Remove(s, x) <==> b in s && b != x
    {
      assert b in Remove(s, x) <==> multiset(Remove(s, x))[b] > 0;
      assert b in s <==> multiset(s)[b] > 0;
    }
  }

  /** Membership after inserting a list entry. */
  lemma InsertIn(s: seq<int>, p: int, x: int)
    requires 0 <= p <= |s|
    ensures forall b :: b in InsertAt(s, p, x) <==> b in s || b == x
  {
    InsertMultiset(s, p, x);
    forall b
      ensures b in InsertAt(s, p, x) <==> b in s || b == x
    {
      assert b in InsertAt(s, p, x) <==> multiset(InsertAt(s, p, x))[b] > 0;
      assert b in s <==> multiset(s)[b] > 0;
    }
  }

  // ---------------------------------------------------------------------
  // Carrying the free bits and the list membership over to a new heap.

  /** Every block has the same header in m' as in m. */
  ghost predicate SameTags(m: Mem, m': Mem, blocks: seq<int>)
    requires Tagged(m, blocks) && |m| <= |m'|
  {
    forall k :: 0 <= k < |blocks| ==> Get(m', blocks[k] - 4) == Get(m, blocks[k] - 4)
  }

  lemma ListedMove(m: Mem, m': Mem, blocks: seq<int>, free: seq<int>, free': seq<int>,
                   lo: int, hi: int, lo': int, hi': int)
    requires Tagged(m, blocks) && Tagged(m', blocks) && |m| <= |m'|
    requires forall i :: 0 <= i < |blocks| && Outside(i, lo', hi') ==> Get(m', blocks[i] - 4) == Get(m, blocks[i] - 4)
    requires Listed(m, blocks, free, lo, hi)
    requires forall k :: 0 <= k < |free'| ==> free'[k] in blocks
    requires forall i :: 0 <= i < |blocks| && Outside(i, lo', hi') ==>
      Outside(i, lo, hi) && (blocks[i] in free' <==> blocks[i] in free)
    ensures Listed(m', blocks, free', lo', hi')
  {
    forall i | 0 <= i < |blocks| && Outside(i, lo', hi')
      ensures blocks[i] in free' <==> IsFree(m', blocks[i])
    {
      assert BlockOK(m, blocks[i]);
    }
  }

  lemma CoalescedMove(m: Mem, m': Mem, blocks: seq<int>, lo: int, hi: int, lo': int, hi': int)
    requires Tagged(m, blocks) && Tagged(m', blocks) && |m| <= |m'|
    requires forall i :: 0 <= i < |blocks| && Outside(i, lo', hi') ==> Get(m', blocks[i] - 4) == Get(m, blocks[i] - 4)
    requires Coalesced(m, blocks, lo, hi)
    requires forall i :: 0 <= i < |blocks| && Outside(i, lo', hi') ==> Outside(i, lo, hi)
    ensures Coalesced(m', blocks, lo', hi')
  {
    forall i, j | 0 <= i && j == i + 1 < |blocks| && Outside(i, lo', hi') && Outside(j, lo', hi')
      ensures !IsFree(m', blocks[i]) || !IsFree(m', blocks[j])
    {
      assert BlockOK(m, blocks[i]) && BlockOK(m, blocks[j]);
    }
  }

  /** Every listed entry is a block. */
  lemma ListedIn(m: Mem, blocks: seq<int>, free: seq<int>, lo: int, hi: int, b: int)
    requires Tagged(m, blocks) && Listed(m, blocks, free, lo, hi) && b in free
    ensures b in blocks
  {
    var k := IndexOf(free, b);
  }

  // ---------------------------------------------------------------------
  // The steps the operations are made of.

  /** A range with no blocks in it sets nothing apart. */
  lemma NoRange(m: Mem, head: int, blocks: seq<int>, free: seq<int>, l: int)
    requires Consistent(m, head, blocks, free, l, l)
    ensures Consistent(m, head, blocks, free, 0, 0)
  {
  }

  /** An allocated, unlisted block at the front of the range needs no more setting apart. */
  lemma Settle(m: Mem, head: int, blocks: seq<int>, free: seq<int>, lo: int, hi: int)
    requires Consistent(m, head, blocks, free, lo, hi) && lo < hi
    requires blocks[lo] !in free && !IsFree(m, blocks[lo])
    ensures Consistent(m, head, blocks, free, lo + 1, hi)
  {
  }

  /**
   * removeBlock on blocks[t], inside or next to the range: the range grows
   * to take blocks[t] in, no tag changes, and only blocks on the free list
   * may have their words changed.
   */
  lemma AfterRemove(m: Mem, m': Mem, head: int, head': int, blocks: seq<int>, free: seq<int>,
                    lo: int, hi: int, t: int, lo': int, hi': int, x: int, y: int)
    requires Consistent(m, head, blocks, free, lo, hi)
    requires 0 <= lo' <= lo && hi <= hi' <= |blocks| && lo' <= t < hi' && blocks[t] in free
    requires LinksOnly(m, m', x, y, 0) && (x == 0 || x in free) && (y == 0 || y in free)
    requires Linked(m', head', Remove(free, blocks[t]))
    ensures Consistent(m', head', blocks, Remove(free, blocks[t]), lo', hi')
    ensures SameTags(m, m', blocks)
    ensures Keeps(m, blocks, free, m', blocks, Remove(free, blocks[t]), [])
    ensures forall b :: b in Remove(free, blocks[t]) <==> b in free && b != blocks[t]
  {
    if x != 0 {
      ListedIn(m, blocks, free, lo, hi, x);
    }
    if y != 0 {
      ListedIn(m, blocks, free, lo, hi, y);
    }
    LinkWrites(m, m', blocks, x, y, 0);
    ListedAfterRemove(m, m', blocks, free, lo, hi, t, lo', hi');
    KeptUnlisted(m, m', blocks, free, Remove(free, blocks[t]), x, y);
    CoalescedMove(m, m', blocks, lo, hi, lo', hi');
  }

  /** Blocks off the list are not among the written nodes x and y. */
  lemma KeptUnlisted(m: Mem, m': Mem, blocks: seq<int>, free: seq<int>, free': seq<int>, x: int, y: int)
    requires Tagged(m, blocks) && (x == 0 || x in free) && (y == 0 || y in free)
    requires forall k :: 0 <= k < |blocks| && blocks[k] != x && blocks[k] != y && blocks[k] != 0 ==>
      Kept(m, m', blocks[k])
    requires forall b :: b in free' ==> b in free
    ensures Keeps(m, blocks, free, m', blocks, free', [])
  {
    forall b | b in blocks && b !in free
      ensures BlockOK(m, b) && Kept(m, m', b)
    {
      var k := IndexOf(blocks, b);
      assert BlockOK(m, blocks[k]);
    }
  }

  lemma ListedAfterRemove(m: Mem, m': Mem, blocks: seq<int>, free: seq<int>,
                          lo: int, hi: int, t: int, lo': int, hi': int)
    requires Tagged(m, blocks) && Tagged(m', blocks) && |m| <= |m'| && SameTags(m, m', blocks)
    requires Listed(m, blocks, free, lo, hi) && LinksApart(free)
    requires 0 <= lo' <= lo <= hi <= hi' <= |blocks| && lo' <= t < hi'
    ensures Listed(m', blocks, Remove(free, blocks[t]), lo', hi')
    ensures forall b :: b in Remove(free, blocks[t]) <==> b in free && b != blocks[t]
  {
    var free' := Remove(free, blocks[t]);
    RemoveIn(free, blocks[t]);
    forall k | 0 <= k < |free'|
      ensures free'[k] in blocks
    {
      ListedIn(m, blocks, free, lo, hi, free'[k]);
    }
    forall i | 0 <= i < |blocks| && Outside(i, lo', hi')
      ensures blocks[i] in free' <==> blocks[i] in free
    {
      BlocksApart(m, blocks, i, t);
    }
    ListedMove(m, m', blocks, free, free', lo, hi, lo', hi');
  }

  /**
   * addBlock on blocks[t], the only block set apart, which is free, unlisted
   * and between two blocks that are not free: afterwards nothing is set apart.
   */
  lemma AfterAdd(m: Mem, m': Mem, head: int, head': int, blocks: seq<int>, free: seq<int>,
                 t: int, p: int, x: int, y: int)
    requires Consistent(m, head, blocks, free, t, t + 1)
    requires blocks[t] !in free && IsFree(m, blocks[t])
    requires t == 0 || !IsFree(m, blocks[t - 1])
    requires t + 1 == |blocks| || !IsFree(m, blocks[t + 1])
    requires LinksOnly(m, m', blocks[t], x, y) && (x == 0 || x in free) && (y == 0 || y in free)
    requires 0 <= p <= |free| && Linked(m', head', InsertAt(free, p, blocks[t]))
    ensures Consistent(m', head', blocks, InsertAt(free, p, blocks[t]), 0, 0)
    ensures SameTags(m, m', blocks)
    ensures Keeps(m, blocks, free, m', blocks, InsertAt(free, p, blocks[t]), [blocks[t]])
  {
    if x != 0 {
      ListedIn(m, blocks, free, t, t + 1, x);
    }
    if y != 0 {
      ListedIn(m, blocks, free, t, t + 1, y);
    }
    LinkWrites(m, m', blocks, blocks[t], x, y);
    ListedAfterAdd(m, m', blocks, free, t, p);
    CoalescedAfterAdd(m, m', blocks, t);
    KeptOthers(m, m', blocks, free, t, p, x, y);
  }

  /** Blocks off the list other than blocks[t] are not among the written nodes. */
  lemma KeptOthers(m: Mem, m': Mem, blocks: seq<int>, free: seq<int>, t: int, p: int, x: int, y: int)
    requires Tagged(m, blocks) && 0 <= t < |blocks| && (x == 0 || x in free) && (y == 0 || y in free)
    requires 0 <= p <= |free|
    requires forall k :: 0 <= k < |blocks| && blocks[k] != blocks[t] && blocks[k] != x && blocks[k] != y ==>
      Kept(m, m', blocks[k])
    ensures Keeps(m, blocks, free, m', blocks, InsertAt(free, p, blocks[t]), [blocks[t]])
  {
    InsertIn(free, p, blocks[t]);
    forall b | b in blocks && b !in free && b !in [blocks[t]]
      ensures BlockOK(m, b) && Kept(m, m', b)
    {
      var k := IndexOf(blocks, b);
      assert BlockOK(m, blocks[k]);
    }
  }

  lemma ListedAfterAdd(m: Mem, m': Mem, blocks: seq<int>, free: seq<int>, t: int, p: int)
    requires Tagged(m, blocks) && Tagged(m', blocks) && |m| <= |m'| && SameTags(m, m', blocks)
    requires 0 <= t < |blocks| && Listed(m, blocks, free, t, t + 1)
    requires blocks[t] !in free && IsFree(m, blocks[t]) && 0 <= p <= |free|
    ensures Listed(m', blocks, InsertAt(free, p, blocks[t]), 0, 0)
  {
    var free' := InsertAt(free, p, blocks[t]);
    InsertIn(free, p, blocks[t]);
    forall k | 0 <= k < |free'|
      ensures free'[k] in blocks
    {
      if free'[k] != blocks[t] {
        ListedIn(m, blocks, free, t, t + 1, free'[k]);
      }
    }
    forall i | 0 <= i < |blocks|
      ensures blocks[i] in free' <==> IsFree(m', blocks[i])
    {
      assert BlockOK(m, blocks[i]);
      if i != t {
        BlocksApart(m, blocks, i, t);
      }
    }
  }

  lemma CoalescedAfterAdd(m: Mem, m': Mem, blocks: seq<int>, t: int)
    requires Tagged(m, blocks) && Tagged(m', blocks) && |m| <= |m'| && SameTags(m, m', blocks)
    requires 0 <= t < |blocks| && Coalesced(m, blocks, t, t + 1)
    requires t == 0 || !IsFree(m, blocks[t - 1])
    requires t + 1 == |blocks| || !IsFree(m, blocks[t + 1])
    ensures Coalesced(m', blocks, 0, 0)
  {
    forall i | 0 <= i < |blocks|
      ensures IsFree(m', blocks[i]) == IsFree(m, blocks[i])
    {
      assert BlockOK(m, blocks[i]);
    }
    forall i, j | 0 <= i && j == i + 1 < |blocks|
      ensures !IsFree(m', blocks[i]) || !IsFree(m', blocks[j])
    {
      assert BlockOK(m, blocks[i]) && BlockOK(m, blocks[j]);
    }
  }

  /**
   * Rewriting the header and footer of blocks[i], inside the range, with a
   * tag of the same size: the heap stays consistent and every other block
   * keeps its words.
   */
  lemma Retag(m: Mem, m': Mem, head: int, blocks: seq<int>, free: seq<int>, lo: int, hi: int, i: int, v: Word)
    requires Consistent(m, head, blocks, free, lo, hi) && lo <= i < hi && |m'| == |m|
    requires v % 8 <= 1 && GetSize(v) == BlockSize(m, blocks[i])
    requires Get(m', blocks[i] - 4) == v && Get(m', Ftrp(m, blocks[i])) == v
    requires Same(m, m', 0, blocks[i] - 4) && Same(m, m', Ftrp(m, blocks[i]) + 4, End(m))
    requires blocks[i] in free ==> Same(m, m', blocks[i], Ftrp(m, blocks[i]))
    ensures Consistent(m', head, blocks, free, lo, hi)
    ensures Keeps(m, blocks, free, m', blocks, free, [blocks[i]])
    ensures KeepsFree(m, free, m', free, [blocks[i]])
  {
    var b := blocks[i];
    RetagTagged(m, m', blocks, i, v);
    KeptKeepFree(m, m', blocks, free, [b]);
    RetagLinked(m, m', head, blocks, free, lo, hi, i);
    forall k | 0 <= k < |blocks| && Outside(k, lo, hi)
      ensures Get(m', blocks[k] - 4) == Get(m, blocks[k] - 4)
    {
      assert Kept(m, m', blocks[k]) && BlockOK(m, blocks[k]);
    }
    ListedMove(m, m', blocks, free, free, lo, hi, lo, hi);
    CoalescedMove(m, m', blocks, lo, hi, lo, hi);
    KeepsOthers(m, m', blocks, free, i);
  }

  /** The two PUTs of a tag v carrying the block's own size, in the terms Retag states them. */
  lemma RetagForm(m: Mem, m': Mem, b: int, size: Word, v: Word)
    requires BlockOK(m, b) && size == BlockSize(m, b) && GetSize(v) == size && v % 8 <= 1
    requires Retagged(m, m', b, size, v)
    ensures |m'| == |m| && Get(m', b - 4) == v && Get(m', Ftrp(m, b)) == v
    ensures Same(m, m', 0, b - 4) && Same(m, m', Ftrp(m, b) + 4, End(m)) && Same(m, m', b, Ftrp(m, b))
  {
    var f := Ftrp(m, b);
    assert f == b + size - 8;
    SameAt(m, m', b + size - 4, End(m), f + 4, End(m));
    SameAt(m, m', b, b + size - 8, b, f);
  }

  /** Retag, for the two PUTs of PACK(size, alloc) that SetTags performs on blocks[i]. */
  lemma RetagPair(m: Mem, m': Mem, head: int, blocks: seq<int>, free: seq<int>, lo: int, hi: int, i: int,
                  size: Word, alloc: Word)
    requires Consistent(m, head, blocks, free, lo, hi) && lo <= i < hi && alloc <= 1
    requires InHeap(m, blocks[i] - 4) && size == BlockSize(m, blocks[i])
    requires Retagged(m, m', blocks[i], size, Pack(size, alloc))
    ensures Consistent(m', head, blocks, free, lo, hi)
    ensures Keeps(m, blocks, free, m', blocks, free, [blocks[i]])
    ensures KeepsFree(m, free, m', free, [blocks[i]])
  {
    assert BlockOK(m, blocks[i]);
    RetagForm(m, m', blocks[i], size, Pack(size, alloc));
    Retag(m, m', head, blocks, free, lo, hi, i, Pack(size, alloc));
  }

  /** A block whose two tags are rewritten with its own size is still a well-formed block of the same extent. */
  lemma RetagBlock(m: Mem, m': Mem, b: int, v: Word)
    requires BlockOK(m, b) && |m'| == |m| && v % 8 <= 1 && GetSize(v) == BlockSize(m, b)
    requires Get(m', b - 4) == v && Get(m', Ftrp(m, b)) == v
    ensures BlockOK(m', b) && NextBlkp(m', b) == NextBlkp(m, b) && Ftrp(m, b) + 4 == NextBlkp(m, b) - 4
    ensures Chain(m', [b], b, NextBlkp(m, b))
  {
    assert BlockSize(m', b) == BlockSize(m, b);
    assert Ftrp(m', b) == Ftrp(m, b);
  }

  lemma RetagTagged(m: Mem, m': Mem, blocks: seq<int>, i: int, v: Word)
    requires Tagged(m, blocks) && 0 <= i < |blocks| && |m'| == |m|
    requires v % 8 <= 1 && GetSize(v) == BlockSize(m, blocks[i])
    requires Get(m', blocks[i] - 4) == v && Get(m', Ftrp(m, blocks[i])) == v
    requires Same(m, m', 0, blocks[i] - 4) && Same(m, m', Ftrp(m, blocks[i]) + 4, End(m))
    ensures Tagged(m', blocks)
    ensures forall k :: 0 <= k < |blocks| && k != i ==> Kept(m, m', blocks[k])
  {
    var b := blocks[i];
    assert BlockOK(m, b);
    RetagBlock(m, m', b, v);
    Splice(m, blocks, i, i + 1, m', [b]);
    Unsplit(blocks, i);
  }

  lemma KeepsOthers(m: Mem, m': Mem, blocks: seq<int>, free: seq<int>, i: int)
    requires Tagged(m, blocks) && 0 <= i < |blocks|
    requires forall k :: 0 <= k < |blocks| && k != i ==> Kept(m, m', blocks[k])
    ensures Keeps(m, blocks, free, m', blocks, free, [blocks[i]])
  {
    forall b | b in blocks && b !in free && b !in [blocks[i]]
      ensures BlockOK(m, b) && Kept(m, m', b)
    {
      var k := IndexOf(blocks, b);
      assert BlockOK(m, blocks[k]);
    }
  }

  lemma RetagLinked(m: Mem, m': Mem, head: int, blocks: seq<int>, free: seq<int>, lo: int, hi: int, i: int)
    requires Tagged(m, blocks) && Linked(m, head, free) && Listed(m, blocks, free, lo, hi)
    requires 0 <= i < |blocks| && |m'| == |m|
    requires blocks[i] in free ==> Same(m, m', blocks[i], Ftrp(m, blocks[i]))
    requires forall k :: 0 <= k < |blocks| && k != i ==> Kept(m, m', blocks[k])
    ensures Linked(m', head, free)
  {
    forall k | 0 <= k < |free|
      ensures PrevFree(m', free[k]) == PrevFree(m, free[k]) && NextFree(m', free[k]) == NextFree(m, free[k])
    {
      var j := IndexOf(blocks, free[k]);
      assert BlockOK(m, free[k]);
      if j != i {
        assert Kept(m, m', blocks[j]);
      }
    }
    LinkedKept(m, m', head, free);
  }

  // ---------------------------------------------------------------------
  // Replacing a run of blocks by other blocks covering the same bytes.

  /** Where an entry of the spliced sequence, outside the new middle, comes from. */
  lemma MergeIndex(blocks: seq<int>, mid: seq<int>, lo: int, hi: int, i: int) returns (j: int)
    requires 0 <= lo <= hi <= |blocks| && 0 <= i < |blocks[..lo] + mid + blocks[hi..]|
    requires Outside(i, lo, lo + |mid|)
    ensures j == (if i < lo then i else i - |mid| + hi - lo)
    ensures 0 <= j < |blocks| && Outside(j, lo, hi) && (blocks[..lo] + mid + blocks[hi..])[i] == blocks[j]
  {
    j := if i < lo then i else i - |mid| + hi - lo;
  }

  /** The new blocks lie where the replaced ones were, so none of them is listed. */
  lemma MidUnlisted(m: Mem, m': Mem, blocks: seq<int>, free: seq<int>, lo: int, hi: int, mid: seq<int>)
    requires Tagged(m, blocks) && Listed(m, blocks, free, lo, hi) && 0 <= lo < hi <= |blocks|
    requires forall k :: lo <= k < hi ==> blocks[k] !in free
    requires Chain(m', mid, blocks[lo], NextBlkp(m, blocks[hi - 1]))
    ensures forall k :: 0 <= k < |mid| ==> mid[k] !in free
  {
    forall k | 0 <= k < |mid|
      ensures mid[k] !in free
    {
      Inside(m', mid, blocks[lo], NextBlkp(m, blocks[hi - 1]), k);
      if mid[k] in free {
        var j := IndexOf(blocks, mid[k]);
        ListedIn(m, blocks, free, lo, hi, mid[k]);
        if j < lo {
          assert BlockOK(m, blocks[j]);
          Separated(m, blocks, FIRST, End(m), j, lo);
        } else if hi <= j {
          Separated(m, blocks, FIRST, End(m), hi - 1, j);
        }
      }
    }
  }

  lemma MergeLinked(m: Mem, m': Mem, head: int, blocks: seq<int>, free: seq<int>, lo: int, hi: int)
    requires Tagged(m, blocks) && Linked(m, head, free) && Listed(m, blocks, free, lo, hi)
    requires 0 <= lo <= hi <= |blocks| && |m| <= |m'|
    requires forall k :: lo <= k < hi ==> blocks[k] !in free
    requires forall k :: 0 <= k < lo || hi <= k < |blocks| ==> Kept(m, m', blocks[k])
    ensures Linked(m', head, free)
  {
    forall k | 0 <= k < |free|
      ensures PrevFree(m', free[k]) == PrevFree(m, free[k]) && NextFree(m', free[k]) == NextFree(m, free[k])
    {
      ListedIn(m, blocks, free, lo, hi, free[k]);
      var j := IndexOf(blocks, free[k]);
      assert BlockOK(m, free[k]) && Kept(m, m', blocks[j]);
    }
    LinkedKept(m, m', head, free);
  }

  lemma MergeListed(m: Mem, m': Mem, blocks: seq<int>, free: seq<int>, lo: int, hi: int, mid: seq<int>)
    requires Tagged(m, blocks) && Listed(m, blocks, free, lo, hi) && 0 <= lo <= hi <= |blocks|
    requires Tagged(m', blocks[..lo] + mid + blocks[hi..])
    requires forall k :: lo <= k < hi ==> blocks[k] !in free
    requires forall k :: 0 <= k < lo || hi <= k < |blocks| ==> Kept(m, m', blocks[k])
    requires forall k :: 0 <= k < |mid| ==> mid[k] !in free
    ensures Listed(m', blocks[..lo] + mid + blocks[hi..], free, lo, lo + |mid|)
  {
    MergeSub(blocks, free, lo, hi, mid);
    MergeOut(m, m', blocks, free, lo, hi, mid);
  }

  /** Listed entries, none of them in the replaced run, are still among the blocks. */
  lemma MergeSub(blocks: seq<int>, free: seq<int>, lo: int, hi: int, mid: seq<int>)
    requires 0 <= lo <= hi <= |blocks|
    requires forall k :: 0 <= k < |free| ==> free[k] in blocks
    requires forall k :: lo <= k < hi ==> blocks[k] !in free
    ensures forall k :: 0 <= k < |free| ==> free[k] in blocks[..lo] + mid + blocks[hi..]
  {
    var nb := blocks[..lo] + mid + blocks[hi..];
    forall k | 0 <= k < |free|
      ensures free[k] in nb
    {
      var j := IndexOf(blocks, free[k]);
      if j < lo {
        assert nb[j] == blocks[j];
      } else {
        assert nb[j - hi + lo + |mid|] == blocks[j];
      }
    }
  }

  lemma MergeOut(m: Mem, m': Mem, blocks: seq<int>, free: seq<int>, lo: int, hi: int, mid: seq<int>)
    requires Tagged(m, blocks) && Listed(m, blocks, free, lo, hi) && 0 <= lo <= hi <= |blocks|
    requires Tagged(m', blocks[..lo] + mid + blocks[hi..])
    requires forall k :: 0 <= k < lo || hi <= k < |blocks| ==> Kept(m, m', blocks[k])
    requires forall k :: 0 <= k < |mid| ==> mid[k] !in free
    ensures var nb := blocks[..lo] + mid + blocks[hi..];
      forall i :: 0 <= i < |nb| && Outside(i, lo, lo + |mid|) ==> (nb[i] in free <==> IsFree(m', nb[i]))
  {
    var nb := blocks[..lo] + mid + blocks[hi..];
    forall i | 0 <= i < |nb| && Outside(i, lo, lo + |mid|)
      ensures nb[i] in free <==> IsFree(m', nb[i])
    {
      var j := MergeIndex(blocks, mid, lo, hi, i);
      assert BlockOK(m, blocks[j]) && Kept(m, m', blocks[j]);
      assert Get(m', blocks[j] - 4) == Get(m, blocks[j] - 4);
    }
  }

  lemma MergeCoalesced(m: Mem, m': Mem, blocks: seq<int>, lo: int, hi: int, mid: seq<int>)
    requires Tagged(m, blocks) && Coalesced(m, blocks, lo, hi) && 0 <= lo <= hi <= |blocks| && |mid| > 0
    requires Tagged(m', blocks[..lo] + mid + blocks[hi..])
    requires forall k :: 0 <= k < lo || hi <= k < |blocks| ==> Kept(m, m', blocks[k])
    ensures Coalesced(m', blocks[..lo] + mid + blocks[hi..], lo, lo + |mid|)
  {
    var nb := blocks[..lo] + mid + blocks[hi..];
    forall i, i' | 0 <= i && i' == i + 1 < |nb| && Outside(i, lo, lo + |mid|) && Outside(i', lo, lo + |mid|)
      ensures !IsFree(m', nb[i]) || !IsFree(m', nb[i'])
    {
      var j := MergeIndex(blocks, mid, lo, hi, i);
      var j' := MergeIndex(blocks, mid, lo, hi, i');
      assert BlockOK(m, blocks[j]) && Kept(m, m', blocks[j]);
      assert BlockOK(m, blocks[j']) && Kept(m, m', blocks[j']);
      assert j' == j + 1;
      assert !IsFree(m, blocks[j]) || !IsFree(m, blocks[j']);
    }
  }

  /**
   * Replacing the unlisted blocks[lo..hi] by the blocks mid, which cover the
   * same bytes, while every byte outside them stays: the new blocks are set
   * apart in place of the old ones and every block outside keeps its words.
   */
  lemma Merge(m: Mem, m': Mem, head: int, blocks: seq<int>, free: seq<int>, lo: int, hi: int, mid: seq<int>)
    requires Consistent(m, head, blocks, free, lo, hi) && lo < hi && |m'| == |m|
    requires forall k :: lo <= k < hi ==> blocks[k] !in free
    requires Same(m, m', 0, blocks[lo] - 4)
    requires Same(m, m', NextBlkp(m, blocks[hi - 1]) - 4, End(m))
    requires Chain(m', mid, blocks[lo], NextBlkp(m, blocks[hi - 1]))
    ensures Consistent(m', head, blocks[..lo] + mid + blocks[hi..], free, lo, lo + |mid|)
    ensures Keeps(m, blocks, free, m', blocks[..lo] + mid + blocks[hi..], free, blocks[lo..hi])
    ensures KeepsFree(m, free, m', free, [])
    ensures forall k :: 0 <= k < |mid| ==> mid[k] !in free
  {
    Splice(m, blocks, lo, hi, m', mid);
    KeptKeepFree(m, m', blocks, free, []);
    assert |mid| > 0 by {
      assert BlockOK(m, blocks[lo]) && BlockOK(m, blocks[hi - 1]);
      if lo < hi - 1 {
        ChainOrder(m, blocks, FIRST, End(m), lo, hi - 1);
      }
    }
    MidUnlisted(m, m', blocks, free, lo, hi, mid);
    MergeLinked(m, m', head, blocks, free, lo, hi);
    MergeListed(m, m', blocks, free, lo, hi, mid);
    MergeCoalesced(m, m', blocks, lo, hi, mid);
    MergeKeeps(m, m', blocks, free, lo, hi, mid);
  }

  lemma InSlice(s: seq<int>, lo: int, hi: int, k: int)
    requires 0 <= lo <= k < hi <= |s|
    ensures s[k] in s[lo..hi]
  {
    assert s[lo..hi][k - lo] == s[k];
  }

  lemma MergeKeeps(m: Mem, m': Mem, blocks: seq<int>, free: seq<int>, lo: int, hi: int, mid: seq<int>)
    requires Tagged(m, blocks) && 0 <= lo <= hi <= |blocks|
    requires forall k :: 0 <= k < lo || hi <= k < |blocks| ==> Kept(m, m', blocks[k])
    ensures Keeps(m, blocks, free, m', blocks[..lo] + mid + blocks[hi..], free, blocks[lo..hi])
  {
    var nb := blocks[..lo] + mid + blocks[hi..];
    forall b | b in blocks && b !in free && b !in blocks[lo..hi]
      ensures b in nb && BlockOK(m, b) && Kept(m, m', b)
    {
      var k := IndexOf(blocks, b);
      assert BlockOK(m, blocks[k]);
      if k < lo {
        assert nb[k] == b;
      } else {
        if k < hi {
          InSlice(blocks, lo, hi, k);
        }
        assert nb[k - hi + lo + |mid|] == b;
      }
    }
  }

  // ---------------------------------------------------------------------
  // Composing the frames of several steps.

  lemma KeepsTrans(m0: Mem, blocks0: seq<int>, free0: seq<int>, m1: Mem, blocks1: seq<int>, free1: seq<int>,
                   m2: Mem, blocks2: seq<int>, free2: seq<int>, gone1: seq<int>, gone2: seq<int>)
    requires Keeps(m0, blocks0, free0, m1, blocks1, free1, gone1)
    requires Keeps(m1, blocks1, free1, m2, blocks2, free2, gone2)
    ensures Keeps(m0, blocks0, free0, m2, blocks2, free2, gone1 + gone2)
  {
    forall b | b in blocks0 && b !in free0 && b !in gone1 + gone2
      ensures b in blocks2 && b !in free2 && BlockOK(m0, b) && Kept(m0, m2, b)
    {
      assert b !in gone1 && b !in gone2;
      KeptTrans(m0, m1, m2, b);
    }
  }

  /** Entries of `gone` that were on the list need not be named: they were not held by the program. */
  lemma KeepsLess(m: Mem, blocks: seq<int>, free: seq<int>, m': Mem, blocks': seq<int>, free': seq<int>,
                  gone: seq<int>, gone': seq<int>)
    requires Keeps(m, blocks, free, m', blocks', free', gone)
    requires forall g :: g in gone && g in blocks && g !in free ==> g in gone'
    ensures Keeps(m, blocks, free, m', blocks', free', gone')
  {
  }

  lemma KeepsFreeTrans(m0: Mem, free0: seq<int>, m1: Mem, free1: seq<int>, m2: Mem, free2: seq<int>,
                       gone1: seq<int>, gone2: seq<int>)
    requires KeepsFree(m0, free0, m1, free1, gone1) && KeepsFree(m1, free1, m2, free2, gone2)
    ensures KeepsFree(m0, free0, m2, free2, gone1 + gone2)
  {
    forall b | b in free0 && b !in gone1 + gone2
      ensures b in free2 && InHeap(m0, b - 4) && InHeap(m2, b - 4) && Get(m2, b - 4) == Get(m0, b - 4)
    {
      assert b !in gone1 && b !in gone2;
    }
  }

  /** Entries of `gone` that were not on the list need not be named. */
  lemma KeepsFreeLess(m: Mem, free: seq<int>, m': Mem, free': seq<int>, gone: seq<int>, gone': seq<int>)
    requires KeepsFree(m, free, m', free', gone)
    requires forall g :: g in gone && g in free ==> g in gone'
    ensures KeepsFree(m, free, m', free', gone')
  {
  }

  /**
   * coalesce's two halves: a first step takes the listed blocks of the run
   * blocks[lo..hi] off the list, a second keeps the list; over both steps
   * the list loses exactly the run and keeps every other block as it was.
   */
  lemma RunFrame(m: Mem, free: seq<int>, m1: Mem, f1: seq<int>, m': Mem, blocks: seq<int>, lo: int, hi: int,
                 gone: seq<int>)
    requires 0 <= lo <= hi <= |blocks|
    requires KeepsFree(m, free, m1, f1, gone) && KeepsFree(m1, f1, m', f1, [])
    requires forall b :: b in f1 <==> b in free && b !in gone
    requires forall g :: g in gone ==> g in blocks[lo..hi]
    requires forall k :: lo <= k < hi && blocks[k] in free ==> blocks[k] in gone
    ensures forall b :: b in f1 <==> b in free && b !in blocks[lo..hi]
    ensures KeepsFree(m, free, m', f1, blocks[lo..hi])
  {
    forall b | b in blocks[lo..hi] && b in free
      ensures b in gone
    {
      var i := IndexOf(blocks[lo..hi], b);
      assert blocks[lo + i] == b;
    }
    KeepsFreeTrans(m, free, m1, f1, m', f1, gone, []);
    KeepsFreeLess(m, free, m', f1, gone + [], blocks[lo..hi]);
  }

  /** Merged for coalesce, case 2: the run is blocks[t] and the listed blocks[t + 1]. */
  lemma NextFrame(m: Mem, blocks: seq<int>, free: seq<int>, t: int, m1: Mem, f1: seq<int>, m': Mem, b': seq<int>)
    requires Tagged(m, blocks) && 0 <= t && t + 1 < |blocks| && blocks[t] !in free
    requires (t == 0 || !IsFree(m, blocks[t - 1])) && IsFree(m, blocks[t + 1])
    requires KeepsFree(m, free, m1, f1, [blocks[t + 1]]) && KeepsFree(m1, f1, m', f1, [])
    requires forall b :: b in f1 <==> b in free && b != blocks[t + 1]
    requires b' == blocks[..t] + [blocks[t]] + blocks[t + 2..]
    ensures Merged(m, blocks, free, t, m', b', f1, blocks[t], t)
  {
    assert blocks[t..t + 2] == [blocks[t], blocks[t + 1]];
    RunFrame(m, free, m1, f1, m', blocks, t, t + 2, [blocks[t + 1]]);
    MergedIntro(m, blocks, free, t, m', b', f1, blocks[t], t, t + 2);
  }

  /** Merged for coalesce, case 3: the run is the listed blocks[t - 1] and blocks[t]. */
  lemma PrevFrame(m: Mem, blocks: seq<int>, free: seq<int>, t: int, m1: Mem, f1: seq<int>, m': Mem, b': seq<int>)
    requires Tagged(m, blocks) && 0 < t < |blocks| && blocks[t] !in free
    requires IsFree(m, blocks[t - 1]) && (t + 1 == |blocks| || !IsFree(m, blocks[t + 1]))
    requires KeepsFree(m, free, m1, f1, [blocks[t - 1]]) && KeepsFree(m1, f1, m', f1, [])
    requires forall b :: b in f1 <==> b in free && b != blocks[t - 1]
    requires b' == blocks[..t - 1] + [blocks[t - 1]] + blocks[t + 1..]
    ensures Merged(m, blocks, free, t, m', b', f1, blocks[t - 1], t - 1)
  {
    assert blocks[t - 1..t + 1] == [blocks[t - 1], blocks[t]];
    RunFrame(m, free, m1, f1, m', blocks, t - 1, t + 1, [blocks[t - 1]]);
    MergedIntro(m, blocks, free, t, m', b', f1, blocks[t - 1], t - 1, t + 1);
  }

  /** Merged for coalesce, case 4: the run is the listed blocks[t - 1], blocks[t] and the listed blocks[t + 1]. */
  lemma BothFrame(m: Mem, blocks: seq<int>, free: seq<int>, t: int, m1: Mem, f1: seq<int>, m': Mem, b': seq<int>)
    requires Tagged(m, blocks) && 0 < t && t + 1 < |blocks| && blocks[t] !in free
    requires IsFree(m, blocks[t - 1]) && IsFree(m, blocks[t + 1])
    requires KeepsFree(m, free, m1, f1, [blocks[t - 1], blocks[t + 1]]) && KeepsFree(m1, f1, m', f1, [])
    requires forall b :: b in f1 <==> b in free && b != blocks[t - 1] && b != blocks[t + 1]
    requires b' == blocks[..t - 1] + [blocks[t - 1]] + blocks[t + 2..]
    ensures Merged(m, blocks, free, t, m', b', f1, blocks[t - 1], t - 1)
  {
    assert blocks[t - 1..t + 2] == [blocks[t - 1], blocks[t], blocks[t + 1]];
    RunFrame(m, free, m1, f1, m', blocks, t - 1, t + 2, [blocks[t - 1], blocks[t + 1]]);
    MergedIntro(m, blocks, free, t, m', b', f1, blocks[t - 1], t - 1, t + 2);
  }

  /**
   * coalesce's final addBlock of the merged block r = blocks[lo]: with the
   * run's blocks off the list and r on it, the view is the merged one.
   */
  lemma CoalesceFrame(m: Mem, free: seq<int>, m1: Mem, f1: seq<int>, m': Mem, free': seq<int>,
                      blocks: seq<int>, b1: seq<int>, lo: int, hi: int, r: int)
    requires 0 <= lo < hi <= |blocks| && r == blocks[lo] && b1 == blocks[..lo] + [r] + blocks[hi..]
    requires forall b :: b in f1 <==> b in free && b !in blocks[lo..hi]
    requires forall b :: b in free' <==> b in f1 || b == r
    requires KeepsFree(m, free, m1, f1, blocks[lo..hi]) && KeepsFree(m1, f1, m', free', [])
    ensures MergedView(blocks, free, lo, hi, b1, free') && KeepsFree(m, free, m', free', blocks[lo..hi])
  {
    KeepsFreeTrans(m, free, m1, f1, m', free', blocks[lo..hi], []);
    KeepsFreeLess(m, free, m', free', blocks[lo..hi] + [], blocks[lo..hi]);
  }

  /**
   * extend_heap's coalesce of the new block e at the old break: the merged
   * block r is e itself, or the last block when e was merged into it; the
   * list gains r and loses nothing else.
   */
  lemma ExtendFrame(m0: Mem, free: seq<int>, m1: Mem, m': Mem, free': seq<int>, blocks: seq<int>, blocks': seq<int>,
                    e: int, nb: seq<int>, lo: int, hi: int)
    requires nb == blocks + [e] && e !in blocks && e !in free
    requires 0 <= lo && |blocks| - 1 <= lo <= |blocks| && hi == |nb|
    requires KeepsFree(m0, free, m1, free, [])
    requires MergedView(nb, free, lo, hi, blocks', free')
    requires KeepsFree(m1, free, m', free', nb[lo..hi])
    ensures lo < |blocks'| && blocks'[lo] == nb[lo]
    ensures blocks' == (if blocks'[lo] == e then blocks + [e] else blocks)
    ensures forall b :: b in free' <==> b in free || b == blocks'[lo]
    ensures KeepsFree(m0, free, m', free', [blocks'[lo]])
  {
    var n := |blocks|;
    if lo < n {
      assert nb[lo..hi] == [blocks[n - 1], e] && nb[lo] == blocks[n - 1] != e;
      assert nb[..lo] + [nb[lo]] + nb[hi..] == blocks;
    } else {
      assert nb[lo..hi] == [e];
      assert nb[..lo] + [nb[lo]] + nb[hi..] == nb;
    }
    KeepsFreeTrans(m0, free, m1, free, m', free', [], nb[lo..hi]);
    KeepsFreeLess(m0, free, m', free', [] + nb[lo..hi], [nb[lo]]);
  }

  /** A step that keeps every block's header and keeps listed the listed blocks outside `gone`. */
  lemma TagsKeepFree(m: Mem, m': Mem, blocks: seq<int>, free: seq<int>, free': seq<int>, gone: seq<int>)
    requires Tagged(m, blocks) && |m| <= |m'| && SameTags(m, m', blocks)
    requires forall k :: 0 <= k < |free| ==> free[k] in blocks
    requires forall b :: b in free && b !in gone ==> b in free'
    ensures KeepsFree(m, free, m', free', gone)
  {
    forall b | b in free && b !in gone
      ensures InHeap(m, b - 4) && InHeap(m', b - 4) && Get(m', b - 4) == Get(m, b - 4)
    {
      var i := IndexOf(free, b);
      var k := IndexOf(blocks, free[i]);
      TagKept(m, m', blocks, k);
    }
  }

  /** A retag that keeps bp's listed neighbours, then removeBlock(bp): the list keeps every other listed block. */
  lemma UnlistFrame(m: Mem, free: seq<int>, m1: Mem, m': Mem, blocks: seq<int>, free': seq<int>, bp: int)
    requires Tagged(m1, blocks) && |m1| <= |m'| && SameTags(m1, m', blocks)
    requires forall k :: 0 <= k < |free| ==> free[k] in blocks
    requires forall b :: b in free' <==> b in free && b != bp
    requires KeepsFree(m, free, m1, free, [bp])
    ensures KeepsFree(m, free, m', free', [bp])
  {
    TagsKeepFree(m1, m', blocks, free, free', [bp]);
    KeepsFreeTrans(m, free, m1, free, m', free', [bp], [bp]);
    KeepsFreeLess(m, free, m', free', [bp] + [bp], [bp]);
  }

  /** A step that keeps the words of every listed block outside `gone` and leaves the list as it is. */
  lemma KeptKeepFree(m: Mem, m': Mem, blocks: seq<int>, free: seq<int>, gone: seq<int>)
    requires Tagged(m, blocks) && |m| <= |m'|
    requires forall k :: 0 <= k < |free| ==> free[k] in blocks
    requires forall k :: 0 <= k < |blocks| && blocks[k] in free && blocks[k] !in gone ==> Kept(m, m', blocks[k])
    ensures KeepsFree(m, free, m', free, gone)
  {
    forall b | b in free && b !in gone
      ensures InHeap(m, b - 4) && InHeap(m', b - 4) && Get(m', b - 4) == Get(m, b - 4)
    {
      var i := IndexOf(free, b);
      var k := IndexOf(blocks, free[i]);
      assert BlockOK(m, blocks[k]) && Kept(m, m', blocks[k]);
    }
  }

  /** Between operations the range can be put anywhere. */
  lemma Widen(m: Mem, head: int, blocks: seq<int>, free: seq<int>, lo: int, hi: int)
    requires Consistent(m, head, blocks, free, 0, 0) && 0 <= lo <= hi <= |blocks|
    ensures Consistent(m, head, blocks, free, lo, hi)
  {
  }

  /** A block that is off the list is a list node whose link words are clear of every listed block. */
  lemma ApartFromList(m: Mem, blocks: seq<int>, free: seq<int>, lo: int, hi: int, t: int)
    requires Tagged(m, blocks) && Listed(m, blocks, free, lo, hi) && 0 <= t < |blocks| && blocks[t] !in free
    ensures IsNode(m, blocks[t]) && forall i :: 0 <= i < |free| ==> Apart(blocks[t], free[i])
  {
    assert BlockOK(m, blocks[t]);
    forall i | 0 <= i < |free|
      ensures Apart(blocks[t], free[i])
    {
      ListedIn(m, blocks, free, lo, hi, free[i]);
      var k := IndexOf(blocks, free[i]);
      BlocksApart(m, blocks, t, k);
    }
  }

  /** Two distinct blocks do not overlap. */
  lemma Disjoint(m: Mem, blocks: seq<int>, b: int, c: int)
    requires Tagged(m, blocks) && b in blocks && c in blocks && b != c
    ensures BlockOK(m, b) && BlockOK(m, c)
    ensures NextBlkp(m, b) <= c || NextBlkp(m, c) <= b
  {
    var i := IndexOf(blocks, b);
    var j := IndexOf(blocks, c);
    assert BlockOK(m, b) && BlockOK(m, c);
    Separated(m, blocks, FIRST, End(m), i, j);
  }

  // ---------------------------------------------------------------------
  // What coalesce reads about the neighbours of a block.

  /**
   * GET_ALLOC(FTRP(PREV_BLKP(bp))): PREV_BLKP finds the preceding block (the
   * prologue before the first one), its footer lies just below bp, and its
   * allocated bit is 0 exactly when a preceding regular block is free.
   */
  lemma PrevAllocBit(m: Mem, blocks: seq<int>, t: int)
    requires Tagged(m, blocks) && 0 <= t < |blocks|
    ensures InHeap(m, blocks[t] - 8) && PrevBlkp(m, blocks[t]) == (if t == 0 then PROLOGUE else blocks[t - 1])
    ensures InHeap(m, PrevBlkp(m, blocks[t]) - 4) && Ftrp(m, PrevBlkp(m, blocks[t])) == blocks[t] - 8
    ensures GetAlloc(Get(m, blocks[t] - 8)) == if t > 0 && IsFree(m, blocks[t - 1]) then 0 else 1
  {
    BoundaryTags(m, blocks, t);
    if t > 0 {
      BoundaryTags(m, blocks, t - 1);
      assert BlockOK(m, blocks[t - 1]);
    } else {
      assert blocks[0] == FIRST;
    }
  }

  /**
   * GET_ALLOC(HDRP(NEXT_BLKP(bp))): NEXT_BLKP finds the following block (the
   * epilogue after the last one), and its allocated bit is 0 exactly when a
   * following regular block is free.
   */
  lemma NextAllocBit(m: Mem, blocks: seq<int>, t: int)
    requires Tagged(m, blocks) && 0 <= t < |blocks|
    ensures InHeap(m, blocks[t] - 4) && InHeap(m, NextBlkp(m, blocks[t]) - 4)
    ensures NextBlkp(m, blocks[t]) == if t + 1 < |blocks| then blocks[t + 1] else End(m)
    ensures GetAlloc(Get(m, NextBlkp(m, blocks[t]) - 4)) == if t + 1 < |blocks| && IsFree(m, blocks[t + 1]) then 0 else 1
  {
    BoundaryTags(m, blocks, t);
    if t + 1 < |blocks| {
      assert BlockOK(m, blocks[t + 1]);
    }
  }

  // ---------------------------------------------------------------------
  // The tag rewrites of extend_heap, coalesce and placeBlock.

  /**
   * extend_heap: the old epilogue becomes the header of a new free block of
   * `size` bytes at the old break, with its footer and a new epilogue after
   * it; the new block is set apart and every old block keeps its words.
   */
  lemma Grow(m: Mem, m': Mem, head: int, blocks: seq<int>, free: seq<int>, size: Word)
    requires Consistent(m, head, blocks, free, 0, 0)
    requires size % 8 == 0 && size >= MINBLOCK && End(m') == End(m) + size < 0x1_0000_0000
    requires Get(m', End(m) - 4) == Pack(size, 0) && Get(m', End(m) + size - 8) == Pack(size, 0)
    requires Get(m', End(m') - 4) == Pack(0, 1)
    requires Same(m, m', 0, End(m) - 4)
    ensures Consistent(m', head, blocks + [End(m)], free, |blocks|, |blocks| + 1)
    ensures End(m) !in free && IsFree(m', End(m)) && BlockSize(m', End(m)) == size
    ensures Keeps(m, blocks, free, m', blocks + [End(m)], free, [])
    ensures KeepsFree(m, free, m', free, [])
  {
    var e, n := End(m), |blocks|;
    GrowTagged(m, m', blocks, size);
    KeptKeepFree(m, m', blocks, free, []);
    MergeLinked(m, m', head, blocks, free, n, n);
    GrowUnlisted(m, blocks, free);
    GrowListed(m, m', blocks, free);
    GrowCoalesced(m, m', blocks);
    GrowKeeps(m, m', blocks, free);
  }

  lemma GrowListed(m: Mem, m': Mem, blocks: seq<int>, free: seq<int>)
    requires Tagged(m, blocks) && Listed(m, blocks, free, 0, 0) && End(m) !in free
    requires Tagged(m', blocks + [End(m)])
    requires forall k :: 0 <= k < |blocks| ==> Kept(m, m', blocks[k])
    ensures Listed(m', blocks + [End(m)], free, |blocks|, |blocks| + 1)
  {
    var nb := blocks + [End(m)];
    forall k | 0 <= k < |free|
      ensures free[k] in nb
    {
      assert free[k] in blocks;
    }
    forall i | 0 <= i < |nb| && Outside(i, |blocks|, |blocks| + 1)
      ensures nb[i] in free <==> IsFree(m', nb[i])
    {
      assert nb[i] == blocks[i] && BlockOK(m, blocks[i]) && Kept(m, m', blocks[i]);
    }
  }

  lemma GrowCoalesced(m: Mem, m': Mem, blocks: seq<int>)
    requires Tagged(m, blocks) && Coalesced(m, blocks, 0, 0)
    requires Tagged(m', blocks + [End(m)])
    requires forall k :: 0 <= k < |blocks| ==> Kept(m, m', blocks[k])
    ensures Coalesced(m', blocks + [End(m)], |blocks|, |blocks| + 1)
  {
    var nb := blocks + [End(m)];
    forall i, j | 0 <= i && j == i + 1 < |nb| && Outside(i, |blocks|, |blocks| + 1) && Outside(j, |blocks|, |blocks| + 1)
      ensures !IsFree(m', nb[i]) || !IsFree(m', nb[j])
    {
      assert j < |blocks|;
      assert nb[i] == blocks[i] && BlockOK(m, blocks[i]) && Kept(m, m', blocks[i]);
      assert nb[j] == blocks[j] && BlockOK(m, blocks[j]) && Kept(m, m', blocks[j]);
    }
  }

  lemma GrowKeeps(m: Mem, m': Mem, blocks: seq<int>, free: seq<int>)
    requires Tagged(m, blocks)
    requires forall k :: 0 <= k < |blocks| ==> Kept(m, m', blocks[k])
    ensures Keeps(m, blocks, free, m', blocks + [End(m)], free, [])
  {
    forall b | b in blocks && b !in free
      ensures b in blocks + [End(m)] && BlockOK(m, b) && Kept(m, m', b)
    {
      var j := IndexOf(blocks, b);
    }
  }

  lemma GrowTagged(m: Mem, m': Mem, blocks: seq<int>, size: Word)
    requires Tagged(m, blocks)
    requires size % 8 == 0 && size >= MINBLOCK && End(m') == End(m) + size < 0x1_0000_0000
    requires Get(m', End(m) - 4) == Pack(size, 0) && Get(m', End(m) + size - 8) == Pack(size, 0)
    requires Get(m', End(m') - 4) == Pack(0, 1)
    requires Same(m, m', 0, End(m) - 4)
    ensures Tagged(m', blocks + [End(m)])
    ensures forall k :: 0 <= k < |blocks| ==> Kept(m, m', blocks[k])
    ensures IsFree(m', End(m)) && BlockSize(m', End(m)) == size
  {
    var e := End(m);
    EndAligned(m, blocks);
    ChainKept(m, m', blocks, FIRST, e);
    OneBlock(m', e, size, 0);
    ChainAppend(m', blocks, [e], FIRST, e, End(m'));
  }

  /** Every listed block lies below the break. */
  lemma GrowUnlisted(m: Mem, blocks: seq<int>, free: seq<int>)
    requires Tagged(m, blocks) && Listed(m, blocks, free, 0, 0)
    ensures End(m) !in free
  {
    forall k | 0 <= k < |free|
      ensures free[k] != End(m)
    {
      ListedIn(m, blocks, free, 0, 0, free[k]);
      var j := IndexOf(blocks, free[k]);
      assert BlockOK(m, blocks[j]);
    }
  }

  /** A header and a matching footer `size` bytes apart make one block. */
  lemma OneBlock(m: Mem, a: int, size: Word, alloc: Word)
    requires a % 8 == 0 && FIRST <= a && a + size <= End(m) && size % 8 == 0 && size >= MINBLOCK && alloc <= 1
    requires Get(m, a - 4) == Pack(size, alloc) && Get(m, a + size - 8) == Pack(size, alloc)
    ensures Chain(m, [a], a, a + size) && BlockSize(m, a) == size && (IsFree(m, a) <==> alloc == 0)
  {
    var w := Get(m, a - 4);
    Unpack(size, alloc);
    assert Ftrp(m, a) == a + size - 8;
    assert BlockOK(m, a);
  }

  /** The run blocks[lo..hi] spans at least a minimum block, on an 8-byte grid. */
  lemma RunSpan(m: Mem, blocks: seq<int>, lo: int, hi: int)
    requires Tagged(m, blocks) && 0 <= lo < hi <= |blocks|
    ensures BlockOK(m, blocks[lo]) && BlockOK(m, blocks[hi - 1])
    ensures blocks[lo] % 8 == 0 && FIRST <= blocks[lo]
    ensures blocks[lo] + MINBLOCK <= NextBlkp(m, blocks[hi - 1]) <= End(m)
    ensures (NextBlkp(m, blocks[hi - 1]) - blocks[lo]) % 8 == 0
  {
    var a, b := blocks[lo], blocks[hi - 1];
    assert BlockOK(m, a) && BlockOK(m, b);
    if lo < hi - 1 {
      ChainOrder(m, blocks, FIRST, End(m), lo, hi - 1);
    }
    Grid(b, BlockSize(m, b), a);
  }


  /** The headers of the blocks either side of the run blocks[lo..hi] are outside the rewritten span. */
  lemma Flanks(m: Mem, m': Mem, blocks: seq<int>, lo: int, hi: int)
    requires Tagged(m, blocks) && 0 <= lo < hi <= |blocks|
    requires Same(m, m', 0, blocks[lo] - 4) && Same(m, m', NextBlkp(m, blocks[hi - 1]) - 4, End(m))
    ensures lo > 0 ==> Get(m', blocks[lo - 1] - 4) == Get(m, blocks[lo - 1] - 4)
    ensures hi < |blocks| ==> Get(m', blocks[hi] - 4) == Get(m, blocks[hi] - 4)
  {
    if lo > 0 {
      Separated(m, blocks, FIRST, End(m), lo - 1, lo);
      assert BlockOK(m, blocks[lo - 1]);
    }
    if hi < |blocks| {
      BoundaryTags(m, blocks, hi - 1);
      assert BlockOK(m, blocks[hi]);
    }
  }

  /**
   * coalesce: a new header at blocks[lo] and a new footer at the end of
   * blocks[hi - 1] make the words of blocks[lo..hi] one free block; the
   * neighbours' headers are untouched.
   */
  lemma Fuse(m: Mem, m': Mem, blocks: seq<int>, lo: int, hi: int, size: Word)
    requires Tagged(m, blocks) && 0 <= lo < hi <= |blocks| && |m'| == |m|
    requires size % 8 == 0 && blocks[lo] + size == NextBlkp(m, blocks[hi - 1])
    requires Get(m', blocks[lo] - 4) == Pack(size, 0) && Get(m', blocks[lo] + size - 8) == Pack(size, 0)
    requires Same(m, m', 0, blocks[lo] - 4) && Same(m, m', blocks[lo] + size - 4, End(m))
    ensures Chain(m', [blocks[lo]], blocks[lo], NextBlkp(m, blocks[hi - 1]))
    ensures IsFree(m', blocks[lo]) && BlockSize(m', blocks[lo]) == size
    ensures lo > 0 ==> Get(m', blocks[lo - 1] - 4) == Get(m, blocks[lo - 1] - 4)
    ensures hi < |blocks| ==> Get(m', blocks[hi] - 4) == Get(m, blocks[hi] - 4)
  {
    RunSpan(m, blocks, lo, hi);
    OneBlock(m', blocks[lo], size, 0);
    Flanks(m, m', blocks, lo, hi);
  }

  /**
   * The tags placeBlock writes when it splits block t into an allocated
   * block of asize bytes and a free remainder of rest bytes form a chain of
   * two blocks over the same words; the neighbours' headers are untouched.
   */
  lemma Split(m: Mem, m': Mem, blocks: seq<int>, t: int, asize: Word, rest: Word)
    requires Tagged(m, blocks) && 0 <= t < |blocks| && |m'| == |m|
    requires asize % 8 == 0 && rest % 8 == 0 && asize >= MINBLOCK && rest >= MINBLOCK
    requires asize + rest == BlockSize(m, blocks[t])
    requires Get(m', blocks[t] - 4) == Pack(asize, 1) && Get(m', blocks[t] + asize - 8) == Pack(asize, 1)
    requires Get(m', blocks[t] + asize - 4) == Pack(rest, 0) && Get(m', blocks[t] + asize + rest - 8) == Pack(rest, 0)
    requires Same(m, m', 0, blocks[t] - 4) && Same(m, m', blocks[t] + asize + rest - 4, End(m))
    ensures NextBlkp(m, blocks[t]) == blocks[t] + asize + rest
    ensures Chain(m', [blocks[t], blocks[t] + asize], blocks[t], NextBlkp(m, blocks[t]))
    ensures !IsFree(m', blocks[t]) && BlockSize(m', blocks[t]) == asize
    ensures IsFree(m', blocks[t] + asize) && BlockSize(m', blocks[t] + asize) == rest
    ensures t + 1 < |blocks| ==> Get(m', blocks[t + 1] - 4) == Get(m, blocks[t + 1] - 4)
  {
    RunSpan(m, blocks, t, t + 1);
    SplitTags(m', blocks[t], asize, rest);
    Flanks(m, m', blocks, t, t + 1);
  }

  /**
   * The merge step of Split, on the block sequence nb the split produces:
   * the allocated first half is settled, the free second half is pending.
   */
  lemma SplitMerge(m: Mem, m': Mem, head: int, blocks: seq<int>, free: seq<int>, t: int, mid: seq<int>, nb: seq<int>)
    requires Consistent(m, head, blocks, free, t, t + 1) && blocks[t] !in free && |m'| == |m|
    requires |mid| == 2 && nb == blocks[..t] + mid + blocks[t + 1..]
    requires Same(m, m', 0, blocks[t] - 4) && Same(m, m', NextBlkp(m, blocks[t]) - 4, End(m))
    requires Chain(m', mid, blocks[t], NextBlkp(m, blocks[t])) && !IsFree(m', mid[0])
    ensures Consistent(m', head, nb, free, t + 1, t + 2)
    ensures Keeps(m, blocks, free, m', nb, free, blocks[t..t + 1])
    ensures KeepsFree(m, free, m', free, [])
    ensures nb[t] == mid[0] && nb[t + 1] == mid[1] && mid[1] !in free
  {
    Merge(m, m', head, blocks, free, t, t + 1, mid);
    Settle(m', head, nb, free, t, t + 2);
  }

  /**
   * coalesce's merge: once the run blocks[lo..hi] is off the list and the
   * new header and footer are written, the run is one free block, set apart
   * in place of the run, and its non-free neighbours stay non-free.
   */
  lemma FuseMerge(m: Mem, m': Mem, head: int, blocks: seq<int>, free: seq<int>, lo: int, hi: int, size: Word,
                  nb: seq<int>)
    requires Consistent(m, head, blocks, free, lo, hi) && lo < hi && |m'| == |m|
    requires forall k :: lo <= k < hi ==> blocks[k] !in free
    requires lo == 0 || !IsFree(m, blocks[lo - 1])
    requires hi == |blocks| || !IsFree(m, blocks[hi])
    requires size % 8 == 0 && blocks[lo] + size == NextBlkp(m, blocks[hi - 1])
    requires Get(m', blocks[lo] - 4) == Pack(size, 0) && Get(m', blocks[lo] + size - 8) == Pack(size, 0)
    requires Same(m, m', 0, blocks[lo] - 4) && Same(m, m', blocks[lo] + size - 4, End(m))
    requires nb == blocks[..lo] + [blocks[lo]] + blocks[hi..]
    ensures Consistent(m', head, nb, free, lo, lo + 1)
    ensures nb[lo] == blocks[lo] && blocks[lo] !in free
    ensures IsFree(m', nb[lo]) && BlockSize(m', nb[lo]) == size
    ensures lo == 0 || !IsFree(m', nb[lo - 1])
    ensures lo + 1 == |nb| || !IsFree(m', nb[lo + 1])
    ensures Keeps(m, blocks, free, m', nb, free, blocks[lo..hi])
    ensures KeepsFree(m, free, m', free, [])
  {
    Fuse(m, m', blocks, lo, hi, size);
    Merge(m, m', head, blocks, free, lo, hi, [blocks[lo]]);
    if lo > 0 {
      assert nb[lo - 1] == blocks[lo - 1] && BlockOK(m, blocks[lo - 1]);
    }
    if hi < |blocks| {
      assert nb[lo + 1] == blocks[hi] && BlockOK(m, blocks[hi]);
    }
  }

  /** A free block's header and footer are PACK(size, 0). */
  lemma FreeTag(m: Mem, b: int)
    requires BlockOK(m, b) && IsFree(m, b)
    ensures Get(m, b - 4) == Pack(BlockSize(m, b), 0) && Get(m, Ftrp(m, b)) == Pack(BlockSize(m, b), 0)
  {
    var w := Get(m, b - 4);
    var q := w / 8;
    assert w == 8 * q + w % 8;
    Parity(4 * q, w % 8);
  }

  lemma SplitTags(m: Mem, b: int, asize: Word, rest: Word)
    requires b % 8 == 0 && FIRST <= b && b + asize + rest <= End(m)
    requires asize % 8 == 0 && rest % 8 == 0 && asize >= MINBLOCK && rest >= MINBLOCK
    requires Get(m, b - 4) == Pack(asize, 1) && Get(m, b + asize - 8) == Pack(asize, 1)
    requires Get(m, b + asize - 4) == Pack(rest, 0) && Get(m, b + asize + rest - 8) == Pack(rest, 0)
    ensures Chain(m, [b, b + asize], b, b + asize + rest)
    ensures !IsFree(m, b) && BlockSize(m, b) == asize
    ensures IsFree(m, b + asize) && BlockSize(m, b + asize) == rest
  {
    Grid(b, asize, 0);
    OneBlock(m, b, asize, 1);
    OneBlock(m, b + asize, rest, 0);
    ChainAppend(m, [b], [b + asize], b, b + asize, b + asize + rest);
    assert [b] + [b + asize] == [b, b + asize];
  }

  // ---------------------------------------------------------------------
  // Checkpoints between the steps of coalesce, placeBlock and mm_free.

  /**
   * Inside extend_heap and mm_free, just before coalesce: blocks[t] is free
   * by its tags but not listed, and is the only block set apart.
   */
  ghost predicate Pending(m: Mem, head: int, blocks: seq<int>, free: seq<int>, t: int)
  {
    Consistent(m, head, blocks, free, t, t + 1) && t < |blocks| && blocks[t] !in free && IsFree(m, blocks[t])
  }

  /** Where the run coalesce makes one block of, around a pending blocks[t], starts: at t - 1 when that block is free. */
  ghost function RunLo(m: Mem, blocks: seq<int>, t: int): (lo: int)
    requires Tagged(m, blocks) && 0 <= t < |blocks|
    ensures 0 <= lo && t - 1 <= lo <= t
  {
    if t > 0 && IsFree(m, blocks[t - 1]) then t - 1 else t
  }

  /** Where that run ends: past t + 1 when that block is free. */
  ghost function RunHi(m: Mem, blocks: seq<int>, t: int): (hi: int)
    requires Tagged(m, blocks) && 0 <= t < |blocks|
    ensures t + 1 <= hi <= t + 2 && hi <= |blocks|
  {
    if t + 1 < |blocks| && IsFree(m, blocks[t + 1]) then t + 2 else t + 1
  }

  /** blocks[lo..hi] are off the list, set apart, and flanked by blocks that are not free. */
  ghost predicate Run(m: Mem, head: int, blocks: seq<int>, free: seq<int>, lo: int, hi: int)
  {
    && Consistent(m, head, blocks, free, lo, hi) && lo < hi
    && (forall k :: lo <= k < hi ==> blocks[k] !in free)
    && (lo == 0 || !IsFree(m, blocks[lo - 1]))
    && (hi == |blocks| || !IsFree(m, blocks[hi]))
  }

  /**
   * What merging the run around blocks[t] into the block r at index t' does
   * to the view: the run gives way to r in the block sequence, its blocks
   * leave the list, and every other listed block stays listed as it was.
   */
  ghost predicate Merged(m: Mem, blocks: seq<int>, free: seq<int>, t: int,
                         m1: Mem, b1: seq<int>, f1: seq<int>, r: int, t': int)
    requires Tagged(m, blocks) && 0 <= t < |blocks|
  {
    && t' == RunLo(m, blocks, t) && b1 == blocks[..t'] + [r] + blocks[RunHi(m, blocks, t)..]
    && (forall b :: b in f1 <==> b in free && b !in blocks[t'..RunHi(m, blocks, t)])
    && KeepsFree(m, free, m1, f1, blocks[t'..RunHi(m, blocks, t)])
  }

  /** coalesce with both neighbours allocated: the pending block is a run by itself. */
  lemma Isolated(m: Mem, head: int, blocks: seq<int>, free: seq<int>, t: int)
    requires Pending(m, head, blocks, free, t)
    requires t == 0 || !IsFree(m, blocks[t - 1])
    requires t + 1 == |blocks| || !IsFree(m, blocks[t + 1])
    ensures Run(m, head, blocks, free, t, t + 1) && IsFree(m, blocks[t])
    ensures Merged(m, blocks, free, t, m, blocks, free, blocks[t], t)
  {
    assert blocks[t..t + 1] == [blocks[t]];
    assert blocks == blocks[..t] + [blocks[t]] + blocks[t + 1..];
    TagsKeepFree(m, m, blocks, free, free, blocks[t..t + 1]);
    MergedIntro(m, blocks, free, t, m, blocks, free, blocks[t], t, t + 1);
  }

  /** Merged, from its parts with the run's bounds named. */
  lemma MergedIntro(m: Mem, blocks: seq<int>, free: seq<int>, t: int,
                    m1: Mem, b1: seq<int>, f1: seq<int>, r: int, lo: int, hi: int)
    requires Tagged(m, blocks) && 0 <= t < |blocks|
    requires lo == RunLo(m, blocks, t) && hi == RunHi(m, blocks, t)
    requires b1 == blocks[..lo] + [r] + blocks[hi..]
    requires forall b :: b in f1 <==> b in free && b !in blocks[lo..hi]
    requires KeepsFree(m, free, m1, f1, blocks[lo..hi])
    ensures Merged(m, blocks, free, t, m1, b1, f1, r, lo)
  {
  }

  /**
   * What coalesce's four cases leave, up to the final addBlock: the run
   * around the pending blocks[t] is one free block r at b1[t'], off the list
   * and flanked by blocks that are not free; r starts where the run starts
   * and ends where it ends; every block the program holds is kept, and the
   * view changes as Merged says.
   */
  ghost predicate MergedRun(m: Mem, blocks: seq<int>, free: seq<int>, t: int,
                            m1: Mem, h1: int, b1: seq<int>, f1: seq<int>, r: int, t': int)
    requires Tagged(m, blocks) && 0 <= t < |blocks|
  {
    && |m1| == |m| && Run(m1, h1, b1, f1, t', t' + 1) && b1[t'] == r && IsFree(m1, b1[t'])
    && t' == RunLo(m, blocks, t) && r == blocks[t']
    && NextBlkp(m1, b1[t']) == NextBlkp(m, blocks[RunHi(m, blocks, t) - 1])
    && Keeps(m, blocks, free, m1, b1, f1, [blocks[t]]) && (r == blocks[t] || r in free)
    && Merged(m, blocks, free, t, m1, b1, f1, r, t')
  }

  /** A free block outside the range is on the list. */
  lemma FreeListed(m: Mem, head: int, blocks: seq<int>, free: seq<int>, lo: int, hi: int, k: int)
    requires Consistent(m, head, blocks, free, lo, hi) && 0 <= k < |blocks| && Outside(k, lo, hi)
    requires IsFree(m, blocks[k])
    ensures blocks[k] in free
  {
  }

  /** A block whose header a step kept has the same size and free bit. */
  lemma TagKept(m: Mem, m': Mem, blocks: seq<int>, k: int)
    requires Tagged(m, blocks) && |m| <= |m'| && SameTags(m, m', blocks) && 0 <= k < |blocks|
    ensures InHeap(m, blocks[k] - 4) && InHeap(m', blocks[k] - 4)
    ensures Get(m', blocks[k] - 4) == Get(m, blocks[k] - 4)
    ensures BlockSize(m', blocks[k]) == BlockSize(m, blocks[k]) && (IsFree(m', blocks[k]) <==> IsFree(m, blocks[k]))
  {
    assert BlockOK(m, blocks[k]);
  }

  lemma SameTagsTrans(m0: Mem, m1: Mem, m2: Mem, blocks: seq<int>)
    requires Tagged(m0, blocks) && Tagged(m1, blocks) && |m0| <= |m1| <= |m2|
    requires SameTags(m0, m1, blocks) && SameTags(m1, m2, blocks)
    ensures SameTags(m0, m2, blocks)
  {
  }

  /** The blocks either side of blocks[t] lie below and above it. */
  lemma Neighbours(m: Mem, blocks: seq<int>, t: int)
    requires Tagged(m, blocks) && 0 < t && t + 1 < |blocks|
    ensures blocks[t - 1] < blocks[t] < blocks[t + 1]
  {
    assert BlockOK(m, blocks[t - 1]) && BlockOK(m, blocks[t]);
  }

  /** The block that ends where blocks[i] starts is blocks[i - 1], the one PREV_BLKP finds. */
  lemma Predecessor(m: Mem, blocks: seq<int>, i: int, j: int)
    requires Tagged(m, blocks) && 0 <= i < |blocks| && 0 <= j < |blocks|
    requires InHeap(m, blocks[j] - 4) && NextBlkp(m, blocks[j]) == blocks[i]
    ensures j + 1 == i && InHeap(m, blocks[i] - 8) && PrevBlkp(m, blocks[i]) == blocks[j]
  {
    assert BlockOK(m, blocks[i]) && BlockOK(m, blocks[j]);
    if j + 1 < |blocks| && j + 1 != i {
      BlocksApart(m, blocks, j + 1, i);
    }
    PrevAllocBit(m, blocks, i);
  }

  /** coalesce, case 2: once the free successor is off the list, blocks[t..t+2] is a run. */
  lemma NextRun(m: Mem, m1: Mem, head: int, h1: int, blocks: seq<int>, free: seq<int>, f1: seq<int>, t: int)
    requires Consistent(m, head, blocks, free, t, t + 1) && 0 <= t && t + 1 < |blocks| && blocks[t] !in free
    requires IsFree(m, blocks[t + 1]) && (t == 0 || !IsFree(m, blocks[t - 1]))
    requires |m1| == |m| && Consistent(m1, h1, blocks, f1, t, t + 2) && SameTags(m, m1, blocks)
    requires forall b :: b in f1 <==> b in free && b != blocks[t + 1]
    ensures Run(m1, h1, blocks, f1, t, t + 2)
  {
    if t > 0 {
      TagKept(m, m1, blocks, t - 1);
    }
    if t + 2 < |blocks| {
      assert BlockOK(m, blocks[t + 1]) && BlockOK(m, blocks[t + 2]);
      TagKept(m, m1, blocks, t + 2);
    }
  }

  /** coalesce, case 3: once the free predecessor is off the list, blocks[t-1..t+1] is a run. */
  lemma PrevRun(m: Mem, m1: Mem, head: int, h1: int, blocks: seq<int>, free: seq<int>, f1: seq<int>, t: int)
    requires Consistent(m, head, blocks, free, t, t + 1) && 0 < t < |blocks| && blocks[t] !in free
    requires IsFree(m, blocks[t - 1]) && (t + 1 == |blocks| || !IsFree(m, blocks[t + 1]))
    requires |m1| == |m| && Consistent(m1, h1, blocks, f1, t - 1, t + 1) && SameTags(m, m1, blocks)
    requires forall b :: b in f1 <==> b in free && b != blocks[t - 1]
    ensures Run(m1, h1, blocks, f1, t - 1, t + 1)
  {
    if t > 1 {
      assert BlockOK(m, blocks[t - 2]) && BlockOK(m, blocks[t - 1]);
      TagKept(m, m1, blocks, t - 2);
    }
    if t + 1 < |blocks| {
      TagKept(m, m1, blocks, t + 1);
    }
  }

  /** coalesce, case 4: taking both free neighbours off the list keeps every other listed block. */
  lemma UnlistedBoth(m: Mem, m2: Mem, head: int, blocks: seq<int>, free: seq<int>, f1: seq<int>, f2: seq<int>,
                     t: int)
    requires Pending(m, head, blocks, free, t) && 0 < t && t + 1 < |blocks|
    requires |m| <= |m2| && SameTags(m, m2, blocks)
    requires forall b :: b in f1 <==> b in free && b != blocks[t - 1]
    requires forall b :: b in f2 <==> b in f1 && b != blocks[t + 1]
    ensures forall b :: b in f2 <==> b in free && b != blocks[t - 1] && b != blocks[t + 1]
    ensures KeepsFree(m, free, m2, f2, [blocks[t - 1], blocks[t + 1]])
  {
    TagsKeepFree(m, m2, blocks, free, f2, [blocks[t - 1], blocks[t + 1]]);
  }

  /** coalesce, case 4: once both free neighbours are off the list, blocks[t-1..t+2] is a run. */
  lemma BothRun(m: Mem, m2: Mem, head: int, h2: int, blocks: seq<int>, free: seq<int>, f1: seq<int>, f2: seq<int>,
                t: int)
    requires Consistent(m, head, blocks, free, t, t + 1) && 0 < t && t + 1 < |blocks| && blocks[t] !in free
    requires IsFree(m, blocks[t - 1]) && IsFree(m, blocks[t + 1])
    requires |m2| == |m| && Consistent(m2, h2, blocks, f2, t - 1, t + 2) && SameTags(m, m2, blocks)
    requires forall b :: b in f1 <==> b in free && b != blocks[t - 1]
    requires forall b :: b in f2 <==> b in f1 && b != blocks[t + 1]
    ensures Run(m2, h2, blocks, f2, t - 1, t + 2)
  {
    if t > 1 {
      assert BlockOK(m, blocks[t - 2]) && BlockOK(m, blocks[t - 1]);
      TagKept(m, m2, blocks, t - 2);
    }
    if t + 2 < |blocks| {
      assert BlockOK(m, blocks[t + 1]) && BlockOK(m, blocks[t + 2]);
      TagKept(m, m2, blocks, t + 2);
    }
  }

  /**
   * coalesce absorbing the next block: after a step that kept the tags,
   * bp's size read before the step plus its successor's size read after it
   * is the size of the run of the two blocks.
   */
  lemma Absorb(m0: Mem, m1: Mem, blocks: seq<int>, t: int, bp: int, size0: int)
    requires Tagged(m0, blocks) && Tagged(m1, blocks) && |m0| == |m1| && SameTags(m0, m1, blocks)
    requires 0 <= t && t + 1 < |blocks| && bp == blocks[t] && size0 == BlockSize(m0, bp)
    ensures InHeap(m1, bp - 4) && NextBlkp(m1, bp) == blocks[t + 1] && InHeap(m1, NextBlkp(m1, bp) - 4)
    ensures BlockSize(m1, bp) == size0 && size0 % 8 == 0 && BlockSize(m1, NextBlkp(m1, bp)) % 8 == 0
    ensures 16 <= size0 + BlockSize(m1, NextBlkp(m1, bp)) < 0x1_0000_0000
    ensures bp % 8 == 0 && FIRST <= bp
    ensures bp + (size0 + BlockSize(m1, NextBlkp(m1, bp))) == NextBlkp(m1, blocks[t + 1]) <= End(m1)
  {
    TagKept(m0, m1, blocks, t);
    TagKept(m0, m1, blocks, t + 1);
    RunSpan(m1, blocks, t, t + 2);
    assert BlockOK(m1, blocks[t]);
  }

  /**
   * coalesce absorbing the previous block: PREV_BLKP, reading the footer
   * just below bp, finds the predecessor, and the two sizes add up to the
   * run of the two blocks, whose last word is bp's footer.
   */
  lemma AbsorbPrev(m0: Mem, m1: Mem, blocks: seq<int>, t: int, bp: int, size0: int)
    requires Tagged(m0, blocks) && Tagged(m1, blocks) && |m0| == |m1| && SameTags(m0, m1, blocks)
    requires 0 < t < |blocks| && bp == blocks[t] && size0 == BlockSize(m0, bp)
    ensures InHeap(m1, bp - 8) && PrevBlkp(m1, bp) == blocks[t - 1] && InHeap(m1, PrevBlkp(m1, bp) - 4)
    ensures size0 % 8 == 0 && BlockSize(m1, PrevBlkp(m1, bp)) % 8 == 0
    ensures 16 <= size0 + BlockSize(m1, PrevBlkp(m1, bp)) < 0x1_0000_0000
    ensures blocks[t - 1] % 8 == 0 && FIRST <= blocks[t - 1] && blocks[t - 1] + 16 <= bp
    ensures InHeap(m1, bp - 4) && bp + 16 <= blocks[t - 1] + (size0 + BlockSize(m1, PrevBlkp(m1, bp)))
    ensures Ftrp(m1, bp) == blocks[t - 1] + (size0 + BlockSize(m1, PrevBlkp(m1, bp))) - 8
    ensures blocks[t - 1] + (size0 + BlockSize(m1, PrevBlkp(m1, bp))) == NextBlkp(m1, bp) <= End(m1)
  {
    TagKept(m0, m1, blocks, t);
    TagKept(m0, m1, blocks, t - 1);
    PrevAllocBit(m1, blocks, t);
    RunSpan(m1, blocks, t - 1, t + 1);
    assert BlockOK(m1, blocks[t - 1]) && BlockOK(m1, blocks[t]);
  }

  /**
   * coalesce absorbing both neighbours: PREV_BLKP and NEXT_BLKP find them,
   * and the three sizes add up to the run of the three blocks, whose last
   * word is the successor's footer.
   */
  lemma AbsorbBoth(m0: Mem, m1: Mem, blocks: seq<int>, t: int, bp: int, size0: int)
    requires Tagged(m0, blocks) && Tagged(m1, blocks) && |m0| == |m1| && SameTags(m0, m1, blocks)
    requires 0 < t && t + 1 < |blocks| && bp == blocks[t] && size0 == BlockSize(m0, bp)
    ensures InHeap(m1, bp - 8) && PrevBlkp(m1, bp) == blocks[t - 1] && InHeap(m1, PrevBlkp(m1, bp) - 4)
    ensures InHeap(m1, bp - 4) && NextBlkp(m1, bp) == blocks[t + 1] && InHeap(m1, NextBlkp(m1, bp) - 4)
    ensures size0 % 8 == 0 && BlockSize(m1, PrevBlkp(m1, bp)) % 8 == 0 && BlockSize(m1, NextBlkp(m1, bp)) % 8 == 0
    ensures 16 <= size0 + BlockSize(m1, PrevBlkp(m1, bp)) + BlockSize(m1, NextBlkp(m1, bp)) < 0x1_0000_0000
    ensures blocks[t - 1] % 8 == 0 && FIRST <= blocks[t - 1] && blocks[t - 1] + 16 <= bp && bp + 16 <= blocks[t + 1]
    ensures blocks[t + 1] + 16 <= blocks[t - 1] + (size0 + BlockSize(m1, PrevBlkp(m1, bp)) + BlockSize(m1, NextBlkp(m1, bp)))
    ensures Ftrp(m1, blocks[t + 1])
      == blocks[t - 1] + (size0 + BlockSize(m1, PrevBlkp(m1, bp)) + BlockSize(m1, NextBlkp(m1, bp))) - 8
    ensures blocks[t - 1] + (size0 + BlockSize(m1, PrevBlkp(m1, bp)) + BlockSize(m1, NextBlkp(m1, bp)))
      == NextBlkp(m1, blocks[t + 1]) <= End(m1)
  {
    TagKept(m0, m1, blocks, t);
    TagKept(m0, m1, blocks, t - 1);
    TagKept(m0, m1, blocks, t + 1);
    PrevAllocBit(m1, blocks, t);
    NextAllocBit(m1, blocks, t);
    RunSpan(m1, blocks, t - 1, t + 2);
    assert BlockOK(m1, blocks[t - 1]) && BlockOK(m1, blocks[t]) && BlockOK(m1, blocks[t + 1]);
  }

  /**
   * The two tag writes of coalesce turn the run blocks[lo..hi] into one free
   * block, flanked as before; the blocks held by the program keep their words.
   */
  lemma Fused(m: Mem, m': Mem, head: int, blocks: seq<int>, free: seq<int>, lo: int, hi: int, size: Word,
              nb: seq<int>)
    requires Run(m, head, blocks, free, lo, hi)
    requires size % 8 == 0 && blocks[lo] + size == NextBlkp(m, blocks[hi - 1])
    requires Retagged(m, m', blocks[lo], size, Pack(size, 0))
    requires nb == blocks[..lo] + [blocks[lo]] + blocks[hi..]
    ensures |m'| == |m| && nb[lo] == blocks[lo]
    ensures Run(m', head, nb, free, lo, lo + 1) && IsFree(m', nb[lo]) && BlockSize(m', nb[lo]) == size
    ensures Keeps(m, blocks, free, m', nb, free, blocks[lo..hi])
    ensures KeepsFree(m, free, m', free, [])
  {
    FuseMerge(m, m', head, blocks, free, lo, hi, size, nb);
  }

  // ---------------------------------------------------------------------
  // Composing the frames of the steps.

  lemma KeepsThen(m0: Mem, blocks0: seq<int>, free0: seq<int>, m1: Mem, blocks1: seq<int>, free1: seq<int>,
                  m2: Mem, blocks2: seq<int>, free2: seq<int>, gone: seq<int>)
    requires Keeps(m0, blocks0, free0, m1, blocks1, free1, [])
    requires Keeps(m1, blocks1, free1, m2, blocks2, free2, gone)
    ensures Keeps(m0, blocks0, free0, m2, blocks2, free2, gone)
  {
    KeepsTrans(m0, blocks0, free0, m1, blocks1, free1, m2, blocks2, free2, [], gone);
    assert [] + gone == gone;
  }

  /** Of a merged run around blocks[t], only blocks[t] may have been held by the program. */
  lemma KeepsRun(m: Mem, blocks: seq<int>, free: seq<int>, m1: Mem, free1: seq<int>,
                 m': Mem, blocks': seq<int>, free': seq<int>, lo: int, hi: int, t: int)
    requires 0 <= lo <= t < hi <= |blocks| && t - 1 <= lo && hi <= t + 2
    requires Keeps(m, blocks, free, m1, blocks, free1, [])
    requires Keeps(m1, blocks, free1, m', blocks', free', blocks[lo..hi])
    requires lo < t ==> blocks[lo] in free
    requires t + 1 < hi ==> blocks[t + 1] in free
    ensures Keeps(m, blocks, free, m', blocks', free', [blocks[t]])
  {
    KeepsThen(m, blocks, free, m1, blocks, free1, m', blocks', free', blocks[lo..hi]);
    forall g | g in blocks[lo..hi] && g in blocks && g !in free
      ensures g in [blocks[t]]
    {
      var i :| 0 <= i < hi - lo && blocks[lo..hi][i] == g;
      assert blocks[lo + i] == g;
    }
    KeepsLess(m, blocks, free, m', blocks', free', blocks[lo..hi], [blocks[t]]);
  }

  /** A step dropping g followed by one listing x, where x is g or was listed, drops only g. */
  lemma KeepsListed(m0: Mem, blocks0: seq<int>, free0: seq<int>, m1: Mem, blocks1: seq<int>, free1: seq<int>,
                    m2: Mem, blocks2: seq<int>, free2: seq<int>, g: int, x: int)
    requires Keeps(m0, blocks0, free0, m1, blocks1, free1, [g])
    requires Keeps(m1, blocks1, free1, m2, blocks2, free2, [x])
    requires x == g || x in free0
    ensures Keeps(m0, blocks0, free0, m2, blocks2, free2, [g])
  {
    KeepsTrans(m0, blocks0, free0, m1, blocks1, free1, m2, blocks2, free2, [g], [x]);
    KeepsLess(m0, blocks0, free0, m2, blocks2, free2, [g] + [x], [g]);
  }

  // ---------------------------------------------------------------------
  // extend_heap.

  /**
   * extend_heap before coalesce: the new block at the old break is pending,
   * the old blocks keep their tags, and the new block is not an old one.
   */
  lemma Extended(m: Mem, m': Mem, head: int, blocks: seq<int>, free: seq<int>, size: Word)
    requires Consistent(m, head, blocks, free, 0, 0)
    requires size % 8 == 0 && size >= MINBLOCK && End(m') == End(m) + size < 0x1_0000_0000
    requires Get(m', End(m) - 4) == Pack(size, 0) && Get(m', End(m) + size - 8) == Pack(size, 0)
    requires Get(m', End(m') - 4) == Pack(0, 1)
    requires Same(m, m', 0, End(m) - 4)
    ensures (blocks + [End(m)])[|blocks|] == End(m) && Pending(m', head, blocks + [End(m)], free, |blocks|)
    ensures |m| <= |m'| && SameTags(m, m', blocks) && End(m) !in blocks
    ensures Keeps(m, blocks, free, m', blocks + [End(m)], free, [])
    ensures KeepsFree(m, free, m', free, [])
  {
    Grow(m, m', head, blocks, free, size);
    forall k | 0 <= k < |blocks|
      ensures Get(m', blocks[k] - 4) == Get(m, blocks[k] - 4) && blocks[k] != End(m)
    {
      assert BlockOK(m, blocks[k]);
    }
  }

  /** A step that keeps every held block, then one that drops only a block that was not there before. */
  lemma KeepsThenNew(m0: Mem, blocks0: seq<int>, free0: seq<int>, m1: Mem, blocks1: seq<int>, free1: seq<int>,
                     m2: Mem, blocks2: seq<int>, free2: seq<int>, e: int)
    requires Keeps(m0, blocks0, free0, m1, blocks1, free1, [])
    requires Keeps(m1, blocks1, free1, m2, blocks2, free2, [e]) && e !in blocks0
    ensures Keeps(m0, blocks0, free0, m2, blocks2, free2, [])
  {
    KeepsTrans(m0, blocks0, free0, m1, blocks1, free1, m2, blocks2, free2, [], [e]);
    KeepsLess(m0, blocks0, free0, m2, blocks2, free2, [] + [e], []);
  }

  /** An address strictly inside a block, past its start, is not the start of any block. */
  lemma Inner(m: Mem, blocks: seq<int>, t: int, x: int)
    requires Tagged(m, blocks) && 0 <= t < |blocks| && blocks[t] < x < NextBlkp(m, blocks[t])
    ensures x !in blocks
  {
    if x in blocks {
      Disjoint(m, blocks, blocks[t], x);
    }
  }

  /**
   * Composing a step that drops a listed block g with a step that drops x,
   * where x was no block before: every block held at the start is kept.
   */
  lemma KeepsDropped(m0: Mem, blocks0: seq<int>, free0: seq<int>, m1: Mem, blocks1: seq<int>, free1: seq<int>,
                     m2: Mem, blocks2: seq<int>, free2: seq<int>, g: int, x: int)
    requires Keeps(m0, blocks0, free0, m1, blocks1, free1, [g])
    requires Keeps(m1, blocks1, free1, m2, blocks2, free2, [x])
    requires g in free0 && x !in blocks0
    ensures Keeps(m0, blocks0, free0, m2, blocks2, free2, [])
  {
    KeepsTrans(m0, blocks0, free0, m1, blocks1, free1, m2, blocks2, free2, [g], [x]);
    KeepsLess(m0, blocks0, free0, m2, blocks2, free2, [g] + [x], []);
  }
}
