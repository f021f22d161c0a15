/**
 * The explicit free list.  Each free block keeps two link words in its
 * payload: the previous free block at bp (GET_PREV_FREE_BLKP) and the next
 * one at bp + 4 (GET_NEXT_FREE_BLKP); 0 is NULL.  The ghost sequence
 * `free` is the list read from `head_FreeList` along the next links, and
 * `Linked(m, head, free)` says that the link words in memory spell exactly
 * that list in both directions.
 *
 * This module also holds the pure specifications of the list operations:
 * removal, the insertion position chosen by addBlock, and first fit.
 */
module FreeList {
  import opened Codec
  import opened Layout

  /** A list node: an 8-aligned block address whose two link words lie in the heap. */
  predicate IsNode(m: Mem, x: int)
  {
    x % 8 == 0 && FIRST <= x && x + 8 <= End(m)
  }

  /** The link words of x and of y do not overlap. */
  predicate Apart(x: int, y: int)
  {
    x + 8 <= y || y + 8 <= x
  }

  /** GET_PREV_FREE_BLKP(bp) */
  function PrevFree(m: Mem, bp: int): Word
    requires IsNode(m, bp)
  {
    Get(m, bp)
  }

  /** GET_NEXT_FREE_BLKP(bp) */
  function NextFree(m: Mem, bp: int): Word
    requires IsNode(m, bp)
  {
    Get(m, bp + 4)
  }

  /** The entry of s just before slot p (slot p lies between s[p-1] and s[p]), or NULL. */
  function SlotPrev(s: seq<int>, p: int): int
    requires 0 <= p <= |s|
  {
    if p == 0 then 0 else s[p - 1]
  }

  /** The entry of s just after slot p, or NULL. */
  function SlotNext(s: seq<int>, p: int): int
    requires 0 <= p <= |s|
  {
    if p < |s| then s[p] else 0
  }

  /** Every entry of s is a list node. */
  predicate Nodes(m: Mem, s: seq<int>)
  {
    forall k {:trigger s[k]} :: 0 <= k < |s| ==> IsNode(m, s[k])
  }

  /** The link words of distinct entries do not overlap (so, in particular, no entry repeats). */
  predicate LinksApart(s: seq<int>)
  {
    forall i, j :: 0 <= i < j < |s| ==> Apart(s[i], s[j])
  }

  /** The first entry has no predecessor and the last no successor. */
  ghost predicate Ends(m: Mem, s: seq<int>)
    requires Nodes(m, s)
  {
    |s| > 0 ==> PrevFree(m, s[0]) == 0 && NextFree(m, s[|s| - 1]) == 0
  }

  /** Each entry's next link names the following entry, whose prev link names it back. */
  ghost predicate Paired(m: Mem, s: seq<int>)
    requires Nodes(m, s)
  {
    forall i, j :: 0 <= i && j == i + 1 < |s| ==> NextFree(m, s[i]) == s[j] && PrevFree(m, s[j]) == s[i]
  }

  /** The list read from head along the next links is `free`, and every prev link is its inverse. */
  ghost predicate Linked(m: Mem, head: int, free: seq<int>)
  {
    head == SlotNext(free, 0) && Nodes(m, free) && LinksApart(free) && Ends(m, free) && Paired(m, free)
  }

  /** The link words of every entry, read off the list. */
  lemma Links(m: Mem, head: int, free: seq<int>, k: int)
    requires Linked(m, head, free) && 0 <= k < |free|
    ensures PrevFree(m, free[k]) == SlotPrev(free, k)
    ensures NextFree(m, free[k]) == SlotNext(free, k + 1)
  {
    if k > 0 {
      assert PrevFree(m, free[k]) == free[k - 1];
    }
    if k + 1 < |free| {
      assert NextFree(m, free[k]) == free[k + 1];
    }
  }

  /** Only the link words of the nodes x, y, z (NULL stands for none) may differ between m and m'. */
  ghost predicate LinksOnly(m: Mem, m': Mem, x: int, y: int, z: int)
  {
    && |m'| == |m|
    && forall a {:trigger Get(m', a)} :: InHeap(m, a) && Off(a, x) && Off(a, y) && Off(a, z) ==> Get(m', a) == Get(m, a)
  }

  /** Address a is not one of the link words of node x. */
  predicate Off(a: int, x: int)
  {
    x == 0 || a < x || x + 8 <= a
  }

  /** Address a lies outside the n bytes from w (a negative w stands for none). */
  predicate Skip(a: int, w: int, n: int)
  {
    w < 0 || a < w || w + n <= a
  }

  /**
   * Only the two link words of node x and the single words at w1 and w2
   * may differ between m and m' (a negative address stands for none).
   */
  ghost predicate Rewrites(m: Mem, m': Mem, x: int, w1: int, w2: int)
  {
    && |m'| == |m|
    && forall a {:trigger Get(m', a)} :: InHeap(m, a) && Skip(a, x, 8) && Skip(a, w1, 4) && Skip(a, w2, 4) ==>
      Get(m', a) == Get(m, a)
  }

  /** In a list whose link words are apart, any two distinct entries are apart. */
  lemma ApartAt(s: seq<int>, i: int, j: int)
    requires LinksApart(s) && 0 <= i < |s| && 0 <= j < |s| && i != j
    ensures Apart(s[i], s[j])
  {
    if j < i {
      assert Apart(s[j], s[i]);
    }
  }

  // ---------------------------------------------------------------------
  // Removal.

  /** The list without its first occurrence of x. */
  function Remove(s: seq<int>, x: int): seq<int>
  {
    if |s| == 0 then []
    else if s[0] == x then s[1..]
    else [s[0]] + Remove(s[1..], x)
  }

  /** Remove takes away exactly one copy of x when there is one, and nothing else. */
  lemma {:induction false} RemoveMultiset(s: seq<int>, x: int)
    ensures multiset(Remove(s, x)) == multiset(s) - multiset{x}
  {
    if |s| > 0 {
      assert s == [s[0]] + s[1..];
      if s[0] != x {
        RemoveMultiset(s[1..], x);
      }
    }
  }

  /** In a list without repetitions, removing s[k] closes the gap at k. */
  lemma {:induction false} RemoveAt(s: seq<int>, k: int)
    requires 0 <= k < |s| && forall i :: 0 <= i < k ==> s[i] != s[k]
    ensures Remove(s, s[k]) == s[..k] + s[k + 1..]
  {
    if k > 0 {
      var x, t := s[k], s[1..];
      assert t[k - 1] == x && s[0] != x;
      forall i | 0 <= i < k - 1
        ensures t[i] != t[k - 1]
      {
        assert t[i] == s[i + 1];
      }
      RemoveAt(t, k - 1);
      assert s[..k] == [s[0]] + t[..k - 1];
      assert t[k..] == s[k + 1..];
      assert Remove(s, x) == [s[0]] + (t[..k - 1] + t[k..]);
    }
  }

  /** The entries of s without s[k]. */
  lemma RemoveShape(s: seq<int>, k: int)
    requires 0 <= k < |s|
    ensures |s[..k] + s[k + 1..]| == |s| - 1
    ensures forall i :: 0 <= i < |s| - 1 ==> (s[..k] + s[k + 1..])[i] == if i < k then s[i] else s[i + 1]
  {
  }

  lemma RemoveApart(s: seq<int>, k: int)
    requires LinksApart(s) && 0 <= k < |s|
    ensures LinksApart(s[..k] + s[k + 1..])
  {
    RemoveShape(s, k);
  }

  lemma RemovePaired(m: Mem, m': Mem, s: seq<int>, k: int)
    requires Nodes(m, s) && Paired(m, s) && 0 <= k < |s| && |m'| == |m|
    requires k > 0 ==> NextFree(m', s[k - 1]) == SlotNext(s, k + 1)
    requires k + 1 < |s| ==> PrevFree(m', s[k + 1]) == SlotPrev(s, k)
    requires forall i :: 0 <= i < |s| && i != k - 1 ==> NextFree(m', s[i]) == NextFree(m, s[i])
    requires forall i :: 0 <= i < |s| && i != k + 1 ==> PrevFree(m', s[i]) == PrevFree(m, s[i])
    ensures Nodes(m', s[..k] + s[k + 1..]) && Paired(m', s[..k] + s[k + 1..])
  {
    var r := s[..k] + s[k + 1..];
    RemoveShape(s, k);
    forall i | 0 <= i < |r| - 1
      ensures NextFree(m', r[i]) == r[i + 1] && PrevFree(m', r[i + 1]) == r[i]
    {
      if i + 1 < k {
        assert NextFree(m, s[i]) == s[i + 1] && PrevFree(m, s[i + 1]) == s[i];
      } else if i >= k {
        assert NextFree(m, s[i + 1]) == s[i + 2] && PrevFree(m, s[i + 2]) == s[i + 1];
      }
    }
  }

  /**
   * Relinking after a removal: if the neighbours of free[k] now point at each
   * other (and head skips free[k] when it was first) while every other link
   * word is as before, memory spells the list without free[k].
   */
  lemma RemoveLinks(m: Mem, m': Mem, head: int, head': int, free: seq<int>, k: int)
    requires Linked(m, head, free) && 0 <= k < |free| && |m'| == |m|
    requires head' == if k == 0 then SlotNext(free, k + 1) else head
    requires k > 0 ==> NextFree(m', free[k - 1]) == SlotNext(free, k + 1)
    requires k + 1 < |free| ==> PrevFree(m', free[k + 1]) == SlotPrev(free, k)
    requires forall i :: 0 <= i < |free| && i != k - 1 ==> NextFree(m', free[i]) == NextFree(m, free[i])
    requires forall i :: 0 <= i < |free| && i != k + 1 ==> PrevFree(m', free[i]) == PrevFree(m, free[i])
    ensures Linked(m', head', free[..k] + free[k + 1..])
  {
    var r := free[..k] + free[k + 1..];
    RemoveShape(free, k);
    RemoveApart(free, k);
    RemovePaired(m, m', free, k);
    if |r| > 0 {
      Links(m, head, free, 0);
      Links(m, head, free, |free| - 1);
    }
  }

  /**
   * removeBlock's writes: the predecessor x of free[k] gets next link y,
   * the successor y gets prev link x, head becomes y when free[k] was
   * first, and nothing else changes; memory then spells the list without
   * free[k].
   */
  lemma Unlink(m: Mem, m': Mem, head: int, head': int, free: seq<int>, k: int, x: int, y: int)
    requires Linked(m, head, free) && 0 <= k < |free|
    requires x == SlotPrev(free, k) && y == SlotNext(free, k + 1)
    requires Rewrites(m, m', -1, if x == 0 then -1 else x + 4, if y == 0 then -1 else y)
    requires x != 0 ==> Get(m', x + 4) == y
    requires y != 0 ==> Get(m', y) == x
    requires head' == if x == 0 then y else head
    ensures Linked(m', head', free[..k] + free[k + 1..])
    ensures LinksOnly(m, m', x, y, 0)
  {
    var w1, w2 := if x == 0 then -1 else x + 4, if y == 0 then -1 else y;
    forall i | 0 <= i < |free| && i != k - 1
      ensures NextFree(m', free[i]) == NextFree(m, free[i])
    {
      assert IsNode(m, free[i]);
      if x != 0 {
        ApartAt(free, i, k - 1);
      }
      if y != 0 && i != k + 1 {
        ApartAt(free, i, k + 1);
      }
    }
    forall i | 0 <= i < |free| && i != k + 1
      ensures PrevFree(m', free[i]) == PrevFree(m, free[i])
    {
      assert IsNode(m, free[i]);
      if x != 0 && i != k - 1 {
        ApartAt(free, i, k - 1);
      }
      if y != 0 {
        ApartAt(free, i, k + 1);
      }
    }
    RemoveLinks(m, m', head, head', free, k);
  }

  // ---------------------------------------------------------------------
  // Insertion.

  /** s with x placed at slot p. */
  function InsertAt(s: seq<int>, p: int, x: int): seq<int>
    requires 0 <= p <= |s|
  {
    s[..p] + [x] + s[p..]
  }

  /** Insertion adds exactly one copy of x and keeps every other entry. */
  lemma InsertMultiset(s: seq<int>, p: int, x: int)
    requires 0 <= p <= |s|
    ensures multiset(InsertAt(s, p, x)) == multiset(s) + multiset{x}
  {
    assert s == s[..p] + s[p..];
  }

  /** The number of leading entries of s above x. */
  function LeadingAbove(s: seq<int>, x: int): (n: nat)
    ensures n <= |s|
    ensures forall k :: 0 <= k < n ==> s[k] > x
    ensures n < |s| ==> s[n] <= x
  {
    if |s| == 0 || s[0] <= x then 0 else 1 + LeadingAbove(s[1..], x)
  }

  /**
   * Where addBlock puts x: at the head when the head is not above x (or the
   * list is empty), otherwise immediately before the last entry of the
   * leading run of entries above x.
   */
  function InsertPos(s: seq<int>, x: int): (p: nat)
    ensures p <= |s|
    ensures |s| == 0 || s[0] <= x ==> p == 0
    ensures |s| > 0 && s[0] > x ==>
      && p < |s| && (forall k :: 0 <= k <= p ==> s[k] > x)
      && (p + 1 == |s| || s[p + 1] <= x)
  {
    var n := LeadingAbove(s, x);
    if n == 0 then 0 else n - 1
  }

  /** The entries of s with x at slot p. */
  lemma InsertShape(s: seq<int>, p: int, x: int)
    requires 0 <= p <= |s|
    ensures |InsertAt(s, p, x)| == |s| + 1
    ensures forall i :: 0 <= i <= |s| ==>
      InsertAt(s, p, x)[i] == if i < p then s[i] else if i == p then x else s[i - 1]
  {
  }

  lemma InsertApart(s: seq<int>, p: int, x: int)
    requires LinksApart(s) && 0 <= p <= |s| && forall i :: 0 <= i < |s| ==> Apart(x, s[i])
    ensures LinksApart(InsertAt(s, p, x))
  {
    var r := InsertAt(s, p, x);
    InsertShape(s, p, x);
    forall i, j | 0 <= i < j < |r|
      ensures Apart(r[i], r[j])
    {
      if i != p && j != p {
        var i', j' := if i < p then i else i - 1, if j < p then j else j - 1;
        assert r[i] == s[i'] && r[j] == s[j'];
      }
    }
  }

  lemma InsertPaired(m: Mem, m': Mem, s: seq<int>, p: int, x: int)
    requires Nodes(m, s) && Paired(m, s) && 0 <= p <= |s| && |m'| == |m| && IsNode(m, x)
    requires PrevFree(m', x) == SlotPrev(s, p) && NextFree(m', x) == SlotNext(s, p)
    requires p > 0 ==> NextFree(m', s[p - 1]) == x
    requires p < |s| ==> PrevFree(m', s[p]) == x
    requires forall i :: 0 <= i < |s| && i != p - 1 ==> NextFree(m', s[i]) == NextFree(m, s[i])
    requires forall i :: 0 <= i < |s| && i != p ==> PrevFree(m', s[i]) == PrevFree(m, s[i])
    ensures Nodes(m', InsertAt(s, p, x)) && Paired(m', InsertAt(s, p, x))
  {
    var r := InsertAt(s, p, x);
    InsertShape(s, p, x);
    forall i | 0 <= i < |r| - 1
      ensures NextFree(m', r[i]) == r[i + 1] && PrevFree(m', r[i + 1]) == r[i]
    {
      if i + 1 < p {
        assert NextFree(m, s[i]) == s[i + 1] && PrevFree(m, s[i + 1]) == s[i];
      } else if i > p {
        assert NextFree(m, s[i - 1]) == s[i] && PrevFree(m, s[i]) == s[i - 1];
      }
    }
  }

  /**
   * Relinking after an insertion at slot p: if x points at its two new
   * neighbours, they point back at x (or head is x when p is 0), and every
   * other link word is as before, memory spells the list with x at p.
   */
  lemma InsertLinks(m: Mem, m': Mem, head: int, head': int, free: seq<int>, p: int, x: int)
    requires Linked(m, head, free) && 0 <= p <= |free| && |m'| == |m|
    requires IsNode(m, x) && forall i :: 0 <= i < |free| ==> Apart(x, free[i])
    requires head' == if p == 0 then x else head
    requires PrevFree(m', x) == SlotPrev(free, p) && NextFree(m', x) == SlotNext(free, p)
    requires p > 0 ==> NextFree(m', free[p - 1]) == x
    requires p < |free| ==> PrevFree(m', free[p]) == x
    requires forall i :: 0 <= i < |free| && i != p - 1 ==> NextFree(m', free[i]) == NextFree(m, free[i])
    requires forall i :: 0 <= i < |free| && i != p ==> PrevFree(m', free[i]) == PrevFree(m, free[i])
    ensures Linked(m', head', InsertAt(free, p, x))
  {
    InsertShape(free, p, x);
    InsertApart(free, p, x);
    InsertPaired(m, m', free, p, x);
    if |free| > 0 {
      Links(m, head, free, 0);
      Links(m, head, free, |free| - 1);
    }
  }

  /**
   * addBlock's writes: x gets links u and v, u's next link and v's prev
   * link become x, head becomes x when u is NULL, and nothing else
   * changes; memory then spells the list with x at slot p.
   */
  lemma Link(m: Mem, m': Mem, head: int, head': int, free: seq<int>, p: int, x: int, u: int, v: int)
    requires Linked(m, head, free) && 0 <= p <= |free|
    requires IsNode(m, x) && forall i :: 0 <= i < |free| ==> Apart(x, free[i])
    requires u == SlotPrev(free, p) && v == SlotNext(free, p)
    requires Rewrites(m, m', x, if u == 0 then -1 else u + 4, if v == 0 then -1 else v)
    requires Get(m', x) == u && Get(m', x + 4) == v
    requires u != 0 ==> Get(m', u + 4) == x
    requires v != 0 ==> Get(m', v) == x
    requires head' == if u == 0 then x else head
    ensures Linked(m', head', InsertAt(free, p, x))
    ensures LinksOnly(m, m', x, u, v)
  {
    forall i | 0 <= i < |free| && i != p - 1
      ensures NextFree(m', free[i]) == NextFree(m, free[i])
    {
      assert IsNode(m, free[i]) && Apart(x, free[i]);
      if u != 0 {
        ApartAt(free, i, p - 1);
      }
      if v != 0 && i != p {
        ApartAt(free, i, p);
      }
    }
    forall i | 0 <= i < |free| && i != p
      ensures PrevFree(m', free[i]) == PrevFree(m, free[i])
    {
      assert IsNode(m, free[i]) && Apart(x, free[i]);
      if u != 0 && i != p - 1 {
        ApartAt(free, i, p - 1);
      }
      if v != 0 {
        ApartAt(free, i, p);
      }
    }
    InsertLinks(m, m', head, head', free, p, x);
  }

  /**
   * The four link writes of addBlock: x's own prev and next links, then the
   * predecessor's next link (when there is one) and the successor's prev link
   * (when there is one).
   */
  function InsertWrites(m: Mem, x: Word, u: Word, v: Word): (m': Mem)
    requires IsNode(m, x) && (u != 0 ==> IsNode(m, u)) && (v != 0 ==> IsNode(m, v))
    ensures |m'| == |m|
  {
    WordAligned(x);
    WordsAligned(u, v);
    var m1 := Put(Put(m, x, u), x + 4, v);
    var m2 := if u != 0 then Put(m1, u + 4, x) else m1;
    if v != 0 then Put(m2, v, x) else m2
  }

  lemma WordsAligned(u: int, v: int)
    requires u % 8 == 0 && v % 8 == 0
    ensures (u + 4) % 4 == 0 && v % 4 == 0
  {
    WordAligned(u);
    WordAligned(v);
  }

  /** addBlock's writes at any slot p put x into the list at p and change no other word. */
  lemma LinkIn(m: Mem, head: int, free: seq<int>, p: int, x: Word, u: Word, v: Word)
    requires Linked(m, head, free) && 0 <= p <= |free|
    requires IsNode(m, x) && forall i :: 0 <= i < |free| ==> Apart(x, free[i])
    requires u == SlotPrev(free, p) && v == SlotNext(free, p)
    ensures Linked(InsertWrites(m, x, u, v), if u == 0 then x else head, InsertAt(free, p, x))
    ensures LinksOnly(m, InsertWrites(m, x, u, v), x, u, v)
  {
    if u != 0 && v != 0 {
      ApartAt(free, p - 1, p);
    }
    WordAligned(x);
    WordsAligned(u, v);
    var m1 := Put(Put(m, x, u), x + 4, v);
    assert Rewrites(m, m1, x, -1, -1);
    var m2 := if u != 0 then Put(m1, u + 4, x) else m1;
    var w1, w2 := if u == 0 then -1 else u + 4, if v == 0 then -1 else v;
    assert Rewrites(m, m2, x, w1, -1) && Get(m2, x) == u && Get(m2, x + 4) == v;
    var m3 := if v != 0 then Put(m2, v, x) else m2;
    assert m3 == InsertWrites(m, x, u, v);
    assert Rewrites(m, m3, x, w1, w2) && Get(m3, x) == u && Get(m3, x + 4) == v;
    Link(m, m3, head, if u == 0 then x else head, free, p, x, u, v);
  }

  /** A list in strictly descending address order, the order addBlock's comment promises. */
  predicate Descending(s: seq<int>)
  {
    forall i, j :: 0 <= i < j < |s| ==> s[i] > s[j]
  }

  /** The insertion is not address-ordered: a descending list stops being descending. */
  lemma InsertNotSorted()
    ensures Descending([48, 16])
    ensures InsertAt([48, 16], InsertPos([48, 16], 32), 32) == [32, 48, 16]
    ensures !Descending(InsertAt([48, 16], InsertPos([48, 16], 32), 32))
  {
    assert LeadingAbove([16], 32) == 0;
    assert LeadingAbove([48, 16], 32) == 1;
    var r := InsertAt([48, 16], 0, 32);
    assert r[0] == 32 && r[1] == 48;
  }

  // ---------------------------------------------------------------------
  // First fit.

  /** Index of the first entry whose block size is at least asize (|s| when none is). */
  function FirstFitIndex(m: Mem, s: seq<int>, asize: int): (i: nat)
    requires Nodes(m, s)
    ensures i <= |s|
    ensures i < |s| ==> asize <= BlockSize(m, s[i])
    ensures forall k :: 0 <= k < i ==> BlockSize(m, s[k]) < asize
  {
    if |s| == 0 then 0
    else if asize <= BlockSize(m, s[0]) then 0
    else 1 + FirstFitIndex(m, s[1..], asize)
  }

  /** The block findOpenSpot should return: the first fitting entry, or NULL. */
  function FirstFit(m: Mem, s: seq<int>, asize: int): (bp: int)
    requires Nodes(m, s)
  {
    var i := FirstFitIndex(m, s, asize);
    if i < |s| then s[i] else 0
  }

  /** First fit returns NULL exactly when no entry fits, else a fitting entry with no fitting entry before it. */
  lemma FirstFitSpec(m: Mem, s: seq<int>, asize: int)
    requires Nodes(m, s)
    ensures FirstFit(m, s, asize) == 0 <==> forall k :: 0 <= k < |s| ==> BlockSize(m, s[k]) < asize
    ensures FirstFit(m, s, asize) != 0 ==>
      exists i :: 0 <= i < |s| && s[i] == FirstFit(m, s, asize) && asize <= BlockSize(m, s[i])
        && forall k :: 0 <= k < i ==> BlockSize(m, s[k]) < asize
  {
    var i := FirstFitIndex(m, s, asize);
    if i < |s| {
      assert IsNode(m, s[i]);
    }
  }

  /** Skipping an entry that does not fit leaves the first fit unchanged. */
  lemma FirstFitStep(m: Mem, s: seq<int>, asize: int, k: int)
    requires Nodes(m, s)
    requires 0 <= k < |s| && BlockSize(m, s[k]) < asize
    ensures FirstFit(m, s[k..], asize) == FirstFit(m, s[k + 1..], asize)
  {
    assert s[k..][1..] == s[k + 1..];
  }
}
