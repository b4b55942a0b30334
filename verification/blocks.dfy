/**
 The allocation table: an ordered sequence of blocks, each a half-open address
 range [start, start + size) tagged free or used, together with the invariant
 the allocator keeps and the free/used space accounting.
 */
module Blocks {

  /** One entry of the allocation table. */
  datatype Block = Block(start: int, size: int, free: bool)

  type Table = seq<Block>

  /** The first address after the block. */
  function Limit(b: Block): int {
    b.start + b.size
  }

  /** `b` starts where `a` ends, and the two are not both free. */
  predicate Links(a: Block, b: Block) {
    b.start == Limit(a) && !(a.free && b.free)
  }

  /** Every block is non-empty and each block is linked to its successor. */
  predicate Chain(t: Table) {
    && (forall i :: 0 <= i < |t| ==> t[i].size > 0)
    && (forall i :: 0 <= i < |t| - 1 ==> Links(t[i], t[i + 1]))
  }

  /**
   The table invariant: the blocks tile [0, memorySize) contiguously, every
   block has a positive size and no two neighbouring blocks are both free.
   */
  predicate Valid(t: Table, memorySize: int) {
    && |t| > 0
    && t[0].start == 0
    && Chain(t)
    && Limit(t[|t| - 1]) == memorySize
  }

  /** The sum of the sizes of the blocks whose free flag equals `free`. */
  function Total(t: Table, free: bool): (r: int)
    ensures (forall i :: 0 <= i < |t| ==> t[i].size >= 0) ==> r >= 0
    decreases |t|
  {
    if |t| == 0 then 0
    else
      var last := t[|t| - 1];
      Total(t[..|t| - 1], free) + (if last.free == free then last.size else 0)
  }

  lemma TotalSingle(b: Block, free: bool)
    ensures Total([b], free) == if b.free == free then b.size else 0
  {
    assert [b][..0] == [];
  }

  lemma {:induction false} TotalConcat(a: Table, b: Table, free: bool)
    ensures Total(a + b, free) == Total(a, free) + Total(b, free)
    decreases |b|
  {
    if |b| == 0 {
      assert a + b == a;
    } else {
      assert (a + b)[..|a + b| - 1] == a + b[..|b| - 1];
      TotalConcat(a, b[..|b| - 1], free);
    }
  }

  /** Replacing the slice t[lo..hi] by `mid` replaces its share of the total. */
  lemma SpliceTotal(t: Table, lo: nat, hi: nat, mid: Table, free: bool)
    requires lo <= hi <= |t|
    ensures Total(t[..lo] + mid + t[hi..], free)
         == Total(t, free) - Total(t[lo..hi], free) + Total(mid, free)
  {
    assert t == t[..lo] + t[lo..hi] + t[hi..];
    TotalConcat(t[..lo] + t[lo..hi], t[hi..], free);
    TotalConcat(t[..lo], t[lo..hi], free);
    TotalConcat(t[..lo] + mid, t[hi..], free);
    TotalConcat(t[..lo], mid, free);
  }

  /** The free and used sizes of a prefix of a chain add up to the prefix's span. */
  lemma {:induction false} PrefixSpan(t: Table, k: nat)
    requires Chain(t) && 1 <= k <= |t|
    ensures Total(t[..k], true) + Total(t[..k], false) == Limit(t[k - 1]) - t[0].start
  {
    if k == 1 {
      assert t[..1][..0] == [];
    } else {
      PrefixSpan(t, k - 1);
      assert t[..k][..k - 1] == t[..k - 1];
      assert Links(t[k - 2], t[k - 1]);
    }
  }

  /** On a valid table, free space plus used space is the whole memory. */
  lemma FreePlusUsed(t: Table, memorySize: int)
    requires Valid(t, memorySize)
    ensures Total(t, true) + Total(t, false) == memorySize
  {
    PrefixSpan(t, |t|);
    assert t[..|t|] == t;
  }

  /** In a chain, every block lies wholly before every later block. */
  lemma {:induction false} Ordered(t: Table, j: nat, k: nat)
    requires Chain(t) && j < k < |t|
    ensures Limit(t[j]) <= t[k].start
    decreases k - j
  {
    assert Links(t[k - 1], t[k]);
    if j < k - 1 {
      Ordered(t, j, k - 1);
    }
  }

  /**
   Replacing t[lo..hi] by a non-empty chain that links up with the blocks on
   either side keeps the table valid.
   */
  lemma SpliceValid(t: Table, lo: nat, hi: nat, mid: Table, memorySize: int)
    requires Valid(t, memorySize)
    requires lo <= hi <= |t| && |mid| > 0 && Chain(mid)
    requires lo == 0 ==> mid[0].start == 0
    requires lo > 0 ==> Links(t[lo - 1], mid[0])
    requires hi == |t| ==> Limit(mid[|mid| - 1]) == memorySize
    requires hi < |t| ==> Links(mid[|mid| - 1], t[hi])
    ensures Valid(t[..lo] + mid + t[hi..], memorySize)
  {
    var r := t[..lo] + mid + t[hi..];
    var n := lo + |mid|;
    assert |r| == n + |t| - hi;
    assert forall k :: 0 <= k < lo ==> r[k] == t[k];
    assert forall k :: lo <= k < n ==> r[k] == mid[k - lo];
    assert forall k :: n <= k < |r| ==> r[k] == t[k - n + hi];
    forall k | 0 <= k < |r| - 1
      ensures Links(r[k], r[k + 1])
    {
      if k + 1 < lo {
        assert Links(t[k], t[k + 1]);
      } else if k + 1 == lo {
      } else if k + 1 < n {
        assert Links(mid[k - lo], mid[k - lo + 1]);
      } else if k + 1 == n {
      } else {
        assert Links(t[k - n + hi], t[k - n + hi + 1]);
      }
    }
    forall k | 0 <= k < |r|
      ensures r[k].size > 0
    {
      if k < lo {
      } else if k < n {
        assert r[k] == mid[k - lo];
      } else {
        assert r[k] == t[k - n + hi];
      }
    }
  }

  /**
   Replacing the run t[lo..hi] by one free block spanning it keeps the table
   valid when the blocks on either side of the run are used.
   */
  lemma MergeRunValid(t: Table, lo: nat, hi: nat, size: int, memorySize: int)
    requires Valid(t, memorySize) && lo < hi <= |t|
    requires size == Limit(t[hi - 1]) - t[lo].start
    requires lo > 0 ==> !t[lo - 1].free
    requires hi < |t| ==> !t[hi].free
    ensures Valid(t[..lo] + [Block(t[lo].start, size, true)] + t[hi..], memorySize)
  {
    var merged := Block(t[lo].start, size, true);
    assert merged.size > 0 by {
      if lo < hi - 1 {
        Ordered(t, lo, hi - 1);
      }
    }
    assert lo > 0 ==> Links(t[lo - 1], merged) by {
      if lo > 0 {
        assert Links(t[lo - 1], t[lo]);
      }
    }
    assert hi < |t| ==> Links(merged, t[hi]) by {
      if hi < |t| {
        assert Links(t[hi - 1], t[hi]);
      }
    }
    SpliceValid(t, lo, hi, [merged], memorySize);
  }
}
