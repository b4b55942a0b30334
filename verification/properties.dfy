/**
 What the allocator promises across calls: allocate and deallocate keep the
 table valid, move exactly the requested amount between free and used space,
 and undo each other.
 */
module Properties {
  import opened Wrappers
  import opened Blocks
  import opened Strategy
  import opened MemoryManager

  /** Whether `Coalesce(t, i)` merges block `i` into its predecessor. */
  predicate MergesPrev(t: Table, i: nat)
    requires i < |t|
  {
    i > 0 && t[i - 1].free
  }

  /** Whether `Coalesce(t, i)` merges block `i` with its successor. */
  predicate MergesNext(t: Table, i: nat)
    requires i < |t|
  {
    i + 1 < |t| && t[i + 1].free
  }

  /** The run `Coalesce(t, i)` merges is t[RunLo(t, i)..RunHi(t, i)]. */
  function RunLo(t: Table, i: nat): nat
    requires i < |t|
  {
    if MergesPrev(t, i) then i - 1 else i
  }

  function RunHi(t: Table, i: nat): nat
    requires i < |t|
  {
    if MergesNext(t, i) then i + 2 else i + 1
  }

  /** The total size of the run `Coalesce(t, i)` merges. */
  function RunSize(t: Table, i: nat): int
    requires i < |t|
  {
    (if MergesPrev(t, i) then t[i - 1].size else 0)
    + t[i].size
    + (if MergesNext(t, i) then t[i + 1].size else 0)
  }

  /**
   The run of block `i` and its free neighbours, replaced by one free block
   starting where the run starts and as large as the whole run.
   */
  function MergedRun(t: Table, i: nat): Table
    requires i < |t|
  {
    t[..RunLo(t, i)] + [Block(t[RunLo(t, i)].start, RunSize(t, i), true)] + t[RunHi(t, i)..]
  }

  /** Coalescing block `i` is replacing its run by one free block. */
  lemma CoalesceMerges(t: Table, i: nat)
    requires i < |t|
    ensures Coalesce(t, i) == MergedRun(t, i)
  {
    var marked := t[i := t[i].(free := true)];
    assert marked[..i] == t[..i] && marked[i + 1..] == t[i + 1..];
    if MergesPrev(t, i) {
      assert marked[..i - 1] == t[..i - 1];
      var once := AbsorbNext(marked, i - 1);
      assert once == t[..i - 1] + [Block(t[i - 1].start, t[i - 1].size + t[i].size, true)] + t[i + 1..];
      if MergesNext(t, i) {
        assert once[i] == t[i + 1];
        assert once[..i - 1] == t[..i - 1] && once[i + 1..] == t[i + 2..];
      } else {
        assert i + 1 < |t| ==> once[i] == t[i + 1];
      }
    } else {
      if MergesNext(t, i) {
        assert marked[i + 2..] == t[i + 2..];
      }
    }
  }

  lemma MergedRunValid(t: Table, i: nat, memorySize: int)
    requires Valid(t, memorySize) && i < |t|
    ensures Valid(MergedRun(t, i), memorySize)
  {
    var lo, hi := RunLo(t, i), RunHi(t, i);
    assert RunSize(t, i) == Limit(t[hi - 1]) - t[lo].start by {
      if i > 0 {
        assert Links(t[i - 1], t[i]);
      }
      if i + 1 < |t| {
        assert Links(t[i], t[i + 1]);
      }
    }
    assert lo > 0 ==> !t[lo - 1].free by {
      if MergesPrev(t, i) && i > 1 {
        assert Links(t[i - 2], t[i - 1]);
      }
    }
    assert hi < |t| ==> !t[hi].free by {
      if MergesNext(t, i) && i + 2 < |t| {
        assert Links(t[i + 1], t[i + 2]);
      }
    }
    MergeRunValid(t, lo, hi, RunSize(t, i), memorySize);
  }

  lemma MergedRunTotal(t: Table, i: nat, free: bool)
    requires i < |t|
    ensures var freed := if t[i].free then 0 else t[i].size;
            Total(MergedRun(t, i), free) == Total(t, free) + (if free then freed else -freed)
  {
    var lo, hi := RunLo(t, i), RunHi(t, i);
    var merged := Block(t[lo].start, RunSize(t, i), true);
    SpliceTotal(t, lo, hi, [merged], free);
    TotalSingle(merged, free);
    TotalSingle(t[i], free);
    var p := if MergesPrev(t, i) then [t[i - 1]] else [];
    var n := if MergesNext(t, i) then [t[i + 1]] else [];
    assert t[lo..hi] == p + [t[i]] + n;
    TotalConcat(p + [t[i]], n, free);
    TotalConcat(p, [t[i]], free);
    if MergesPrev(t, i) {
      TotalSingle(t[i - 1], free);
    }
    if MergesNext(t, i) {
      TotalSingle(t[i + 1], free);
    }
  }

  /** Coalescing any block of a valid table keeps it valid. */
  lemma CoalescePreservesValid(t: Table, i: nat, memorySize: int)
    requires Valid(t, memorySize) && i < |t|
    ensures Valid(Coalesce(t, i), memorySize)
  {
    CoalesceMerges(t, i);
    MergedRunValid(t, i, memorySize);
  }

  /** Coalescing block `i` moves its size to free space if it was used. */
  lemma CoalesceAccounting(t: Table, i: nat)
    requires i < |t|
    ensures var freed := if t[i].free then 0 else t[i].size;
            && Total(Coalesce(t, i), true) == Total(t, true) + freed
            && Total(Coalesce(t, i), false) == Total(t, false) - freed
  {
    CoalesceMerges(t, i);
    MergedRunTotal(t, i, true);
    MergedRunTotal(t, i, false);
  }

  /** Carving a positive request out of an eligible block keeps the table valid. */
  lemma SplitPreservesValid(t: Table, i: nat, size: int, memorySize: int)
    requires Valid(t, memorySize) && i < |t| && size > 0 && Eligible(t[i], size)
    ensures Valid(Split(t, i, size), memorySize)
  {
    var mid := Carve(t[i], size);
    assert Chain(mid) by {
      if |mid| == 2 {
        assert Links(mid[0], mid[1]);
      }
    }
    assert i > 0 ==> Links(t[i - 1], mid[0]) by {
      if i > 0 {
        assert Links(t[i - 1], t[i]);
      }
    }
    assert i + 1 < |t| ==> Links(mid[|mid| - 1], t[i + 1]) by {
      if i + 1 < |t| {
        assert Links(t[i], t[i + 1]);
      }
    }
    SpliceValid(t, i, i + 1, mid, memorySize);
  }

  /** Carving a request out of a free block moves exactly `size` to used space. */
  lemma SplitAccounting(t: Table, i: nat, size: int)
    requires i < |t| && t[i].free
    ensures Total(Split(t, i, size), true) == Total(t, true) - size
    ensures Total(Split(t, i, size), false) == Total(t, false) + size
  {
    var mid := Carve(t[i], size);
    assert t[i..i + 1] == [t[i]];
    if |mid| == 2 {
      assert mid == [mid[0]] + [mid[1]];
      TotalConcat([mid[0]], [mid[1]], true);
      TotalConcat([mid[0]], [mid[1]], false);
    }
    SpliceTotal(t, i, i + 1, mid, true);
    SpliceTotal(t, i, i + 1, mid, false);
  }

  /**
   On a valid table, coalescing the block just carved for a positive request
   gives back the table as it was before the request.
   */
  lemma CoalesceUndoesSplit(t: Table, i: nat, size: int, memorySize: int)
    requires Valid(t, memorySize) && i < |t| && size > 0 && Eligible(t[i], size)
    ensures Coalesce(Split(t, i, size), i) == t
  {
    var t' := Split(t, i, size);
    var k := |Carve(t[i], size)|;
    assert t'[..i] == t[..i] && t'[i + k..] == t[i + 1..];
    assert !MergesPrev(t', i) by {
      if i > 0 {
        assert Links(t[i - 1], t[i]);
        assert t'[i - 1] == t[i - 1];
      }
    }
    assert MergesNext(t', i) <==> k == 2 by {
      if k == 1 && i + 1 < |t| {
        assert Links(t[i], t[i + 1]);
        assert t'[i + 1] == t[i + 1];
      }
    }
    assert RunHi(t', i) == i + k && RunSize(t', i) == t[i].size;
    CoalesceMerges(t', i);
    assert MergedRun(t', i) == t[..i] + [t[i]] + t[i + 1..] == t;
  }

  /** On a valid table no two blocks start at the same address. */
  lemma StartsDistinct(t: Table, memorySize: int, j: nat, k: nat)
    requires Valid(t, memorySize) && j < |t| && k < |t| && t[j].start == t[k].start
    ensures j == k
  {
    if j < k {
      Ordered(t, j, k);
    } else if k < j {
      Ordered(t, k, j);
    }
  }

  /** On a valid table, `Find` returns the index of any block starting at `start`. */
  lemma FindValid(t: Table, memorySize: int, i: nat)
    requires Valid(t, memorySize) && i < |t|
    ensures Find(t, t[i].start) == Some(i)
  {
    var r := Find(t, t[i].start);
    StartsDistinct(t, memorySize, i, r.value);
  }

  /** No block of a valid table starts strictly inside block `k`. */
  lemma NoStartInside(t: Table, memorySize: int, k: nat, a: int)
    requires Valid(t, memorySize) && k < |t| && t[k].start < a < Limit(t[k])
    ensures forall j :: 0 <= j < |t| ==> t[j].start != a
  {
    forall j | 0 <= j < |t|
      ensures t[j].start != a
    {
      if j < k {
        Ordered(t, j, k);
      } else if k < j {
        Ordered(t, k, j);
      }
    }
  }

  /** Allocating a positive size keeps the allocator valid. */
  lemma AllocatePreservesValid(m: Manager, size: int, algorithm: Algorithm)
    requires m.Valid() && size > 0
    ensures Allocate(m, size, algorithm).0.Valid()
  {
    var r := Choose(m.table, size, algorithm);
    if r.Some? {
      SplitPreservesValid(m.table, r.value, size, m.memorySize);
    }
  }

  /** A successful allocation moves exactly `size` from free to used space. */
  lemma AllocateAccounting(m: Manager, size: int, algorithm: Algorithm)
    requires Allocate(m, size, algorithm).1.Some?
    ensures Total(Allocate(m, size, algorithm).0.table, true) == Total(m.table, true) - size
    ensures Total(Allocate(m, size, algorithm).0.table, false) == Total(m.table, false) + size
  {
    SplitAccounting(m.table, Choose(m.table, size, algorithm).value, size);
  }

  /**
   On a valid allocator, deallocating the start of block `i` succeeds and
   replaces the run of that block and its free neighbours by one free block.
   */
  lemma DeallocateMerges(m: Manager, i: nat)
    requires m.Valid() && i < |m.table|
    ensures Deallocate(m, m.table[i].start) == (m.(table := MergedRun(m.table, i)), true)
  {
    FindValid(m.table, m.memorySize, i);
    CoalesceMerges(m.table, i);
  }

  /** Deallocating keeps the allocator valid, whether or not a block is found. */
  lemma DeallocatePreservesValid(m: Manager, start: int)
    requires m.Valid()
    ensures Deallocate(m, start).0.Valid()
  {
    var r := Find(m.table, start);
    if r.Some? {
      CoalescePreservesValid(m.table, r.value, m.memorySize);
    }
  }

  /** Releasing a used block of a valid allocator moves its size to free space. */
  lemma DeallocateAccounting(m: Manager, i: nat)
    requires m.Valid() && i < |m.table|
    ensures var freed := if m.table[i].free then 0 else m.table[i].size;
            var m' := Deallocate(m, m.table[i].start).0;
            && Total(m'.table, true) == Total(m.table, true) + freed
            && Total(m'.table, false) == Total(m.table, false) - freed
  {
    FindValid(m.table, m.memorySize, i);
    CoalesceAccounting(m.table, i);
  }

  /**
   On a valid allocator, allocating a positive size and then deallocating the
   returned start restores the allocator exactly.
   */
  lemma AllocateDeallocateRoundTrip(m: Manager, size: int, algorithm: Algorithm)
    requires m.Valid() && size > 0
    requires Allocate(m, size, algorithm).1.Some?
    ensures var (m', start) := Allocate(m, size, algorithm);
            Deallocate(m', start.value) == (m, true)
  {
    var t := m.table;
    var i := Choose(t, size, algorithm).value;
    SplitPreservesValid(t, i, size, m.memorySize);
    FindValid(Split(t, i, size), m.memorySize, i);
    CoalesceUndoesSplit(t, i, size, m.memorySize);
  }

  /** Releasing a block that is already free leaves a valid allocator unchanged. */
  lemma DeallocateFreeBlock(m: Manager, i: nat)
    requires m.Valid() && i < |m.table| && m.table[i].free
    ensures Deallocate(m, m.table[i].start) == (m, true)
  {
    var t := m.table;
    FindValid(t, m.memorySize, i);
    CoalesceMerges(t, i);
    assert !MergesPrev(t, i) by {
      if i > 0 {
        assert Links(t[i - 1], t[i]);
      }
    }
    assert !MergesNext(t, i) by {
      if i + 1 < |t| {
        assert Links(t[i], t[i + 1]);
      }
    }
    assert t[..i] + [t[i]] + t[i + 1..] == t;
  }

  /** Deallocating the same start twice has the effect of deallocating it once. */
  lemma DeallocateIdempotent(m: Manager, start: int)
    requires m.Valid()
    ensures var m1 := Deallocate(m, start).0;
            Deallocate(m1, start).0 == m1
  {
    var t := m.table;
    var m1 := Deallocate(m, start).0;
    DeallocatePreservesValid(m, start);
    var r := Find(t, start);
    if r.Some? {
      var i := r.value;
      CoalesceMerges(t, i);
      if MergesPrev(t, i) {
        assert Links(t[i - 1], t[i]);
        NoStartInside(m1.table, m.memorySize, i - 1, start);
      } else {
        DeallocateFreeBlock(m1, i);
      }
    }
  }

  /**
   An unguarded request of size 0 is placed, and leaves a zero-size used block
   in the table: the size > 0 premise of the lemmas above is needed.
   */
  lemma ZeroSizeBreaksValid()
    ensures var (m, start) := Allocate(New(1000), 0, FirstFit);
            start == Some(0) && !m.Valid()
  {
    var t := Allocate(New(1000), 0, FirstFit).0.table;
    assert t[0].size == 0;
  }

  /** Allocate 200 first-fit from 1000, query, then release it. */
  lemma ScenarioFirstFitAndRelease()
    ensures var (m, start) := Allocate(New(1000), 200, FirstFit);
            && start == Some(0)
            && m.table == [Block(0, 200, false), Block(200, 800, true)]
            && Total(m.table, true) == 800
            && Deallocate(m, 0) == (New(1000), true)
  {
    var m0 := New(1000);
    assert Choose(m0.table, 200, FirstFit) == Some(0);
    var t := Allocate(m0, 200, FirstFit).0.table;
    assert t == [Block(0, 200, false)] + [Block(200, 800, true)];
    TotalConcat([Block(0, 200, false)], [Block(200, 800, true)], true);
    TotalSingle(Block(0, 200, false), true);
    TotalSingle(Block(200, 800, true), true);
    AllocateDeallocateRoundTrip(m0, 200, FirstFit);
  }

  /** Requests that cannot be met, and starts that match no block, change nothing. */
  lemma ScenarioFailures()
    ensures Allocate(New(1000), 1200, FirstFit) == (New(1000), None)
    ensures Deallocate(New(1000), 999) == (New(1000), false)
  {
  }

  /**
   Free blocks of 300 and 600 around a used block of 100: for 250 first-fit
   and best-fit take the first block, worst-fit the last; with two free blocks
   of 300 all three take the first.
   */
  lemma ScenarioStrategies()
    ensures var t := [Block(0, 300, true), Block(300, 100, false), Block(400, 600, true)];
            && Choose(t, 250, FirstFit) == Some(0)
            && Choose(t, 250, BestFit) == Some(0)
            && Choose(t, 250, WorstFit) == Some(2)
    ensures var t := [Block(0, 300, true), Block(300, 100, false), Block(400, 300, true)];
            && Choose(t, 250, BestFit) == Some(0)
            && Choose(t, 250, WorstFit) == Some(0)
  {
    var t := [Block(0, 300, true), Block(300, 100, false), Block(400, 600, true)];
    ChooseExactly(t, 250, FirstFit, 0);
    ChooseExactly(t, 250, BestFit, 0);
    ChooseExactly(t, 250, WorstFit, 2);
    var u := [Block(0, 300, true), Block(300, 100, false), Block(400, 300, true)];
    ChooseExactly(u, 250, BestFit, 0);
    ChooseExactly(u, 250, WorstFit, 0);
  }
}
