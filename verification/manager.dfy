/**
 The allocator: a memory size fixed at construction and the allocation table,
 with the operations allocate, deallocate and the free-space queries.
 Operations return the next allocator value instead of mutating one.
 */
module MemoryManager {
  import opened Wrappers
  import opened Blocks
  import opened Strategy

  datatype Manager = Manager(memorySize: int, table: Table) {

    /** The table tiles [0, memorySize) as `Blocks.Valid` requires. */
    predicate Valid() {
      Blocks.Valid(table, memorySize)
    }
  }

  /** A new allocator holds a single free block spanning the whole memory. */
  function New(memorySize: int): (m: Manager)
    ensures m.memorySize == memorySize && |m.table| == 1
    ensures m.table[0].start == 0 && m.table[0].free
    ensures Total(m.table, true) == memorySize && Total(m.table, false) == 0
    ensures m.Valid() <==> memorySize > 0
  {
    Manager(memorySize, [Block(0, memorySize, true)])
  }

  /**
   The blocks that replace a chosen block `b` for a request of `size`: `b`
   itself marked used on an exact fit, otherwise `b` shrunk to `size` and
   marked used, followed by a free block holding the rest.
   */
  function Carve(b: Block, size: int): (r: Table)
    ensures |r| == (if b.size == size then 1 else 2)
    ensures r[0] == Block(b.start, size, false)
    ensures |r| == 2 ==> r[1] == Block(b.start + size, b.size - size, true)
    ensures b.size >= size > 0 ==> forall k :: 0 <= k < |r| ==> r[k].size > 0
  {
    if b.size == size then [b.(free := false)]
    else [Block(b.start, size, false), Block(b.start + size, b.size - size, true)]
  }

  /** Replaces block `i` by its carving for a request of `size`. */
  function Split(t: Table, i: nat, size: int): (r: Table)
    requires i < |t|
    ensures t[i].size == size ==>
      && |r| == |t|
      && r[i] == t[i].(free := false)
      && forall j :: 0 <= j < |t| && j != i ==> r[j] == t[j]
    ensures t[i].size != size ==>
      && |r| == |t| + 1
      && r[i] == Block(t[i].start, size, false)
      && r[i + 1] == Block(t[i].start + size, t[i].size - size, true)
      && (forall j :: 0 <= j < i ==> r[j] == t[j])
      && (forall j :: i < j < |t| ==> r[j + 1] == t[j])
  {
    t[..i] + Carve(t[i], size) + t[i + 1..]
  }

  /**
   Places a request with the given algorithm. On success the result carries
   the start of the chosen block; on failure the allocator is unchanged.
   */
  function Allocate(m: Manager, size: int, algorithm: Algorithm): (r: (Manager, Option<int>))
    ensures r.0.memorySize == m.memorySize
    ensures r.1.None? <==> algorithm == Unrecognised || NoneEligible(m.table, size)
    ensures r.1.None? ==> r.0 == m
    ensures r.1.Some? ==>
      exists i :: Chosen(m.table, size, algorithm, i)
        && r.1.value == m.table[i].start
        && r.0.table == Split(m.table, i, size)
  {
    match Choose(m.table, size, algorithm)
    case None => (m, None)
    case Some(i) => (m.(table := Split(m.table, i, size)), Some(m.table[i].start))
  }

  /** The index of the first block starting at `start`, searching from `i`. */
  function FindFrom(t: Table, start: int, i: nat): (r: Option<nat>)
    requires i <= |t|
    ensures r.Some? ==> i <= r.value < |t| && t[r.value].start == start
    ensures r.Some? ==> forall j :: i <= j < r.value ==> t[j].start != start
    ensures r.None? ==> forall j :: i <= j < |t| ==> t[j].start != start
    decreases |t| - i
  {
    if i == |t| then None
    else if t[i].start == start then Some(i)
    else FindFrom(t, start, i + 1)
  }

  function Find(t: Table, start: int): (r: Option<nat>)
    ensures r.Some? ==> r.value < |t| && t[r.value].start == start
    ensures r.Some? ==> forall j :: 0 <= j < r.value ==> t[j].start != start
    ensures r.None? ==> forall j :: 0 <= j < |t| ==> t[j].start != start
  {
    FindFrom(t, start, 0)
  }

  /** When the block after `j` is free, block `j` absorbs it. */
  function AbsorbNext(t: Table, j: nat): Table
    requires j < |t|
  {
    if j < |t| - 1 && t[j + 1].free then
      t[..j] + [t[j].(size := t[j].size + t[j + 1].size)] + t[j + 2..]
    else
      t
  }

  /**
   Frees block `i`: a free predecessor absorbs it, and then the resulting
   block absorbs a free successor. The predecessor's merge is `AbsorbNext`
   at `i - 1`, since the freed block is then the predecessor's successor.
   */
  function Coalesce(t: Table, i: nat): Table
    requires i < |t|
  {
    var marked := t[i := t[i].(free := true)];
    if i > 0 && t[i - 1].free then
      AbsorbNext(AbsorbNext(marked, i - 1), i - 1)
    else
      AbsorbNext(marked, i)
  }

  /**
   Releases the block starting at `start`. The flag reports whether such a
   block exists; when it does not, the allocator is unchanged.
   */
  function Deallocate(m: Manager, start: int): (r: (Manager, bool))
    ensures r.0.memorySize == m.memorySize
    ensures r.1 <==> exists i :: 0 <= i < |m.table| && m.table[i].start == start
    ensures !r.1 ==> r.0 == m
  {
    match Find(m.table, start)
    case None => (m, false)
    case Some(i) => (m.(table := Coalesce(m.table, i)), true)
  }

  /** getFragmentation: the total size of the free blocks. */
  method Fragmentation(m: Manager) returns (f: int)
    ensures f == Total(m.table, true)
    ensures m.Valid() ==> f == m.memorySize - Total(m.table, false)
  {
    f := 0;
    var i := 0;
    while i < |m.table|
      invariant 0 <= i <= |m.table|
      invariant f == Total(m.table[..i], true)
    {
      assert m.table[..i + 1][..i] == m.table[..i];
      if m.table[i].free {
        f := f + m.table[i].size;
      }
      i := i + 1;
    }
    assert m.table[..i] == m.table;
    if m.Valid() {
      FreePlusUsed(m.table, m.memorySize);
    }
  }

  /** getWastedMemory: computed by the same sum as getFragmentation. */
  method WastedMemory(m: Manager) returns (w: int)
    ensures w == Total(m.table, true)
    ensures m.Valid() ==> w == m.memorySize - Total(m.table, false)
  {
    w := Fragmentation(m);
  }
}
