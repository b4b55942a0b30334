# Block-table memory allocator, modelled in Dafny

This project models the allocator core of a memory-management simulation. A
`MemoryManager` owns a fixed `memorySize` and an allocation table. The table
is an ordered list of `MemoryBlock(start, size, free)` records that partition
the address range `[0, memorySize)`. The manager has five operations:

- construction, which gives one free block covering the whole range;
- `allocate(size, algorithm)`, which picks a free block by first-fit, best-fit
  or worst-fit, marks it used and splits off a free remainder when the fit is
  not exact;
- `deallocate(start)`, which finds the block with exactly that start, marks it
  free and merges it with a free predecessor and/or a free successor;
- `getFragmentation` and `getWastedMemory`, which both return the total size
  of the free blocks.

The model is functional. A block is an immutable `Block` value, and the table
is a `seq<Block>`. Each operation returns a new `Manager` value instead of
mutating one.

Files:

- `wrappers.dfy` (`Wrappers`): `Option`, used where the source has the -1
  sentinel.
- `blocks.dfy` (`Blocks`): the `Block` datatype and the table invariant
  `Valid(t, memorySize)`. The invariant says that the blocks tile
  `[0, memorySize)` contiguously, every size is positive, and no two
  neighbouring blocks are both free. The module also has `Total`, the free or
  used space sum, and the lemmas about replacing a slice of the table.
- `strategy.dfy` (`Strategy`): the algorithm datatype and a declarative rule
  `Chosen` for each placement algorithm. It also has scans that follow the
  source's loops, with `None` in place of the `Integer.MAX_VALUE` and `-1`
  sentinels.
- `manager.dfy` (`MemoryManager`): the manager and its operations. The merge
  that `deallocate` performs is `Coalesce`, built from `AbsorbNext`: a free
  predecessor absorbs the released block, and the result then absorbs a free
  successor. These two carry no contract of their own. What they compute is
  stated by `Properties.CoalesceMerges` against the independent description
  `Properties.MergedRun`, and at the allocator level by
  `Properties.DeallocateMerges`.
- `properties.dfy` (`Properties`): what holds across calls. Allocate and
  deallocate keep the table valid. They move exactly the block's size between
  free and used space. Deallocating the start that allocate returned restores
  the table exactly. Deallocating twice has the same effect as once.

The algorithm name is a string in the source. Here it is the datatype
`Algorithm = FirstFit | BestFit | WorstFit | Unrecognised`, and
`AlgorithmNamed` maps the three names `"First-Fit"`, `"Best-Fit"` and
`"Worst-Fit"` onto it. Any other name maps to `Unrecognised`, and allocation
with it always fails, as it does in the source.

The allocator's code has no guards and raises no errors; the model follows the code:

- `allocate` has no guard on `size`. `MemoryManager.Allocate` is therefore
  total. The validity, accounting and round-trip lemmas assume `size > 0`, and
  `Properties.ZeroSizeBreaksValid` shows why: a request of size 0 is placed and
  leaves a zero-size used block in the table.
- Failures are not raised. A failed allocation returns `None`, which stands for
  the source's `-1`. A failed deallocation returns `false` with the manager
  unchanged; the source prints a message and returns nothing.
- The constructor does not reject `memorySize <= 0`. `MemoryManager.New`
  builds the one-block table anyway, and its contract says the result is valid
  exactly when `memorySize > 0`.

## Model

| member | source | states |
|---|---|---|
| MemoryManager.New | MemoryManagementSimulation.java:24-28 | the new table is one free block starting at 0; free space is `memorySize` and used space 0; the manager is valid exactly when `memorySize > 0` |
| Strategy.FirstFitFrom | MemoryManagementSimulation.java:35-44 | the scan returns the lowest eligible (free and large enough) index at or after `i`, and `None` only when no block from `i` on is eligible |
| Strategy.ExtremeFrom | MemoryManagementSimulation.java:45-72 | the best-fit and worst-fit loops, with a strict `<` or `>` against the incumbent, end on the block that `Chosen` designates: least (or greatest) leftover, earliest index on ties, exact fits included; `None` only when nothing is eligible |
| Strategy.Choose | MemoryManagementSimulation.java:35-73 | the chosen index satisfies the algorithm's declarative rule; there is no choice exactly when the algorithm is unrecognised or no block is eligible |
| Strategy.ChooseExactly | MemoryManagementSimulation.java:35-73 | `Choose` returns `i` if and only if `i` is the block the declarative rule designates |
| Strategy.ChosenUnique | MemoryManagementSimulation.java:45-72 | the strict comparisons leave no freedom: at most one index satisfies each algorithm's rule |
| MemoryManager.Carve | MemoryManagementSimulation.java:80-89 | the chosen block is replaced by a used block of the requested size at the same start, followed, unless the fit is exact, by a free block holding the rest; all sizes are positive for a positive request that fits |
| MemoryManager.Split | MemoryManagementSimulation.java:80-89 | an exact fit keeps the table length and only marks block `i` used; otherwise block `i` shrinks to `size`, a free block `(start + size, oldSize - size)` follows it, and every other block is unchanged (shifted by one after `i`) |
| MemoryManager.Allocate | MemoryManagementSimulation.java:30-90 | allocation fails exactly when the algorithm is unrecognised or no free block is large enough, and then the manager is unchanged; on success it returns the start of the block the algorithm's rule designates and the table is that block split |
| MemoryManager.FindFrom | MemoryManagementSimulation.java:93-95 | returns the first index at or after `i` whose block starts at `start`, or `None` when no such block exists |
| MemoryManager.Find | MemoryManagementSimulation.java:93-95 | returns the first index whose block starts at `start`, or `None` when no block starts there |
| MemoryManager.Deallocate | MemoryManagementSimulation.java:92-113 | reports success exactly when some block starts at `start`; otherwise the manager is unchanged (the table after a successful release is stated by `Properties.DeallocateMerges`) |
| MemoryManager.Fragmentation | MemoryManagementSimulation.java:115-123 | returns the total size of the free blocks, which on a valid manager is `memorySize` minus the used space |
| MemoryManager.WastedMemory | MemoryManagementSimulation.java:125-133 | returns the same quantity as `Fragmentation`: free space, equal to `memorySize` minus used space on a valid manager |
| Blocks.FreePlusUsed | MemoryManagementSimulation.java:115-133 | on a valid table, free space plus used space is exactly `memorySize` |
| Properties.CoalesceMerges | MemoryManagementSimulation.java:96-108 | releasing block `i` (`MemoryManager.Coalesce`) replaces the run formed by it and its free neighbours with one free block that starts where the run starts and is as large as the whole run; at most one predecessor and one successor are merged, and every other block is unchanged |
| Properties.CoalescePreservesValid | MemoryManagementSimulation.java:96-108 | releasing any block of a valid table leaves a valid table, with no two neighbouring free blocks |
| Properties.CoalesceAccounting | MemoryManagementSimulation.java:96-108 | releasing a used block adds its size to free space and removes it from used space; releasing a free block moves nothing |
| Properties.SplitPreservesValid | MemoryManagementSimulation.java:80-89 | carving a positive request out of a free block that is large enough keeps the table valid |
| Properties.SplitAccounting | MemoryManagementSimulation.java:80-89 | carving a request out of a free block lowers free space and raises used space by exactly the request |
| Properties.CoalesceUndoesSplit | MemoryManagementSimulation.java:80-108 | on a valid table, releasing the block just carved for a positive request restores the table exactly, both on an exact fit and after a split |
| Properties.FindValid | MemoryManagementSimulation.java:93-95 | on a valid table, the lookup by start finds the one block with that start |
| Properties.AllocatePreservesValid | MemoryManagementSimulation.java:30-90 | allocating a positive size, by any algorithm, keeps a valid manager valid |
| Properties.AllocateAccounting | MemoryManagementSimulation.java:80-89 | a successful allocation lowers free space (what `getFragmentation` returns) by exactly the request and raises used space by the same amount |
| Properties.DeallocateMerges | MemoryManagementSimulation.java:92-113 | on a valid manager, deallocating the start of block `i` succeeds, and the new table replaces block `i` together with a free predecessor and/or a free successor by one free block covering all of them (`MemoryManager.AbsorbNext` applied by `MemoryManager.Coalesce`); the memory size is unchanged |
| Properties.DeallocatePreservesValid | MemoryManagementSimulation.java:92-113 | deallocating any start, found or not, keeps a valid manager valid |
| Properties.DeallocateAccounting | MemoryManagementSimulation.java:92-113 | on a valid manager, deallocating a used block's start raises free space by that block's size; deallocating a free block's start moves nothing |
| Properties.AllocateDeallocateRoundTrip | MemoryManagementSimulation.java:30-113 | on a valid manager, a successful allocation of a positive size followed by deallocation of the returned start succeeds and restores the manager exactly |
| Properties.DeallocateFreeBlock | MemoryManagementSimulation.java:95-108 | deallocating the start of a block that is already free succeeds and changes nothing on a valid manager |
| Properties.DeallocateIdempotent | MemoryManagementSimulation.java:92-113 | on a valid manager, deallocating a start a second time changes nothing more |
| Properties.ZeroSizeBreaksValid | MemoryManagementSimulation.java:82-88 | with no guard, a request of size 0 succeeds and leaves a table that is not valid |
| Properties.ScenarioFirstFitAndRelease | MemoryManagementSimulation.java:145-151 | on 1000 units, first-fit of 200 returns 0 and leaves `[(0,200,used),(200,800,free)]` with 800 free; deallocating 0 gives back the fresh manager |
| Properties.ScenarioFailures | MemoryManagementSimulation.java:75-78 | a request of 1200 on 1000 units fails and a deallocation at 999 finds nothing; both leave the manager unchanged |
| Properties.ScenarioStrategies | MemoryManagementSimulation.java:35-72 | with free blocks of 300 and 600 around a used 100, a request of 250 goes to the first block under first-fit and best-fit and to the last under worst-fit; with equal free blocks the tie goes to the first |

## Left out

- Console output is not modelled. This covers the failure messages at lines 76 and 112, `printAllocationTable` and `MemoryBlock.toString`. The deallocation message becomes the `false` flag of `MemoryManager.Deallocate`.
- The `main` demonstration driver is not modelled; it only calls the four operations. Its first round is replayed by `Properties.ScenarioFirstFitAndRelease`.
- Java `int` overflow is not modelled; all sizes and addresses are unbounded integers. This includes one edge of the `Integer.MAX_VALUE` sentinel in best-fit: in the source, an eligible block whose leftover is exactly `Integer.MAX_VALUE` is never chosen. That leftover needs a request of size 0 or less.
- Aliasing of the mutable `MemoryBlock` objects inside the list is not modelled: blocks are values.
- The string comparison of algorithm names is reduced to `AlgorithmNamed`, a plain mapping onto the `Algorithm` datatype.
