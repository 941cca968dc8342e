# Contiguous-memory allocator, modelled in Dafny

This project models the segment-list manager of a contiguous-memory allocator
simulator written in C (`main.c`). Memory is a list of segments (`struct Node`)
behind a dummy head node. Each segment has an owner: a process id, or the label
"Unused" for a free segment. It also has a size (`available_space`), a start
address and an end address. The head's `available_space` is the running total
of free bytes.

Clients request memory with a placement strategy (first, best or worst fit),
release a process, compact the free space, and ask for a status report.

The model has four modules:

- `Nodes` (`nodes.dfy`) holds the segment record and the quantities computed
  over a list of segments:
  - the free total;
  - the total of all sizes;
  - the ordered list of allocations (owner, size).

  It also holds the list invariant `WellFormed`, which combines these
  properties:
  - at least one segment;
  - no negative size;
  - the sizes add up to the highest address;
  - no two free neighbours;
  - no process owning two segments.
- `NodeList` (`node_list.dfy`) holds the list surgery of each C function as a
  pure function on the segment sequence, with the lemmas about it:
  - the split and renumbering of `create_node`;
  - the allocation that every strategy performs;
  - `merge` and release;
  - `swap_nodes` and the compaction pass;
  - the three selection rules with their tie-breaks.
- `MemoryManager` (`memory_manager.dfy`) holds the class `Memory`:
  - fields: the segment sequence, the head's counter, and the highest address;
  - one method per C function, written as loops over indices where the C code
    walks the global `temp` pointer;
  - each method is proved against its `NodeList` function;
  - the public operations preserve the class invariant `Valid()`:
    `WellFormed` holds, and the counter equals the free total.
- `Scenarios` (`scenarios.dfy`) holds worked examples, stated and proved as lemmas: two traces of command sequences from the initial list, and one compaction of a hand-made list.

Where the C code reads node `temp->next` after `k` steps from the head, the
model uses index `k` of the sequence. The head is never free, so position 0 has
no free predecessor.

## Model

| member | source | states |
|---|---|---|
| MemoryManager.Memory.constructor | main.c:507-524 | The initial list is one free block from 0 to size - 1, whose size is end - start. The counter holds that size and the invariant holds. |
| MemoryManager.Memory.FindProcess | main.c:173-190 | Reports a process exactly when some segment carries its id, and then returns the first such segment (where `temp->next` stops). |
| MemoryManager.Memory.CreateNode | main.c:58-95 | The new list is the split of `SplitOff`. The renumbering loop's invariant ties each step to `Renumbered`. |
| MemoryManager.Memory.Allocate | main.c:209-220 | The allocation shared by the three strategies: the counter drops by the request, and the list becomes `Placed` of the chosen segment. |
| MemoryManager.Memory.FirstFit | main.c:198-232 | Succeeds exactly when some free segment is large enough, and then allocates the first one in list order. On failure, the list and the counter are unchanged. |
| MemoryManager.Memory.BestFit | main.c:240-293 | Succeeds exactly when some free segment fits, and then allocates the first free segment whose size is the smallest adequate one. The INT_MAX sentinel never misleads it. On failure, nothing changes. |
| MemoryManager.Memory.WorstFit | main.c:301-354 | Like best fit, with the largest adequate size and the INT_MIN sentinel. |
| MemoryManager.Memory.RequestMemory | main.c:363-386 | A pid that already labels some segment is refused first. After that, an unknown strategy code changes nothing, "no space" means no free segment fits, and a success is the allocation the chosen strategy selects. The invariant is kept in every case. |
| MemoryManager.Memory.Merge | main.c:101-143 | The new list is `Coalesced` of the released position, with the third merge (main.c:133) guarded on a successor existing. |
| MemoryManager.Memory.ReleaseMemory | main.c:393-412 | Succeeds exactly when the pid is present. It then adds that segment's size to the counter and replaces the list by `Freed` at the first segment with that pid. Afterwards the pid is gone. On failure nothing changes. The invariant is kept. |
| MemoryManager.Memory.SwapNodes | main.c:149-166 | The new list is `Swapped` at the free segment. |
| MemoryManager.Memory.Compact | main.c:418-443 | The result is the single pass `CompactedFrom(old, -1)`. Allocations keep their owners, sizes and order. Every segment but the last is allocated, the counter equals the size of a trailing free segment, and the invariant is kept. |
| MemoryManager.Memory.StatusReport | main.c:449-459 | Reports the counter, which under the invariant is the free total, and one line (start, end, owner) per segment in list order. |
| NodeList.SelectionIsUnique | main.c:203-226 | Each selection rule, first-fit, best-fit (first of the smallest) and worst-fit (first of the largest), picks at most one segment. |
| NodeList.Renumbered | main.c:85-92 | The renumbering walk keeps the list length. |
| NodeList.RenumberedFacts | main.c:85-92 | Renumbering changes only addresses. Each segment from the walk's start on starts one past its predecessor's end and ends its own size later. The last segment gets only a new start. |
| NodeList.SplitOff | main.c:58-95 | A split adds exactly one segment. |
| NodeList.Placed | main.c:209-220 | An allocation adds a segment exactly when the leftover is positive. |
| NodeList.PlacedFacts | main.c:58-73 | The chosen segment keeps its start, takes the owner and the size, and ends at start + size. A free segment holding the leftover follows exactly when the leftover is positive. It starts one past that end and its end is clipped to the highest address. Later segments keep their owners and sizes. |
| NodeList.PlacementTail | main.c:62-73 | After the chosen segment, the free total and the total size grow by the leftover, and the allocations are unchanged. |
| NodeList.PlacementSums | main.c:209-220 | An allocation takes exactly the request off the free total and keeps the total size. |
| NodeList.PlacementAllocations | main.c:212-220 | An allocation inserts (pid, size) into the allocations at the chosen position and changes no other entry. |
| NodeList.PlacementShape | main.c:58-73 | An allocation keeps sizes non-negative and keeps "no two free neighbours". |
| NodeList.PlacedWellFormed | main.c:198-232 | Allocating to a fresh pid keeps the list invariant, makes the pid present, and lowers the free total by the request. |
| NodeList.SelectedPlacement | main.c:363-385 | Whatever strategy chose the segment, a fresh pid is never "Unused" and its allocation keeps the invariant. |
| NodeList.CoalescedAsWritten | main.c:131-142 | `merge` as written fails exactly when the released segment is last and has just merged into a free predecessor. Otherwise it agrees with the guarded version. |
| NodeList.CoalescedRun | main.c:101-143 | Merging at a free segment replaces the run of it and its free neighbours by one free segment. That segment spans from the run's first start to its last end and holds all its bytes. |
| NodeList.RunSizeSum | main.c:109-137 | The merged segment's size is the total size of the run. |
| NodeList.CoalescedAlone | main.c:101-143 | With no free neighbour, the conditional merges change nothing. The result is the released segment standing as its own one-segment run. |
| NodeList.CoalescedBoth | main.c:105-142 | With free segments on both sides, the first and third merges give the run replaced by one segment. That segment spans from the predecessor's start to the successor's end and holds all three sizes. |
| NodeList.CoalescedWithPredecessor | main.c:105-113 | With only the predecessor free, the first merge gives the run replaced by one segment. That segment spans both and holds both sizes. |
| NodeList.CoalescedWithSuccessor | main.c:116-129 | With only the successor free, the second merge gives the run replaced by one segment. That segment spans from the released segment's start to the successor's end. |
| NodeList.ReplacedRunIndices | main.c:101-143 | After a run is replaced by one segment, the segments before the run keep their positions. Those after it move down by the run's length less one. |
| NodeList.ReplacedRunShape | main.c:101-143 | The merged segment can have no free neighbour, because the run takes in every free neighbour of the released segment. Replacing the run therefore leaves no two free neighbours anywhere. |
| NodeList.JoinedSums | main.c:108-137 | Replacing the run by its merged segment keeps the free total and the total size. |
| NodeList.JoinedAllocations | main.c:101-143 | Replacing the run keeps the allocations. |
| NodeList.JoinedShape | main.c:101-143 | Replacing the run removes at most two segments and leaves those before it alone. It keeps sizes non-negative, and restores "no two free neighbours" when that held away from the released position. |
| NodeList.CoalescedSums | main.c:108-137 | Merging keeps the free total and the total size. |
| NodeList.CoalescedAllocations | main.c:101-143 | Merging keeps the allocations. |
| NodeList.CoalescedShape | main.c:101-143 | Merging removes at most two segments and leaves at least one. The segments before the run are unchanged, and sizes stay non-negative. When no other free neighbours existed, none are left. |
| NodeList.FreedSums | main.c:399-405 | A release adds the released segment's size to the free total and keeps the total size. |
| NodeList.FreedAllocations | main.c:399-405 | A release removes exactly that segment's (pid, size) from the allocations. |
| NodeList.FreedShape | main.c:399-405 | A release keeps at least one segment, non-negative sizes, and "no two free neighbours". |
| NodeList.FreedWellFormed | main.c:393-412 | A release keeps the list invariant and leaves no segment with the released pid. |
| NodeList.PlaceThenFree | main.c:209-220 | Allocating a free segment and then releasing it restores the free total, the total size and the allocations. |
| NodeList.SwappedSums | main.c:149-166 | Swapping a free segment past the allocated one after it keeps the free total and the total size. |
| NodeList.SwappedAllocations | main.c:149-166 | The swap keeps the allocations in their order. |
| NodeList.SwappedShape | main.c:149-166 | After the swap the allocated segment comes first and the free one second. Nothing else moves, sizes stay non-negative, and only the moved free segment can have a free neighbour. |
| NodeList.CompactStep | main.c:426-436 | One swap-then-merge step keeps every measure and "no two free neighbours", and leaves an allocated segment under the advanced cursor. |
| NodeList.CompactedFromFacts | main.c:418-443 | From any cursor, the pass keeps the free total, the total size, the allocations and "no two free neighbours", and ends with every segment but the last allocated. |
| NodeList.CompactConsolidates | main.c:415-443 | On a well-formed list, compaction keeps the invariant and the allocations, and leaves all free space in a single trailing segment. |
| Nodes.HasProcessAllocations | main.c:173-190 | A pid other than "Unused" labels some segment exactly when it owns an entry of the allocations. |
| Nodes.WellFormedIntSizes | main.c:242-256 | Under the list invariant every size is a non-negative `int` below INT_MAX, which makes the INT_MAX and INT_MIN sentinels sound. |
| Scenarios.RequestRequestRelease | main.c:363-412 | For size 100, `RQ P1 30 F`, `RQ P2 20 B`, `RL P1` give the exact segments [0:30] free, [31:51] P2 and [52:99] free, with 79 free bytes. |
| Scenarios.CompactTwoHoles | main.c:418-443 | For P1, hole, P2, hole, one compaction pass gives P1, P2 and one free segment holding both holes. |
| Scenarios.ReleaseLastAfterHole | main.c:131-142 | A reachable well-formed list (a hole, then P2 last), where releasing P2 makes `merge` as written read the missing successor. The guarded version yields one free block. |

## Left out

- Terminal I/O, the command loop and `sscanf` parsing in `main`: the operations take parsed arguments.
- `printf` messages: `RequestMemory` returns an outcome, and the other operations return a flag or the report lines.
- `malloc`, `free` and `prepare_to_exit`: the sequence needs no heap management.
- The fixed-size `char` buffers and the unchecked `strcpy`: process ids are strings, and buffer overflows are not modelled.
- The dummy head's own label and addresses ("Dummy Node", -1): the model relies only on the head never being free.
- MemoryManager.Memory.RequestMemory: requires `0 <= space`, though the C code accepts a negative byte count. After a negative request the counter still equals the free total, but the chosen segment gets a negative size, so `WellFormed` fails. The bound that keeps every size in [0, INT_MAX) then no longer holds, and that bound is what makes the INT_MAX and INT_MIN sentinels of best and worst fit sound (main.c:242, 303). The upper bound is the range of the C `int`.
- MemoryManager.Memory.ReleaseMemory: requires the pid to differ from "Unused". In C, `RL Unused` would find a free segment and add its size to the counter a second time. The id "Unused" does not fit the three-byte pid buffer in any case.
- MemoryManager.Memory.constructor: requires a configured size of at least 1 and at most INT_MAX. The C code does not check `argv[1]`, and a size of 0 or less gives a block of negative size.
- MemoryManager.Memory.BestFit: requires `IntSizes`, meaning every size is at least 0 and below INT_MAX, and that the request fits a C `int`. Under `Valid()` this holds (`Nodes.WellFormedIntSizes`), so `RequestMemory` meets it.
- MemoryManager.Memory.WorstFit: requires `IntSizes` for the same reason, so that no free size equals the INT_MIN sentinel.
- Integer overflow: integers are unbounded. The invariant keeps sizes and the counter within `int`, but the address arithmetic is not checked for overflow: `start + size` in `create_node`, the renumbering loop and `swap_nodes`.
- The global address layout: the address formulas are reproduced as written, and only local facts are proved about them. The code does not keep segments gapless with `size == end - start`. An allocation ends at `start + size` and the next segment starts at `end + 1`, and compaction moves ends past the highest address without clipping.
- Malformed strategy codes longer than the two-byte buffer: the code is a string compared with "W", "B" and "F".

## Notes on the code's behaviour

- One pass of `compact` (main.c:418-443) leaves all free space in the last
  segment. The cursor only ever rests on the head, an allocated segment or the
  last segment, so every hole it meets is carried to the end and merged there.
  On a list with no two free neighbours the pass consolidates fully
  (`NodeList.CompactConsolidates`).
- The second half of compact's condition at main.c:427 (an allocated segment
  after a free cursor) never holds, for the same reason. `MemoryManager.Memory.Compact`
  keeps the test as written and asserts in its loop that only the first half
  can have held.
- After size 100, `RQ P1 30 F`, `RQ P2 20 B`, `RL P1`, the counter holds 79. The
  usable size is 99, and only P2's 20 bytes are still allocated
  (`Scenarios.RequestRequestRelease`).
- Segments do not cover the address range without gaps. The initial block
  spans 0 to size - 1 with size - 1 bytes (main.c:519-521). An allocation ends
  at `start + size` (main.c:213). The next segment starts at `end + 1`
  (main.c:66). See "Left out".

## Findings

| source | as written | input that shows it | evidently intended | confidence | as-written member | corrected member |
|---|---|---|---|---|---|---|
| main.c:133 | After merging the released segment into a free predecessor, `merge` tests `temp->next->process_id` even when the released segment was the last one, so `temp->next` is NULL. | Size 100, `RQ P1 50 F`, `RQ P2 49 F`, `RL P1`, `RL P2` | Do the third merge (main.c:133) only when a successor exists. | high, not executed | NodeList.CoalescedAsWritten, Scenarios.ReleaseLastAfterHole | NodeList.Coalesced, NodeList.FreedWellFormed |
