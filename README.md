# Rose Mem Debugger: the allocation tracker, modelled in Dafny

Rose Mem Debugger is a single-header C heap tracker. Its implementation
section (`include/rose_mem_debugger.h`, lines 118-431) keeps three things:

- a static table of `RMD_MAX_ALLOCS` (4096) slots, each recording one block
  handed out by the system `malloc`: its address, its requested size, whether
  it is in use, and the file and line of the call;
- two `size_t` counters, bytes allocated and number of allocations;
- the initialisation flags and a lifecycle flag.

`rose_mem_debugger_init` and `rose_mem_debugger_terminate` open and close a
session. `_rmdi_malloc_internal` takes the first free slot. `_rmdi_free_internal`
applies the NULL policy, then the stale-pointer double-free check, then the
release scan, then the unknown-pointer policy. `rmd_print_heap_usage`
recomputes both counters from the table, asserts that they match, and lists
the slots still in use as leaks. Every failed `rmd_assertf` prints a message
and exits the process.

The model has three modules:

- `Slots` (slots.dfy): the slot record and the table as a value. It holds
  the three linear scans as one specification function `FindFirst` over a
  `Query` (first free slot, stale slot holding `p`, live slot holding `p`), the
  recomputed aggregates `CountInUse` and `SumInUse`, the consistency predicate
  the report asserts, and the lines the tracker prints, reduced to the values
  each line names. The lemmas about these are here too.
- `RoseMemDebugger` (tracker.dfy): class `Tracker`. Its fields are the static
  variables. The table is an `array<Slot>` updated in place. Each
  source function is a method with the source's loops and early returns, proved
  against the `Slots` functions. The compile-time switches `RMD_STRICT_FREE`
  and `RMD_FREE_ALL_SLOTS_ON_TERMINATE` become the constant fields
  `strictFree` and `freeAllOnTerminate`. A failed assertion is the outcome
  `Fatal`. The class invariant `Valid()` says that while the tracker is
  initialised the counters agree with the table, and that fewer than 4096
  allocations are outstanding. `Init`, `Malloc` and `Free` preserve it, so
  the report's assertions cannot fail during a session.
- `Scenarios` (scenarios.dfy): short call sequences whose outcomes follow
  from the method contracts alone. Some start from a fresh tracker; others
  hold for every valid initialised tracker. They cover the lifecycle,
  the guard failures, the leak report, the round trip and the double free,
  a reused address, the forced release at terminate, and filling the table.

Modelling choices:

- Integer wrap-around. `size_t` is taken as 64 bits wide; its arithmetic wraps modulo 2^64, and the model
  writes it out as `% SizeMod` for the byte counter and for the decrement of
  the allocation count.
- The system allocator. `malloc`'s result is the parameter `sysPtr` of
  `Malloc`, where 0 stands for NULL. The system `free` has no effect on the
  tracker's state.
- Output. What `printf` writes is returned as a sequence of `Line`
  values: one per logged allocation or release, one for the lenient
  double-free warning, and the usage line plus one leak line per slot in use
  for the report.
- Assertions that cannot fail. Three of the source's assertions can never
  fire while the slot invariant holds: the nonzero-size checks at lines 223
  and 401, and the `!in_use` check at line 278. They are Dafny `assert`
  statements, proved rather than modelled as a Fatal branch. The same goes
  for the report inside terminate: it always succeeds.

Behaviour of the code the model keeps, which a reader might not expect:

- A release clears only `in_use` (line 380). The slot keeps its address,
  size and call site, which is what the double-free check looks for.
- Freeing a non-null pointer that no slot holds is fatal only under
  `RMD_STRICT_FREE` (lines 385-387). Otherwise it is a silent no-op.
- The capacity check runs after the increment (lines 287-289). At most 4095
  allocations can be outstanding, and the 4096th allocation is fatal even
  though a slot is free (`Scenarios.FillTable`).
- The forced release at terminate selects slots whose `ptr` is non-NULL, not
  slots in use (line 220). A released slot still holds its pointer and trips
  the `in_use` assertion at line 226. So terminate under
  `RMD_FREE_ALL_SLOTS_ON_TERMINATE` is fatal whenever some released slot has
  not since been reused by an allocation, which overwrites its pointer
  (lines 281 and 297); `Scenarios.ForcedReleaseAfterFree` shows one such
  case. The forced release goes through the tracked `rmd_free` (line 230),
  which logs and updates the counters, rather than calling the system free
  directly.
- `rmd_print_heap_usage` is not gated on initialisation. After a terminate
  without the forced release, the counters are zero but leaked slots are
  still marked in use, so a report then fails its consistency assertions
  (line 405; `Scenarios.ReportAfterTerminate`). With the forced release, the table it
  leaves has no slot in use and agrees with the zeroed counters
  (`Slots.ForceClearAllEmpty`).
- When the system allocator hands back an address that a released slot still
  remembers, and that slot is not the lowest free one, first fit puts the new
  block in a lower slot. The stale slot keeps the same address, so the
  legitimate release of the new block is taken for a double free
  (`Scenarios.ReusedAddress`).

## Model

| member | source | states |
|---|---|---|
| `Slots.FindFirst` | include/rose_mem_debugger.h:246-254 | The first-fit scan pattern shared by the three table walks: the returned index matches the query and no lower index does; None exactly when no slot matches |
| `Slots.FindFirstUnique` | include/rose_mem_debugger.h:246-254 | A matching slot with no match below it is exactly the one a scan returns |
| `Slots.CountUpdate` | include/rose_mem_debugger.h:395-400 | Replacing one slot changes the recomputed allocation count by the old slot's in-use bit out and the new one's in |
| `Slots.SumUpdate` | include/rose_mem_debugger.h:395-403 | Replacing one slot changes the recomputed byte sum by the old slot's in-use size out and the new one's in |
| `Slots.OccupyConsistent` | include/rose_mem_debugger.h:284-299 | Filling a free slot, adding its size (mod 2^64) and one allocation keeps the counters equal to the recomputed aggregates |
| `Slots.ReleaseConsistent` | include/rose_mem_debugger.h:371-380 | Marking an in-use slot released, subtracting its size (mod 2^64) and one allocation keeps the counters equal to the recomputed aggregates; the count was positive |
| `Slots.CountAllInUse` | include/rose_mem_debugger.h:248-253 | A table whose every slot is in use counts all of them |
| `Slots.NoneInUse` | include/rose_mem_debugger.h:195-197 | A table with no slot in use has zero recomputed count and byte sum, as init leaves it |
| `Slots.FreeSlotExists` | include/rose_mem_debugger.h:276-277 | While the allocation count is below the capacity and agrees with the table, first fit finds a free slot |
| `Slots.InUseIndices` | include/rose_mem_debugger.h:424-429 | The slots the leak loop visits: strictly ascending indices of slots in use, as many as the recomputed count |
| `Slots.InUseIndicesComplete` | include/rose_mem_debugger.h:424-429 | Every slot in use below the bound is listed |
| `Slots.InUseIndicesBeyond` | include/rose_mem_debugger.h:424-429 | Slots not in use add nothing to the list |
| `Slots.LeakLineAt` | include/rose_mem_debugger.h:427-429 | The k-th leak line names the k-th listed slot with its size, address and call site |
| `Slots.ReportListsLeaks` | include/rose_mem_debugger.h:413-429 | The report is the usage line (bytes mod 2^64, count) followed by exactly one leak line per slot in use, in ascending slot order, and every such slot appears |
| `Slots.ForcedFreeLinesStep` | include/rose_mem_debugger.h:218-230 | One forced-release pass logs the slot exactly when it is in use |
| `Slots.ForcedFreeLinesInUse` | include/rose_mem_debugger.h:218-237 | The forced release logs exactly the slots in use, in ascending order |
| `Slots.ForceCleared` | include/rose_mem_debugger.h:220-236 | A slot holding a pointer is cleared (pointer NULL, size 0, not in use, no file, line -1); a slot holding none is left as it is |
| `Slots.ForceClearAllEmpty` | include/rose_mem_debugger.h:218-243 | The table the forced release leaves has no slot in use, zero recomputed count and byte sum, and no stale slot, so it agrees with the counters terminate zeroes |
| `RoseMemDebugger.Tracker.constructor` | include/rose_mem_debugger.h:135-139 | The zero-initialised static state: not initialised, flags and counters 0, every slot zero |
| `RoseMemDebugger.Tracker.Init` | include/rose_mem_debugger.h:190-201 | Fatal exactly when already initialised; otherwise every slot zero, both counters 0, the flags stored, initialised, invariant holds |
| `RoseMemDebugger.Tracker.Terminate` | include/rose_mem_debugger.h:203-244 | Fatal exactly when not initialised, or when the forced release meets a stale slot; otherwise counters, flags and lifecycle flag reset, the table cleared or left as it was, and the output is the report followed by the forced-release log |
| `RoseMemDebugger.Tracker.ForceFreeAll` | include/rose_mem_debugger.h:217-238 | Fatal exactly when some slot is stale; otherwise every slot cleared and, when calls are logged, one release line logged per slot in use |
| `RoseMemDebugger.Tracker.ForceFreeSlot` | include/rose_mem_debugger.h:220-237 | One pass: fatal exactly when the slot is stale, or in use while a stale slot remembers its pointer under strict mode; a slot without a pointer is skipped with no output; a slot in use is released through the tracked free (or, in lenient mode, reported as a double free) and cleared |
| `RoseMemDebugger.Tracker.FirstAvailableSlot` | include/rose_mem_debugger.h:246-254 | Returns the lowest slot not in use, or none |
| `RoseMemDebugger.Tracker.Malloc` | include/rose_mem_debugger.h:266-302 | Fatal exactly when not initialised, size 0, no free slot, the system allocator returns NULL, or the count would reach the capacity; otherwise the first free slot holds the block and every other slot is unchanged, bytes grow by the size mod 2^64, the count by one, the address is returned, and the invariant holds |
| `RoseMemDebugger.Tracker.IsDoubleFree` | include/rose_mem_debugger.h:318-326 | Returns the lowest released slot still holding the pointer, or none |
| `RoseMemDebugger.Tracker.Free` | include/rose_mem_debugger.h:328-388 | Fatal exactly when not initialised, or under strict mode for NULL, a stale pointer or an unknown pointer; a lenient NULL, stale or unknown free changes nothing, and only the stale case is reported; otherwise the first live slot holding the pointer is marked released and keeps its data, and both counters drop mod 2^64; the invariant is preserved |
| `RoseMemDebugger.Tracker.ReleaseSlot` | include/rose_mem_debugger.h:369-380 | The release of one live slot: only its in-use flag cleared, size and one allocation subtracted mod 2^64, the release logged when calls are logged, the invariant preserved |
| `RoseMemDebugger.Tracker.PrintHeapUsage` | include/rose_mem_debugger.h:390-430 | Fatal exactly when a counter differs from its recomputed aggregate; otherwise prints the report of the table |
| `Scenarios.Reinitialise` | include/rose_mem_debugger.h:190-244 | init, terminate, init all succeed |
| `Scenarios.InitTwice` | include/rose_mem_debugger.h:192-193 | A second init is fatal |
| `Scenarios.TerminateBeforeInit` | include/rose_mem_debugger.h:205-206 | terminate before init is fatal |
| `Scenarios.TerminateTwice` | include/rose_mem_debugger.h:203-244 | init, terminate, terminate: the second terminate is fatal |
| `Scenarios.MallocBeforeInit` | include/rose_mem_debugger.h:271-272 | Allocating before init is fatal |
| `Scenarios.MallocZeroSize` | include/rose_mem_debugger.h:274 | A zero-size allocation is fatal |
| `Scenarios.AllocateNext` | include/rose_mem_debugger.h:276-301 | With the lower slots in use and the rest untouched, an allocation lands in the next slot |
| `Scenarios.ReleaseUnique` | include/rose_mem_debugger.h:364-383 | The release of a block whose address no other slot holds succeeds and marks only its slot released |
| `Scenarios.AllocateThreeFreeOne` | include/rose_mem_debugger.h:266-383 | Allocations of 10, 20 and 30 bytes land in slots 0, 1 and 2; releasing the second leaves 40 bytes in 2 allocations |
| `Scenarios.InUseOfThreeFreeOne` | include/rose_mem_debugger.h:424-429 | In that table only slots 0 and 2 are listed |
| `Scenarios.ReportOfThreeFreeOne` | include/rose_mem_debugger.h:413-429 | The report of that table: 40 bytes across 2 allocations, leaks at slots 0 and 2 with their sizes, addresses and call sites |
| `Scenarios.LeakReport` | include/rose_mem_debugger.h:390-430 | allocate 10, 20, 30, free the 20, report: succeeds with exactly those lines |
| `Scenarios.AllocateRelease` | include/rose_mem_debugger.h:266-383 | Allocating an address no other slot remembers (the first free slot itself may, from an earlier release) and releasing it restores both counters and leaves the slot stale |
| `Scenarios.AllocateReleaseTwice` | include/rose_mem_debugger.h:341-352 | For such an address, a second release of the same block is fatal exactly under strict mode, and otherwise reported with counters unchanged |
| `Scenarios.ReuseSameSlot` | include/rose_mem_debugger.h:266-383 | Under strict mode, when the system allocator hands back the address just released, first fit puts the new block into that same slot and its release succeeds, with both counters back at zero |
| `Scenarios.ReusedAddress` | include/rose_mem_debugger.h:318-352 | When the system allocator reuses an address that a stale slot other than the lowest free one remembers, the legitimate free of the new block is taken for a double free: fatal exactly under strict mode, otherwise reported with the block left in use |
| `Scenarios.AllocateTwoReleaseBoth` | include/rose_mem_debugger.h:266-383 | Two allocations released in turn leave two stale slots and zero counters |
| `Scenarios.ForcedReleaseAfterFree` | include/rose_mem_debugger.h:220-228 | Under forced release, terminate straight after an allocation is released, its slot not reused since, is fatal |
| `Scenarios.ForcedReleaseOfLeak` | include/rose_mem_debugger.h:203-244 | Under forced release with call logging, terminate with one leak reports it, logs its release at the terminate call site, and clears its slot |
| `Scenarios.InUseOfOne` | include/rose_mem_debugger.h:424-429 | With only slot 0 in use, only slot 0 is listed |
| `Scenarios.NoStaleOfOne` | include/rose_mem_debugger.h:220-228 | Such a table has no stale slot |
| `Scenarios.ReportOfOne` | include/rose_mem_debugger.h:218-230 | Such a table's report has one leak line, and its forced release one release line |
| `Scenarios.ReportAfterTerminate` | include/rose_mem_debugger.h:405-407 | After a terminate without forced release that leaves a leak, the report is fatal |
| `Scenarios.ReportWhileInitialised` | include/rose_mem_debugger.h:390-430 | While initialised, the report never fails and prints the report of the table |
| `Scenarios.ReleaseUnknown` | include/rose_mem_debugger.h:385-387 | Freeing an address no slot holds is fatal exactly under strict mode, otherwise a silent no-op |
| `Scenarios.FillTable` | include/rose_mem_debugger.h:287-289 | 4095 allocations succeed; the next one is fatal although slot 4095 is still free |

## Left out

- Text formatting. The `printf`/`fprintf` text of the log lines, the report
  and the assertion messages is not modelled. Lines carry only the values
  they print, and the message of a failed assertion is not modelled at all.
- The system allocator (lines 256-264). It is a foreign call: `malloc` is the
  caller-chosen `sysPtr`, and `free` has no modelled effect. Nothing models
  that memory is really released, or that a real allocator returns
  non-overlapping blocks.
- `RMD_DISABLE_ASSERTS` (lines 147-153), under which a failed assertion does
  not stop the program. Every failed assertion is Fatal here.
- The early returns of `_rmdi_assertf_internal` on a NULL condition string,
  a NULL file name or a negative line (lines 158-171). The assertion macros
  never pass those.
- Nothing is promised about the state after a Fatal outcome. The process has
  exited, so no later call observes it.
- The interception macros `rmd_malloc`, `rmd_free` and `RMD_ENABLE_WRAPPING`,
  and call-site capture. File and line are opaque parameters. The forced
  release passes `include/rose_mem_debugger.h` and line 230, the call site
  of its `rmd_free`.
- The public typedefs, and `src/main.c`, the demo driver; src/main.c is not
  part of this model.
- Pointer provenance. Addresses are natural numbers compared for equality.
- Other widths of `size_t`. `Slots.SizeMod` fixes it at 64 bits; on a
  32-bit target the counters would wrap modulo 2^32 instead.
- `RMD_MAX_ALLOCS` can be overridden at build time (lines 39-41).
  `Slots.MaxAllocs` fixes it at the default 4096, and the count of 4095 in
  `Scenarios.FillTable` depends on that value.
- Output streams. The lenient double-free warning goes to stderr (line 348),
  while the log and report lines go to stdout. The returned `out` sequence
  merges both streams into one, so it does not capture their relative order
  as a reader of the two streams would see it.
