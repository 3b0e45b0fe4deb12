/**
 * Clients of the tracker: short call sequences whose outcome and output
 * follow from the contracts of the tracker's operations alone. Some start
 * from a fresh tracker; others hold for every valid initialised tracker
 * passed in. The system malloc's results are addresses passed in.
 */
module Scenarios {
  import opened Slots
  import opened RoseMemDebugger

  /** Every slot from `n` up is still as init left it. */
  ghost predicate UntouchedFrom(d: Tracker, n: nat)
    reads d, d.blocks
  {
    forall j :: n <= j < d.blocks.Length ==> d.blocks[j] == ZeroSlot
  }

  /** init, terminate and init again all succeed: the tracker can be reused. */
  method Reinitialise() returns (first: Outcome<()>, stop: Outcome<()>, again: Outcome<()>)
    ensures first.Ok? && stop.Ok? && again.Ok?
  {
    var d := new Tracker(false, false);
    first := d.Init(0);
    var out;
    stop, out := d.Terminate();
    again := d.Init(PrintHeapCalls);
  }

  /** A second init without a terminate in between is fatal. */
  method InitTwice() returns (o: Outcome<()>)
    ensures o.Fatal?
  {
    var d := new Tracker(false, false);
    o := d.Init(0);
    o := d.Init(0);
  }

  /** terminate before any init is fatal. */
  method TerminateBeforeInit() returns (o: Outcome<()>)
    ensures o.Fatal?
  {
    var d := new Tracker(true, true);
    var out;
    o, out := d.Terminate();
  }

  /** A second terminate is fatal: the first one cleared the lifecycle flag. */
  method TerminateTwice() returns (o: Outcome<()>)
    ensures o.Fatal?
  {
    var d := new Tracker(false, false);
    o := d.Init(0);
    var out;
    o, out := d.Terminate();
    o, out := d.Terminate();
  }

  /** Allocating before init is fatal. */
  method MallocBeforeInit() returns (o: Outcome<Ptr>)
    ensures o.Fatal?
  {
    var d := new Tracker(false, false);
    var out;
    o, out := d.Malloc(8, "main.c", 1, 100);
  }

  /** A zero-size request is fatal. */
  method MallocZeroSize() returns (o: Outcome<Ptr>)
    ensures o.Fatal?
  {
    var d := new Tracker(false, false);
    var ok := d.Init(0);
    var out;
    o, out := d.Malloc(0, "main.c", 2, 100);
  }

  /**
   * An allocation into a table whose slots below `k` are in use and whose
   * slots from `k` up are untouched lands in slot `k`.
   */
  method AllocateNext(d: Tracker, k: nat, sz: nat, file: string, line: int, sysPtr: Ptr)
    returns (o: Outcome<Ptr>)
    requires d.Valid() && d.isInit
    requires k + 1 < MaxAllocs && d.numAllocations == k
    requires forall j :: 0 <= j < k ==> d.blocks[j].inUse
    requires UntouchedFrom(d, k)
    requires 0 < sz < SizeMod && sysPtr != Null
    modifies d`bytesAllocated, d`numAllocations, d.blocks
    ensures o == Ok(sysPtr) && d.Valid()
    ensures d.blocks[..] == old(d.blocks[..])[k := Slot(sysPtr, sz, true, Some(file), line)]
    ensures d.bytesAllocated == (old(d.bytesAllocated) + sz) % SizeMod && d.numAllocations == k + 1
    ensures UntouchedFrom(d, k + 1)
  {
    FindFirstUnique(d.blocks[..], AnyFree, k);
    var out;
    o, out := d.Malloc(sz, file, line, sysPtr);
  }

  /** Releasing a block whose address no other slot holds always succeeds. */
  method ReleaseUnique(d: Tracker, k: nat, p: Ptr, file: string, line: int) returns (o: Outcome<()>)
    requires d.Valid() && d.isInit
    requires k < d.blocks.Length && d.blocks[k].inUse && d.blocks[k].ptr == p
    requires forall j :: 0 <= j < d.blocks.Length && j != k ==> d.blocks[j].ptr != p
    modifies d`bytesAllocated, d`numAllocations, d.blocks
    ensures o.Ok? && d.Valid()
    ensures d.blocks[..] == old(d.blocks[..])[k := old(d.blocks[k]).(inUse := false)]
    ensures d.bytesAllocated == (old(d.bytesAllocated) - old(d.blocks[k]).reqSize) % SizeMod
    ensures d.numAllocations == (old(d.numAllocations) - 1) % SizeMod
  {
    ghost var t := d.blocks[..];
    assert FindFirst(t, StaleOf(p)).None?;
    FindFirstUnique(t, LiveOf(p), k);
    var out;
    o, out := d.Free(p, file, line);
  }

  /**
   * Three allocations, into slots 0, 1 and 2, and the release of the middle
   * one, on a fresh tracker.
   */
  method AllocateThreeFreeOne() returns (d: Tracker)
    ensures fresh(d) && d.Valid() && d.isInit
    ensures d.bytesAllocated == 40 && d.numAllocations == 2
    ensures d.blocks[0] == Slot(100, 10, true, Some("main.c"), 10)
    ensures d.blocks[1] == Slot(200, 20, false, Some("main.c"), 11)
    ensures d.blocks[2] == Slot(300, 30, true, Some("main.c"), 12)
    ensures UntouchedFrom(d, 3)
  {
    d := new Tracker(false, false);
    var ok := d.Init(0);
    assert UntouchedFrom(d, 0);
    var p := AllocateNext(d, 0, 10, "main.c", 10, 100);
    p := AllocateNext(d, 1, 20, "main.c", 11, 200);
    p := AllocateNext(d, 2, 30, "main.c", 12, 300);
    var freed := ReleaseUnique(d, 1, 200, "main.c", 13);
  }

  /** Slots 0 and 2 are the ones in use in the table AllocateThreeFreeOne leaves. */
  lemma InUseOfThreeFreeOne(t: seq<Slot>)
    requires |t| == MaxAllocs
    requires t[0].inUse && !t[1].inUse && t[2].inUse
    requires forall j :: 3 <= j < |t| ==> t[j] == ZeroSlot
    ensures InUseIndices(t, |t|) == [0, 2]
  {
    assert InUseIndices(t, 1) == InUseIndices(t, 0) + [0] == [0];
    assert InUseIndices(t, 2) == InUseIndices(t, 1);
    assert InUseIndices(t, 3) == InUseIndices(t, 2) + [2];
    InUseIndicesBeyond(t, 3, MaxAllocs);
  }

  /** The report of the table AllocateThreeFreeOne leaves. */
  lemma ReportOfThreeFreeOne(t: seq<Slot>)
    requires |t| == MaxAllocs
    requires t[0] == Slot(100, 10, true, Some("main.c"), 10)
    requires t[1] == Slot(200, 20, false, Some("main.c"), 11)
    requires t[2] == Slot(300, 30, true, Some("main.c"), 12)
    requires InUseIndices(t, |t|) == [0, 2]
    requires SumInUse(t) % SizeMod == 40 && CountInUse(t) == 2
    ensures ReportLines(t) == [ UsageLine(40, 2),
                                LeakLine(0, 10, 100, Some("main.c"), 10),
                                LeakLine(2, 30, 300, Some("main.c"), 12) ]
  {
    assert ReportLines(t) == [UsageLine(40, 2)] + LeakLines(t, [0, 2]);
    assert [0, 2][..1] == [0];
    assert LeakLines(t, [0, 2]) == LeakLines(t, [0]) + [LeakLine(2, 30, 300, Some("main.c"), 12)];
    assert LeakLines(t, [0]) == [LeakLine(0, 10, 100, Some("main.c"), 10)];
  }

  /**
   * After three allocations and the release of the middle one, the report
   * counts the two left over, and its leak lines name slots 0 and 2 with
   * their sizes, addresses and call sites.
   */
  method LeakReport() returns (o: Outcome<()>, out: seq<Line>)
    ensures o.Ok?
    ensures out == [ UsageLine(40, 2),
                     LeakLine(0, 10, 100, Some("main.c"), 10),
                     LeakLine(2, 30, 300, Some("main.c"), 12) ]
  {
    var d := AllocateThreeFreeOne();
    o, out := d.PrintHeapUsage();
    InUseOfThreeFreeOne(d.blocks[..]);
    ReportOfThreeFreeOne(d.blocks[..]);
  }

  /**
   * Releasing what an allocation returned puts both counters back where they
   * were and leaves the slot stale: it keeps the address, the size and the
   * call site, no longer in use. The address may be one no slot remembers,
   * or one the first free slot itself still remembers from an earlier
   * release, since the allocation overwrites that slot.
   */
  method AllocateRelease(d: Tracker, sz: nat, file: string, line: int, sysPtr: Ptr)
    returns (m: Outcome<Ptr>, f: Outcome<()>, k: nat)
    requires d.Valid() && d.isInit
    requires 0 < sz < SizeMod && sysPtr != Null && d.numAllocations + 1 < MaxAllocs
    requires forall j :: 0 <= j < d.blocks.Length && d.blocks[j].ptr == sysPtr ==> FindFirst(d.blocks[..], AnyFree) == Some(j)
    modifies d`bytesAllocated, d`numAllocations, d.blocks
    ensures m == Ok(sysPtr) && f.Ok? && d.Valid()
    ensures FindFirst(old(d.blocks[..]), AnyFree) == Some(k)
    ensures d.bytesAllocated == old(d.bytesAllocated) && d.numAllocations == old(d.numAllocations)
    ensures d.blocks[..] == old(d.blocks[..])[k := Slot(sysPtr, sz, false, Some(file), line)]
  {
    FreeSlotExists(d.blocks[..], d.numAllocations);
    var slot := d.FirstAvailableSlot();
    k := slot.value;
    var lines;
    m, lines := d.Malloc(sz, file, line, sysPtr);
    f := ReleaseUnique(d, k, sysPtr, file, line);
    WrapSub(old(d.bytesAllocated) + sz, sz);
  }

  /**
   * Releasing such an allocation a second time takes the double-free path:
   * fatal under RMD_STRICT_FREE, otherwise reported with nothing changed.
   */
  method AllocateReleaseTwice(d: Tracker, sz: nat, file: string, line: int, sysPtr: Ptr)
    returns (again: Outcome<()>, out: seq<Line>)
    requires d.Valid() && d.isInit
    requires 0 < sz < SizeMod && sysPtr != Null && d.numAllocations + 1 < MaxAllocs
    requires forall j :: 0 <= j < d.blocks.Length && d.blocks[j].ptr == sysPtr ==> FindFirst(d.blocks[..], AnyFree) == Some(j)
    modifies d`bytesAllocated, d`numAllocations, d.blocks
    ensures again.Fatal? <==> d.strictFree
    ensures again.Ok? ==>
      && d.Valid()
      && d.bytesAllocated == old(d.bytesAllocated)
      && d.numAllocations == old(d.numAllocations)
      && out == [DoubleFreeLine(sysPtr, file, line)]
  {
    var m, f, k := AllocateRelease(d, sz, file, line, sysPtr);
    assert Matches(d.blocks[..][k], StaleOf(sysPtr));
    again, out := d.Free(sysPtr, file, line);
  }

  /**
   * Under RMD_STRICT_FREE, a block at 100 is allocated into slot 0 and
   * released, and the system malloc hands back 100 again: first fit puts the
   * new block into that same slot, so its release is not a double free.
   */
  method ReuseSameSlot() returns (f: Outcome<()>, again: Outcome<()>, d: Tracker)
    ensures f.Ok? && again.Ok?
    ensures d.bytesAllocated == 0 && d.numAllocations == 0
    ensures d.blocks.Length == MaxAllocs && d.blocks[0] == Slot(100, 16, false, Some("main.c"), 31)
  {
    d := new Tracker(true, false);
    var ok := d.Init(0);
    var m, k;
    m, f, k := AllocateRelease(d, 8, "main.c", 30, 100);
    FindFirstUnique(d.blocks[..], AnyFree, 0);
    m, again, k := AllocateRelease(d, 16, "main.c", 31, 100);
  }

  /**
   * Two allocations at 100 and 200, both released, and a third allocation
   * for which the system malloc hands back 200 again: first fit puts it in
   * slot 0, while slot 1 still remembers 200 as released. Releasing the new
   * block is then taken for a double free: fatal under RMD_STRICT_FREE,
   * otherwise reported while the block stays counted as in use.
   */
  method ReusedAddress(strict: bool) returns (o: Outcome<()>, out: seq<Line>, d: Tracker)
    ensures o.Fatal? <==> strict
    ensures o.Ok? ==>
      && out == [DoubleFreeLine(200, "main.c", 25)]
      && d.blocks.Length == MaxAllocs
      && d.blocks[0] == Slot(200, 10, true, Some("main.c"), 24)
      && d.numAllocations == 1 && d.bytesAllocated == 10
  {
    d := AllocateTwoReleaseBoth(strict);
    FindFirstUnique(d.blocks[..], AnyFree, 0);
    var p, lines := d.Malloc(10, "main.c", 24, 200);
    FindFirstUnique(d.blocks[..], StaleOf(200), 1);
    o, out := d.Free(200, "main.c", 25);
  }

  /** Two allocations at 100 and 200 and their release, on a fresh tracker. */
  method AllocateTwoReleaseBoth(strict: bool) returns (d: Tracker)
    ensures fresh(d) && fresh(d.blocks) && d.Valid() && d.isInit && d.strictFree == strict
    ensures d.bytesAllocated == 0 && d.numAllocations == 0
    ensures d.blocks[0] == Slot(100, 10, false, Some("main.c"), 20)
    ensures d.blocks[1] == Slot(200, 20, false, Some("main.c"), 21)
    ensures UntouchedFrom(d, 2)
  {
    d := new Tracker(strict, false);
    var ok := d.Init(0);
    assert UntouchedFrom(d, 0);
    var p := AllocateNext(d, 0, 10, "main.c", 20, 100);
    p := AllocateNext(d, 1, 20, "main.c", 21, 200);
    var o := ReleaseUnique(d, 0, 100, "main.c", 22);
    o := ReleaseUnique(d, 1, 200, "main.c", 23);
  }

  /**
   * Under RMD_FREE_ALL_SLOTS_ON_TERMINATE, terminate after an allocation
   * that was properly released is fatal: the released slot still holds its
   * pointer, and the forced release asserts such a slot is in use.
   */
  method ForcedReleaseAfterFree() returns (o: Outcome<()>)
    ensures o.Fatal?
  {
    var d := new Tracker(false, true);
    var ok := d.Init(0);
    assert UntouchedFrom(d, 0);
    var p := AllocateNext(d, 0, 10, "main.c", 30, 100);
    o := ReleaseUnique(d, 0, 100, "main.c", 31);
    assert IsStale(d.blocks[..][0]);
    var lines;
    o, lines := d.Terminate();
  }

  /**
   * Under RMD_FREE_ALL_SLOTS_ON_TERMINATE with call logging, terminate with
   * one block never released reports it as a leak, then releases it through
   * the tracked free, which logs the release, and clears its slot.
   */
  method ForcedReleaseOfLeak() returns (o: Outcome<()>, out: seq<Line>, d: Tracker)
    ensures o.Ok?
    ensures out == [ UsageLine(10, 1),
                     LeakLine(0, 10, 100, Some("main.c"), 40),
                     FreeLine(0, 10, TerminateFile, TerminateLine) ]
    ensures d.blocks.Length == MaxAllocs && d.blocks[0] == ClearedSlot && !d.isInit
  {
    d := new Tracker(false, true);
    var ok := d.Init(PrintHeapCalls);
    assert UntouchedFrom(d, 0);
    var p := AllocateNext(d, 0, 10, "main.c", 40, 100);
    ghost var t := d.blocks[..];
    InUseOfOne(t);
    NoStaleOfOne(t);
    ReportOfOne(t, TerminateFile, TerminateLine);
    o, out := d.Terminate();
  }

  /** Slot 0 is the only one in use in a table whose slots above it are untouched. */
  lemma InUseOfOne(t: seq<Slot>)
    requires |t| == MaxAllocs && t[0].inUse
    requires forall j :: 1 <= j < |t| ==> t[j] == ZeroSlot
    ensures InUseIndices(t, |t|) == [0]
  {
    assert InUseIndices(t, 0) == [];
    assert InUseIndices(t, 1) == [0];
    InUseIndicesBeyond(t, 1, MaxAllocs);
  }

  /** Such a table has no stale slot, so the forced release cannot fail. */
  lemma NoStaleOfOne(t: seq<Slot>)
    requires |t| == MaxAllocs && t[0].inUse
    requires forall j :: 1 <= j < |t| ==> t[j] == ZeroSlot
    ensures !HasStale(t)
  {
    assert forall j :: 0 <= j < |t| ==> !IsStale(t[j]);
  }

  /** The report and the forced-release log of a table with only slot 0 in use. */
  lemma ReportOfOne(t: seq<Slot>, file: string, line: int)
    requires |t| == MaxAllocs && t[0].inUse
    requires InUseIndices(t, |t|) == [0]
    ensures ReportLines(t)
         == [UsageLine(SumInUse(t) % SizeMod, CountInUse(t)), LeakLine(0, t[0].reqSize, t[0].ptr, t[0].file, t[0].line)]
    ensures ForcedFreeLines(t, |t|, file, line) == [FreeLine(0, t[0].reqSize, file, line)]
  {
    ForcedFreeLinesInUse(t, |t|, file, line);
    assert [0][..0] == [];
  }

  /**
   * Without the forced release, terminate leaves a leaked block in the table
   * while zeroing the counters, so a report after it fails its first
   * consistency assertion.
   */
  method ReportAfterTerminate() returns (stop: Outcome<()>, o: Outcome<()>)
    ensures stop.Ok? && o.Fatal?
  {
    var d := new Tracker(false, false);
    var ok := d.Init(0);
    assert UntouchedFrom(d, 0);
    var p := AllocateNext(d, 0, 10, "main.c", 50, 100);
    var out;
    stop, out := d.Terminate();
    o, out := d.PrintHeapUsage();
  }

  /**
   * While the tracker is initialised its counters agree with the table, so
   * the report's assertions never fail, and it lists every slot in use.
   */
  method ReportWhileInitialised(d: Tracker) returns (o: Outcome<()>, out: seq<Line>)
    requires d.Valid() && d.isInit
    ensures o.Ok?
    ensures out == ReportLines(d.blocks[..])
  {
    o, out := d.PrintHeapUsage();
  }

  /**
   * Releasing a non-null address no slot has ever held is fatal under
   * RMD_STRICT_FREE and otherwise a silent no-op.
   */
  method ReleaseUnknown(strict: bool) returns (o: Outcome<()>, out: seq<Line>, d: Tracker)
    ensures o.Fatal? <==> strict
    ensures o.Ok? ==> out == [] && d.Valid() && d.numAllocations == 1 && d.bytesAllocated == 10
  {
    d := new Tracker(strict, false);
    var ok := d.Init(0);
    assert UntouchedFrom(d, 0);
    var p := AllocateNext(d, 0, 10, "main.c", 70, 100);
    ghost var t := d.blocks[..];
    assert FindFirst(t, StaleOf(500)).None?;
    assert FindFirst(t, LiveOf(500)).None?;
    o, out := d.Free(500, "main.c", 71);
  }

  /**
   * Filling the table: RMD_MAX_ALLOCS - 1 allocations succeed, and the next
   * one is fatal although the last slot is still free, because the count is
   * checked after it is incremented.
   */
  method FillTable() returns (o: Outcome<Ptr>, free: Option<nat>)
    ensures free == Some(MaxAllocs - 1)
    ensures o.Fatal?
  {
    var d := new Tracker(false, false);
    var ok := d.Init(0);
    assert UntouchedFrom(d, 0);
    var i := 0;
    while i < MaxAllocs - 1
      invariant 0 <= i <= MaxAllocs - 1
      invariant d.Valid() && d.isInit && d.numAllocations == i
      invariant forall j :: 0 <= j < i ==> d.blocks[j].inUse
      invariant UntouchedFrom(d, i)
    {
      var p := AllocateNext(d, i, 1, "main.c", 80, i + 1);
      i := i + 1;
    }
    free := d.FirstAvailableSlot();
    FindFirstUnique(d.blocks[..], AnyFree, MaxAllocs - 1);
    var out;
    o, out := d.Malloc(1, "main.c", 81, MaxAllocs);
  }
}
