/**
 * The allocation tracker of include/rose_mem_debugger.h: a fixed table of
 * slots, the two aggregate counters, the initialisation flags and the
 * lifecycle flag, all updated in place by init, terminate, the tracked
 * malloc and free, and read by the heap-usage report.
 *
 * Every failed rmd_assertf ends the process; an operation that reaches one
 * returns Fatal, and nothing is promised about the state it leaves, since no
 * later call can observe it. What the tracker prints is returned as a
 * sequence of Lines.
 */
module RoseMemDebugger {
  import opened Slots

  /** The result of one call: Fatal when an assertion fails and the process exits. */
  datatype Outcome<T> = Fatal | Ok(value: T)

  /** The call site terminate's forced release passes to the tracked free. */
  const TerminateFile := "include/rose_mem_debugger.h"
  const TerminateLine := 230

  class Tracker {
    /** RMD_STRICT_FREE: releasing NULL, a stale pointer or an unknown pointer is fatal. */
    const strictFree: bool
    /** RMD_FREE_ALL_SLOTS_ON_TERMINATE: terminate releases the slots still holding a pointer. */
    const freeAllOnTerminate: bool
    /** rmdi_blocks: a static table, so the array never changes, only its slots do. */
    const blocks: array<Slot>
    var isInit: bool
    var flags: bv32
    var bytesAllocated: nat
    var numAllocations: nat

    /** What holds of the tracker's state at every point a caller can observe. */
    ghost predicate WellFormed()
      reads this, blocks
    {
      && blocks.Length == MaxAllocs
      && bytesAllocated < SizeMod
      && numAllocations < SizeMod
      && forall i :: 0 <= i < blocks.Length ==> WellFormedSlot(blocks[i])
    }

    /**
     * The tracker's invariant: below capacity, and while initialised the
     * counters agree with the table (the property the report asserts).
     */
    ghost predicate Valid()
      reads this, blocks
    {
      && WellFormed()
      && numAllocations < MaxAllocs
      && (isInit ==> Consistent(blocks[..], bytesAllocated, numAllocations))
    }

    /** The zero-initialised static state, before the first init. */
    constructor (strictFree: bool, freeAllOnTerminate: bool)
      ensures Valid() && fresh(blocks)
      ensures this.strictFree == strictFree && this.freeAllOnTerminate == freeAllOnTerminate
      ensures !isInit && flags == 0 && bytesAllocated == 0 && numAllocations == 0
      ensures forall i :: 0 <= i < blocks.Length ==> blocks[i] == ZeroSlot
    {
      this.strictFree := strictFree;
      this.freeAllOnTerminate := freeAllOnTerminate;
      blocks := new Slot[MaxAllocs](_ => ZeroSlot);
      isInit, flags, bytesAllocated, numAllocations := false, 0, 0, 0;
    }

    /** rose_mem_debugger_init */
    method Init(f: bv32) returns (o: Outcome<()>)
      requires Valid()
      modifies this, blocks
      ensures o.Fatal? <==> old(isInit)
      ensures o.Fatal? ==> unchanged(this) && unchanged(blocks)
      ensures o.Ok? ==> isInit && flags == f && bytesAllocated == 0 && numAllocations == 0
      ensures o.Ok? ==> forall i :: 0 <= i < blocks.Length ==> blocks[i] == ZeroSlot
      ensures Valid()
    {
      if isInit {
        return Fatal;
      }
      bytesAllocated := 0;
      numAllocations := 0;
      forall i | 0 <= i < blocks.Length {
        blocks[i] := ZeroSlot;
      }
      flags := f;
      isInit := true;
      NoneInUse(blocks[..]);
      o := Ok(());
    }

    /** rose_mem_debugger_terminate */
    method Terminate() returns (o: Outcome<()>, out: seq<Line>)
      requires Valid()
      modifies this, blocks
      ensures o.Fatal? <==> !old(isInit) || (freeAllOnTerminate && HasStale(old(blocks[..])))
      ensures o.Ok? ==> !isInit && flags == 0 && bytesAllocated == 0 && numAllocations == 0 && Valid()
      ensures o.Ok? ==>
        blocks[..] == (if freeAllOnTerminate then ForceClearAll(old(blocks[..])) else old(blocks[..]))
      ensures o.Ok? ==>
        out == ReportLines(old(blocks[..])) +
          (if freeAllOnTerminate && LogsCalls(old(flags))
           then ForcedFreeLines(old(blocks[..]), MaxAllocs, TerminateFile, TerminateLine)
           else [])
    {
      out := [];
      if !isInit {
        return Fatal, out;
      }
      var report;
      report, out := PrintHeapUsage();
      // The report's assertions cannot fail while the tracker is consistent.
      assert report.Ok?;
      if freeAllOnTerminate {
        var forced, lines := ForceFreeAll();
        out := out + lines;
        if forced.Fatal? {
          return Fatal, out;
        }
      }
      bytesAllocated, numAllocations, flags, isInit := 0, 0, 0, false;
      o := Ok(());
    }

    /**
     * The RMD_FREE_ALL_SLOTS_ON_TERMINATE loop of terminate: every slot holding
     * a pointer is released through the tracked free and cleared. A released
     * slot still holds its pointer, so one stale slot makes it fatal. The
     * tracked free moves both counters, but nothing reads them before
     * terminate zeroes them, so their values here are left unstated.
     */
    method ForceFreeAll() returns (o: Outcome<()>, out: seq<Line>)
      requires WellFormed() && isInit
      modifies this`bytesAllocated, this`numAllocations, blocks
      ensures o.Fatal? <==> HasStale(old(blocks[..]))
      ensures o.Ok? ==> WellFormed() && blocks[..] == ForceClearAll(old(blocks[..]))
      ensures o.Ok? ==>
        out == (if LogsCalls(flags) then ForcedFreeLines(old(blocks[..]), MaxAllocs, TerminateFile, TerminateLine) else [])
    {
      out := [];
      ghost var t0 := blocks[..];
      ghost var clean := !HasStale(t0);
      var i := 0;
      while i < blocks.Length
        invariant 0 <= i <= blocks.Length
        invariant WellFormed()
        invariant forall j :: i <= j < blocks.Length ==> blocks[j] == t0[j]
        invariant forall j :: 0 <= j < i ==> blocks[j] == ForceCleared(t0[j])
        invariant forall j :: 0 <= j < i ==> !IsStale(t0[j])
        invariant clean ==>
          out == (if LogsCalls(flags) then ForcedFreeLines(t0, i, TerminateFile, TerminateLine) else [])
      {
        var r, lines := ForceFreeSlot(i);
        out := out + lines;
        if r.Fatal? {
          return Fatal, out;
        }
        i := i + 1;
      }
      assert blocks[..] == ForceClearAll(t0);
      o := Ok(());
    }

    /**
     * One pass of the forced-release loop over slot `i`, every slot below it
     * already cleared: a slot holding no pointer is skipped; a stale slot
     * fails the in_use assertion; a slot in use is released through the
     * tracked free, which under RMD_STRICT_FREE fails exactly when a stale
     * slot above it remembers the same pointer (otherwise that is reported as
     * a double free), and is then cleared. As in ForceFreeAll, the counters the
     * tracked free moves are left unstated: terminate zeroes them next.
     */
    method ForceFreeSlot(i: nat) returns (o: Outcome<()>, out: seq<Line>)
      requires WellFormed() && isInit
      requires i < blocks.Length
      requires forall j :: 0 <= j < i ==> blocks[j].ptr == Null
      modifies this`bytesAllocated, this`numAllocations, blocks
      ensures o.Fatal? ==> exists j :: i <= j < blocks.Length && IsStale(old(blocks[j]))
      ensures o.Fatal? <==>
        || IsStale(old(blocks[i]))
        || (old(blocks[i]).inUse && strictFree &&
            FindFirst(old(blocks[..]), StaleOf(old(blocks[i]).ptr)).Some?)
      ensures o.Ok? && old(blocks[i]).inUse && FindFirst(old(blocks[..]), StaleOf(old(blocks[i]).ptr)).Some? ==>
        out == [DoubleFreeLine(old(blocks[i]).ptr, TerminateFile, TerminateLine)]
      ensures o.Ok? && !old(blocks[i]).inUse ==> out == []
      ensures o.Ok? ==> WellFormed() && !IsStale(old(blocks[i]))
      ensures o.Ok? ==> blocks[..] == old(blocks[..])[i := ForceCleared(old(blocks[i]))]
      ensures o.Ok? && (forall j :: i < j < blocks.Length ==> !IsStale(old(blocks[j]))) ==>
        out == (if LogsCalls(flags) && old(blocks[i]).inUse
                then [FreeLine(i, old(blocks[i]).reqSize, TerminateFile, TerminateLine)] else [])
    {
      out := [];
      if blocks[i].ptr == Null {
        return Ok(()), out;
      }
      // A slot holding a pointer always has a size.
      assert blocks[i].reqSize != 0;
      if !blocks[i].inUse {
        return Fatal, out;
      }
      var p := blocks[i].ptr;
      ghost var cur := blocks[..];
      FindFirstUnique(cur, LiveOf(p), i);
      ghost var stale := FindFirst(cur, StaleOf(p));
      if stale.Some? {
        assert IsStale(cur[stale.value]) && i < stale.value;
      }
      o, out := Free(p, TerminateFile, TerminateLine);
      if o.Fatal? {
        return;
      }
      blocks[i] := ClearedSlot;
    }

    /** _rmdi_get_first_available_slot: first-fit. */
    method FirstAvailableSlot() returns (r: Option<nat>)
      ensures r == FindFirst(blocks[..], AnyFree)
    {
      for i := 0 to blocks.Length
        invariant forall j :: 0 <= j < i ==> blocks[j].inUse
      {
        if !blocks[i].inUse {
          FindFirstUnique(blocks[..], AnyFree, i);
          return Some(i);
        }
      }
      return None;
    }

    /** _rmdi_malloc_internal; `sysPtr` is what the system malloc returns. */
    method Malloc(sz: nat, file: string, line: int, sysPtr: Ptr) returns (o: Outcome<Ptr>, out: seq<Line>)
      requires Valid()
      requires sz < SizeMod
      modifies this`bytesAllocated, this`numAllocations, blocks
      ensures o.Fatal? <==>
        || !isInit
        || sz == 0
        || FindFirst(old(blocks[..]), AnyFree).None?
        || sysPtr == Null
        || old(numAllocations) + 1 >= MaxAllocs
      ensures o.Ok? ==>
        && FindFirst(old(blocks[..]), AnyFree).Some?
        && var k := FindFirst(old(blocks[..]), AnyFree).value;
           && blocks[..] == old(blocks[..])[k := Slot(sysPtr, sz, true, Some(file), line)]
           && bytesAllocated == (old(bytesAllocated) + sz) % SizeMod
           && numAllocations == old(numAllocations) + 1
           && o.value == sysPtr
           && out == (if LogsCalls(flags) then [MallocLine(k, sz, file, line)] else [])
      ensures o.Ok? ==> Valid() && numAllocations < MaxAllocs
    {
      out := [];
      if !isInit {
        return Fatal, out;
      }
      if sz == 0 {
        return Fatal, out;
      }
      var slot := FirstAvailableSlot();
      if slot.None? {
        return Fatal, out;
      }
      var k := slot.value;
      assert !blocks[k].inUse;
      ghost var t := blocks[..];
      blocks[k] := blocks[k].(ptr := sysPtr);
      if sysPtr == Null {
        return Fatal, out;
      }
      bytesAllocated := (bytesAllocated + sz) % SizeMod;
      blocks[k] := blocks[k].(reqSize := sz);
      numAllocations := numAllocations + 1;
      if numAllocations >= MaxAllocs {
        return Fatal, out;
      }
      if LogsCalls(flags) {
        out := [MallocLine(k, sz, file, line)];
      }
      blocks[k] := blocks[k].(inUse := true, file := Some(file), line := line);
      assert blocks[..] == t[k := blocks[k]];
      OccupyConsistent(t, k, blocks[k], old(bytesAllocated), old(numAllocations));
      o := Ok(sysPtr);
    }

    /** _rmdi_is_double_free: the first released slot still remembering `p`. */
    method IsDoubleFree(p: Ptr) returns (r: Option<nat>)
      ensures r == FindFirst(blocks[..], StaleOf(p))
    {
      for i := 0 to blocks.Length
        invariant forall j :: 0 <= j < i ==> !Matches(blocks[j], StaleOf(p))
      {
        if !blocks[i].inUse && blocks[i].ptr == p {
          FindFirstUnique(blocks[..], StaleOf(p), i);
          return Some(i);
        }
      }
      return None;
    }

    /** _rmdi_free_internal */
    method Free(p: Ptr, file: string, line: int) returns (o: Outcome<()>, out: seq<Line>)
      requires WellFormed()
      modifies this`bytesAllocated, this`numAllocations, blocks
      ensures o.Fatal? <==>
        || !isInit
        || (strictFree &&
            (p == Null
             || FindFirst(old(blocks[..]), StaleOf(p)).Some?
             || FindFirst(old(blocks[..]), LiveOf(p)).None?))
      ensures (o.Ok? &&
        (p == Null || FindFirst(old(blocks[..]), StaleOf(p)).Some? || FindFirst(old(blocks[..]), LiveOf(p)).None?)) ==>
        && blocks[..] == old(blocks[..])
        && bytesAllocated == old(bytesAllocated)
        && numAllocations == old(numAllocations)
        && out == (if p != Null && FindFirst(old(blocks[..]), StaleOf(p)).Some?
                   then [DoubleFreeLine(p, file, line)] else [])
      ensures (o.Ok? && p != Null && FindFirst(old(blocks[..]), StaleOf(p)).None? &&
        FindFirst(old(blocks[..]), LiveOf(p)).Some?) ==>
        var k := FindFirst(old(blocks[..]), LiveOf(p)).value;
        var s := old(blocks[..])[k];
        && blocks[..] == old(blocks[..])[k := s.(inUse := false)]
        && bytesAllocated == (old(bytesAllocated) - s.reqSize) % SizeMod
        && numAllocations == (old(numAllocations) - 1) % SizeMod
        && out == (if LogsCalls(flags) then [FreeLine(k, s.reqSize, file, line)] else [])
      ensures o.Ok? ==> WellFormed()
      ensures o.Ok? && old(Valid()) ==> Valid()
    {
      out := [];
      if !isInit {
        return Fatal, out;
      }
      if p == Null {
        if strictFree {
          return Fatal, out;
        }
        return Ok(()), out;
      }
      var stale := IsDoubleFree(p);
      if stale.Some? {
        if strictFree {
          return Fatal, out;
        }
        return Ok(()), [DoubleFreeLine(p, file, line)];
      }
      ghost var t := blocks[..];
      for i := 0 to blocks.Length
        invariant blocks[..] == t
        invariant forall j :: 0 <= j < i ==> !Matches(blocks[j], LiveOf(p))
      {
        if !blocks[i].inUse || p != blocks[i].ptr {
          continue;
        }
        FindFirstUnique(t, LiveOf(p), i);
        out := ReleaseSlot(i, file, line);
        return Ok(()), out;
      }
      if strictFree {
        return Fatal, out;
      }
      o := Ok(());
    }

    /**
     * The body of the release loop of _rmdi_free_internal for the slot `i`
     * found in use: both counters go down, and the slot is marked released
     * but keeps its pointer and size. The system free has no effect on the
     * table.
     */
    method ReleaseSlot(i: nat, file: string, line: int) returns (out: seq<Line>)
      requires WellFormed() && i < blocks.Length && blocks[i].inUse
      modifies this`bytesAllocated, this`numAllocations, blocks
      ensures blocks[..] == old(blocks[..])[i := old(blocks[i]).(inUse := false)]
      ensures bytesAllocated == (old(bytesAllocated) - old(blocks[i]).reqSize) % SizeMod
      ensures numAllocations == (old(numAllocations) - 1) % SizeMod
      ensures out == (if LogsCalls(flags) then [FreeLine(i, old(blocks[i]).reqSize, file, line)] else [])
      ensures WellFormed()
      ensures old(isInit && Valid()) ==> Valid()
    {
      ghost var t := blocks[..];
      out := [];
      numAllocations := (numAllocations - 1) % SizeMod;
      bytesAllocated := (bytesAllocated - blocks[i].reqSize) % SizeMod;
      if LogsCalls(flags) {
        out := [FreeLine(i, blocks[i].reqSize, file, line)];
      }
      blocks[i] := blocks[i].(inUse := false);
      assert blocks[..] == t[i := blocks[i]];
      if old(isInit && Valid()) {
        ReleaseConsistent(t, i, old(bytesAllocated), old(numAllocations));
      }
    }

    /** rmd_print_heap_usage */
    method PrintHeapUsage() returns (o: Outcome<()>, out: seq<Line>)
      requires WellFormed()
      ensures o.Fatal? <==> !Consistent(blocks[..], bytesAllocated, numAllocations)
      ensures o.Ok? ==> out == ReportLines(blocks[..])
    {
      var bytesCounted: nat, allocsCounted: nat := 0, 0;
      for i := 0 to blocks.Length
        invariant bytesCounted == SumInUse(blocks[..i]) % SizeMod
        invariant allocsCounted == CountInUse(blocks[..i])
      {
        assert blocks[..i + 1][..i] == blocks[..i];
        if !blocks[i].inUse {
          continue;
        }
        allocsCounted := allocsCounted + 1;
        // A slot in use always has a size.
        assert blocks[i].reqSize != 0;
        WrapAdd(SumInUse(blocks[..i]), blocks[i].reqSize);
        bytesCounted := (bytesCounted + blocks[i].reqSize) % SizeMod;
      }
      assert blocks[..blocks.Length] == blocks[..];
      if bytesCounted != bytesAllocated {
        return Fatal, [];
      }
      if allocsCounted != numAllocations {
        return Fatal, [];
      }
      out := [UsageLine(bytesCounted, allocsCounted)];
      if bytesCounted == 0 && allocsCounted == 0 {
        return Ok(()), out;
      }
      ghost var t := blocks[..];
      for i := 0 to blocks.Length
        invariant out == [UsageLine(bytesCounted, allocsCounted)] + LeakLines(t, InUseIndices(t, i))
      {
        ghost var ix := InUseIndices(t, i);
        if blocks[i].inUse {
          assert InUseIndices(t, i + 1) == ix + [i];
          assert (ix + [i])[..|ix|] == ix;
          out := out + [LeakLine(i, blocks[i].reqSize, blocks[i].ptr, blocks[i].file, blocks[i].line)];
        } else {
          assert InUseIndices(t, i + 1) == ix;
        }
      }
      o := Ok(());
    }
  }
}
