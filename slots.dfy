/**
 * The slot table of the allocation tracker, as values: one record per slot,
 * the searches the tracker runs over the table, the aggregates it keeps in
 * step with the table, and the lines its report prints.
 */
module Slots {

  /** An address handed out by the system allocator; 0 is NULL. */
  type Ptr = nat
  const Null: Ptr := 0

  /** RMD_MAX_ALLOCS, the number of slots in the table. */
  const MaxAllocs: nat := 4096

  /** size_t is taken as 64 bits wide: byte counters and byte sums wrap modulo 2^64. */
  const SizeMod: nat := 0x1_0000_0000_0000_0000

  /** RMDF_PRINT_HEAP_CALLS, the only initialisation flag. */
  const PrintHeapCalls: bv32 := 1

  predicate LogsCalls(flags: bv32) {
    flags & PrintHeapCalls != 0
  }

  datatype Option<T> = None | Some(value: T)

  /**
   * One entry of the table (struct rmdi_block). `file` is the call site's
   * file-name pointer, None standing for NULL.
   */
  datatype Slot = Slot(ptr: Ptr, reqSize: nat, inUse: bool, file: Option<string>, line: int)

  /** A slot as the memset in init leaves it. */
  const ZeroSlot := Slot(Null, 0, false, None, 0)

  /** A slot as the forced release in terminate leaves it. */
  const ClearedSlot := Slot(Null, 0, false, None, -1)

  /**
   * What every slot satisfies at every point the program can observe: a size
   * fits in size_t, a slot in use holds a pointer, and a slot holding a
   * pointer (in use, or released and stale) has a nonzero size.
   */
  predicate WellFormedSlot(s: Slot) {
    && s.reqSize < SizeMod
    && (s.inUse ==> s.ptr != Null)
    && (s.ptr != Null ==> s.reqSize > 0)
  }

  /** A released slot that still remembers the pointer it held. */
  predicate IsStale(s: Slot) {
    !s.inUse && s.ptr != Null
  }

  ghost predicate HasStale(t: seq<Slot>) {
    exists j :: 0 <= j < |t| && IsStale(t[j])
  }

  // ---------------------------------------------------------------------
  // Searching the table

  /** The three linear scans of the tracker, each looking for one kind of slot. */
  datatype Query =
    | AnyFree        // first-fit slot selection
    | StaleOf(p: Ptr) // the double-free check: released, still remembering p
    | LiveOf(p: Ptr)  // the release scan: in use and holding p

  predicate Matches(s: Slot, q: Query) {
    match q
    case AnyFree => !s.inUse
    case StaleOf(p) => !s.inUse && s.ptr == p
    case LiveOf(p) => s.inUse && s.ptr == p
  }

  /** The lowest index whose slot matches `q`, or None when no slot does. */
  function FindFirst(t: seq<Slot>, q: Query): (r: Option<nat>)
    ensures r.Some? ==> r.value < |t| && Matches(t[r.value], q)
    ensures r.Some? ==> forall j :: 0 <= j < r.value ==> !Matches(t[j], q)
    ensures r.None? <==> forall j :: 0 <= j < |t| ==> !Matches(t[j], q)
  {
    if |t| == 0 then None
    else if Matches(t[0], q) then Some(0)
    else match FindFirst(t[1..], q)
      case None => None
      case Some(i) => Some(i + 1)
  }

  /** FindFirst names the one matching index that has no match below it. */
  lemma FindFirstUnique(t: seq<Slot>, q: Query, k: nat)
    requires k < |t| && Matches(t[k], q)
    requires forall j :: 0 <= j < k ==> !Matches(t[j], q)
    ensures FindFirst(t, q) == Some(k)
  {
    assert FindFirst(t, q).Some?;
  }

  // ---------------------------------------------------------------------
  // Aggregates over the slots in use

  function InUseBit(s: Slot): nat {
    if s.inUse then 1 else 0
  }

  function InUseBytes(s: Slot): nat {
    if s.inUse then s.reqSize else 0
  }

  /** The number of slots in use. */
  function CountInUse(t: seq<Slot>): nat {
    if |t| == 0 then 0 else CountInUse(t[..|t| - 1]) + InUseBit(t[|t| - 1])
  }

  /** The sum of the requested sizes of the slots in use, without wrap-around. */
  function SumInUse(t: seq<Slot>): nat {
    if |t| == 0 then 0 else SumInUse(t[..|t| - 1]) + InUseBytes(t[|t| - 1])
  }

  /**
   * The invariant the report checks: the maintained byte counter is the
   * (wrapped) sum over in-use slots, the allocation counter their number.
   */
  ghost predicate Consistent(t: seq<Slot>, bytes: nat, allocs: nat) {
    bytes == SumInUse(t) % SizeMod && allocs == CountInUse(t)
  }

  lemma {:induction false} CountUpdate(t: seq<Slot>, k: nat, s: Slot)
    requires k < |t|
    ensures CountInUse(t[k := s]) == CountInUse(t) - InUseBit(t[k]) + InUseBit(s)
  {
    var u := t[k := s];
    if k < |t| - 1 {
      assert u[..|u| - 1] == t[..|t| - 1][k := s];
      CountUpdate(t[..|t| - 1], k, s);
    } else {
      assert u[..|u| - 1] == t[..|t| - 1];
    }
  }

  lemma {:induction false} SumUpdate(t: seq<Slot>, k: nat, s: Slot)
    requires k < |t|
    ensures SumInUse(t[k := s]) == SumInUse(t) - InUseBytes(t[k]) + InUseBytes(s)
  {
    var u := t[k := s];
    if k < |t| - 1 {
      assert u[..|u| - 1] == t[..|t| - 1][k := s];
      SumUpdate(t[..|t| - 1], k, s);
    } else {
      assert u[..|u| - 1] == t[..|t| - 1];
    }
  }

  /** Marking a free slot in use adds its size and one allocation to consistent counters. */
  lemma OccupyConsistent(t: seq<Slot>, k: nat, s: Slot, bytes: nat, allocs: nat)
    requires k < |t| && !t[k].inUse && s.inUse
    requires Consistent(t, bytes, allocs)
    ensures Consistent(t[k := s], (bytes + s.reqSize) % SizeMod, allocs + 1)
  {
    CountUpdate(t, k, s);
    SumUpdate(t, k, s);
    WrapAdd(SumInUse(t), s.reqSize);
  }

  /** Marking a slot in use released takes its size and one allocation off consistent counters. */
  lemma ReleaseConsistent(t: seq<Slot>, k: nat, bytes: nat, allocs: nat)
    requires k < |t| && t[k].inUse
    requires Consistent(t, bytes, allocs)
    ensures allocs > 0
    ensures Consistent(t[k := t[k].(inUse := false)], (bytes - t[k].reqSize) % SizeMod, allocs - 1)
  {
    CountUpdate(t, k, t[k].(inUse := false));
    SumUpdate(t, k, t[k].(inUse := false));
    WrapSub(SumInUse(t), t[k].reqSize);
  }

  /** A table whose every slot is in use counts all of them. */
  lemma {:induction false} CountAllInUse(t: seq<Slot>)
    requires forall j :: 0 <= j < |t| ==> t[j].inUse
    ensures CountInUse(t) == |t|
  {
    if |t| > 0 {
      CountAllInUse(t[..|t| - 1]);
    }
  }

  /** A table with no slot in use has both aggregates zero. */
  lemma {:induction false} NoneInUse(t: seq<Slot>)
    requires forall j :: 0 <= j < |t| ==> !t[j].inUse
    ensures CountInUse(t) == 0 && SumInUse(t) == 0
  {
    if |t| > 0 {
      NoneInUse(t[..|t| - 1]);
    }
  }

  /**
   * First-fit never comes back empty: while the allocation counter is below
   * the capacity and agrees with the table, some slot is free.
   */
  lemma FreeSlotExists(t: seq<Slot>, allocs: nat)
    requires |t| == MaxAllocs && allocs < MaxAllocs && allocs == CountInUse(t)
    ensures FindFirst(t, AnyFree).Some?
  {
    if FindFirst(t, AnyFree).None? {
      CountAllInUse(t);
    }
  }

  /** Wrapped addition and subtraction do not care whether the left operand was wrapped first. */
  lemma ModShift(a: int, q: int)
    ensures (a + q * SizeMod) % SizeMod == a % SizeMod
  {
  }

  lemma WrapAdd(x: int, s: int)
    ensures (x % SizeMod + s) % SizeMod == (x + s) % SizeMod
  {
    ModShift(x % SizeMod + s, x / SizeMod);
  }

  lemma WrapSub(x: int, s: int)
    ensures (x % SizeMod - s) % SizeMod == (x - s) % SizeMod
  {
    ModShift(x % SizeMod - s, x / SizeMod);
  }

  // ---------------------------------------------------------------------
  // Reporting

  /** What the tracker prints, reduced to the values each line names. */
  datatype Line =
    | MallocLine(slot: nat, size: nat, file: string, line: int)
    | FreeLine(slot: nat, size: nat, file: string, line: int)
    | DoubleFreeLine(ptr: Ptr, file: string, line: int)
    | UsageLine(bytes: nat, allocs: nat)
    | LeakLine(slot: nat, size: nat, ptr: Ptr, allocFile: Option<string>, allocLine: int)

  /** The indices below `n` of the slots in use, in ascending order. */
  function InUseIndices(t: seq<Slot>, n: nat): (r: seq<nat>)
    requires n <= |t|
    ensures |r| == CountInUse(t[..n])
    ensures forall k :: 0 <= k < |r| ==> r[k] < n && t[r[k]].inUse
    ensures forall a, b :: 0 <= a < b < |r| ==> r[a] < r[b]
  {
    if n == 0 then []
    else
      assert t[..n][..n - 1] == t[..n - 1];
      InUseIndices(t, n - 1) + (if t[n - 1].inUse then [n - 1] else [])
  }

  /** Every slot in use below `n` is listed. */
  lemma {:induction false} InUseIndicesComplete(t: seq<Slot>, n: nat, i: nat)
    requires n <= |t| && i < n && t[i].inUse
    ensures i in InUseIndices(t, n)
  {
    if i < n - 1 {
      InUseIndicesComplete(t, n - 1, i);
    }
  }

  /** One leak line per index of `ix`, in the order of `ix`. */
  function LeakLines(t: seq<Slot>, ix: seq<nat>): (r: seq<Line>)
    requires forall k :: 0 <= k < |ix| ==> ix[k] < |t|
    ensures |r| == |ix|
  {
    if |ix| == 0 then []
    else
      var i := ix[|ix| - 1];
      LeakLines(t, ix[..|ix| - 1]) + [LeakLine(i, t[i].reqSize, t[i].ptr, t[i].file, t[i].line)]
  }

  /** The k-th leak line describes the slot at the k-th index. */
  lemma {:induction false} LeakLineAt(t: seq<Slot>, ix: seq<nat>, k: nat)
    requires forall j :: 0 <= j < |ix| ==> ix[j] < |t|
    requires k < |ix|
    ensures LeakLines(t, ix)[k] == LeakLine(ix[k], t[ix[k]].reqSize, t[ix[k]].ptr, t[ix[k]].file, t[ix[k]].line)
  {
    if k < |ix| - 1 {
      LeakLineAt(t, ix[..|ix| - 1], k);
    }
  }

  /** One release log line per index of `ix`, as the tracked free prints them. */
  function FreeLines(t: seq<Slot>, ix: seq<nat>, file: string, line: int): (r: seq<Line>)
    requires forall k :: 0 <= k < |ix| ==> ix[k] < |t|
    ensures |r| == |ix|
  {
    if |ix| == 0 then []
    else
      var i := ix[|ix| - 1];
      FreeLines(t, ix[..|ix| - 1], file, line) + [FreeLine(i, t[i].reqSize, file, line)]
  }

  /** The report on a consistent table: the usage line, then a leak line per slot in use. */
  function ReportLines(t: seq<Slot>): seq<Line> {
    [UsageLine(SumInUse(t) % SizeMod, CountInUse(t))] + LeakLines(t, InUseIndices(t, |t|))
  }

  /**
   * The report names exactly the slots in use, each once, in ascending slot
   * order, after a usage line carrying the recomputed totals.
   */
  lemma ReportListsLeaks(t: seq<Slot>)
    ensures var r := ReportLines(t);
      && |r| == 1 + CountInUse(t)
      && r[0] == UsageLine(SumInUse(t) % SizeMod, CountInUse(t))
      && (forall k :: 1 <= k < |r| ==> r[k].LeakLine? && r[k].slot < |t| && t[r[k].slot].inUse)
      && (forall a, b :: 1 <= a < b < |r| ==> r[a].slot < r[b].slot)
      && (forall i :: 0 <= i < |t| && t[i].inUse ==>
            exists k :: 1 <= k < |r| && r[k] == LeakLine(i, t[i].reqSize, t[i].ptr, t[i].file, t[i].line))
  {
    var ix := InUseIndices(t, |t|);
    assert t[..|t|] == t;
    var r := ReportLines(t);
    forall k | 1 <= k < |r|
      ensures r[k] == LeakLine(ix[k - 1], t[ix[k - 1]].reqSize, t[ix[k - 1]].ptr, t[ix[k - 1]].file, t[ix[k - 1]].line)
    {
      LeakLineAt(t, ix, k - 1);
    }
    forall i | 0 <= i < |t| && t[i].inUse
      ensures exists k :: 1 <= k < |r| && r[k] == LeakLine(i, t[i].reqSize, t[i].ptr, t[i].file, t[i].line)
    {
      InUseIndicesComplete(t, |t|, i);
      var k :| 0 <= k < |ix| && ix[k] == i;
      assert r[k + 1] == LeakLine(ix[k], t[ix[k]].reqSize, t[ix[k]].ptr, t[ix[k]].file, t[ix[k]].line);
    }
  }

  /** Slots above `n` that are not in use add nothing to the list of slots in use. */
  lemma {:induction false} InUseIndicesBeyond(t: seq<Slot>, n: nat, m: nat)
    requires n <= m <= |t|
    requires forall j :: n <= j < m ==> !t[j].inUse
    ensures InUseIndices(t, m) == InUseIndices(t, n)
  {
    if m > n {
      InUseIndicesBeyond(t, n, m - 1);
    }
  }

  // ---------------------------------------------------------------------
  // Forced release at terminate

  /**
   * The release log lines of terminate's forced release over the slots below
   * `n`: one per slot in use, in ascending slot order.
   */
  function ForcedFreeLines(t: seq<Slot>, n: nat, file: string, line: int): seq<Line>
    requires n <= |t|
  {
    if n == 0 then []
    else
      ForcedFreeLines(t, n - 1, file, line)
        + (if t[n - 1].inUse then [FreeLine(n - 1, t[n - 1].reqSize, file, line)] else [])
  }

  /** One step of the forced release: slot `n - 1` is logged exactly when it is in use. */
  lemma ForcedFreeLinesStep(t: seq<Slot>, n: nat, file: string, line: int)
    requires 0 < n <= |t|
    requires ForcedFreeLines(t, n - 1, file, line) == FreeLines(t, InUseIndices(t, n - 1), file, line)
    ensures ForcedFreeLines(t, n, file, line) == FreeLines(t, InUseIndices(t, n), file, line)
  {
    var ix := InUseIndices(t, n - 1);
    if t[n - 1].inUse {
      assert InUseIndices(t, n) == ix + [n - 1];
      assert (ix + [n - 1])[..|ix|] == ix;
    } else {
      assert InUseIndices(t, n) == ix;
    }
  }

  /** The forced release logs exactly the slots in use, in ascending order, each once. */
  lemma {:induction false} ForcedFreeLinesInUse(t: seq<Slot>, n: nat, file: string, line: int)
    requires n <= |t|
    ensures ForcedFreeLines(t, n, file, line) == FreeLines(t, InUseIndices(t, n), file, line)
  {
    if n == 0 {
      assert InUseIndices(t, 0) == [];
    } else {
      ForcedFreeLinesInUse(t, n - 1, file, line);
      ForcedFreeLinesStep(t, n, file, line);
    }
  }

  /** What terminate's forced release does to one slot: any slot holding a pointer is cleared. */
  function ForceCleared(s: Slot): (r: Slot)
    ensures r.ptr == Null
    ensures WellFormedSlot(s) ==> WellFormedSlot(r) && !r.inUse
    ensures s.ptr == Null ==> r == s
    ensures s.ptr != Null ==> r.reqSize == 0 && !r.inUse && r.file.None? && r.line == -1
  {
    if s.ptr == Null then s else ClearedSlot
  }

  /** The table after terminate's forced release: every slot cleared as above. */
  function ForceClearAll(t: seq<Slot>): (r: seq<Slot>)
    ensures |r| == |t|
    ensures forall j :: 0 <= j < |t| ==> r[j] == ForceCleared(t[j])
  {
    seq(|t|, j requires 0 <= j < |t| => ForceCleared(t[j]))
  }

  /**
   * A table of well-formed slots comes out of the forced release with no slot
   * in use and none stale, so it agrees with the counters terminate zeroes.
   */
  lemma ForceClearAllEmpty(t: seq<Slot>)
    requires forall j :: 0 <= j < |t| ==> WellFormedSlot(t[j])
    ensures CountInUse(ForceClearAll(t)) == 0 && SumInUse(ForceClearAll(t)) == 0
    ensures !HasStale(ForceClearAll(t))
  {
    NoneInUse(ForceClearAll(t));
  }
}
