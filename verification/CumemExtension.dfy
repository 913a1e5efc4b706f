/** The extension module around the allocator: my_malloc, and the two functions Python calls to put
    an allocation to sleep and to wake it up. */
module CumemExtension {
  import opened Sequences
  import opened ChunkPlan
  import opened CumemDriver
  import opened CumemAllocator
  import opened PyArgs

  // ---------------------------------------------------------------- how an allocation can end

  /** What the Python malloc callback does: it is not set, it raises, or it records the allocation. */
  datatype Callback = Missing | Raises | Accepts

  datatype MallocResult = Pointer(address: int) | Null | DividedByZero

  /** What the driver answered.  Answers to calls that were not made mean nothing. */
  datatype Answers = Answers(granularity: int, granularityStatus: int, address: int, reserveStatus: int,
                             mapping: Statuses, freeStatus: int)

  datatype End = NothingReserved | ZeroChunk | Abandoned | NotMapped | Mapped

  /** The circumstances of a call: the error code left by earlier calls, the arguments, the
      environment, how many handle cells the heap can still provide, and the callback. */
  datatype Request = Request(code: int, size: int, env: EnvValue, freeCells: nat, callback: Callback)

  function AlignedSize(q: Request, t: Answers): int {
    if t.granularity <= 0 then 0 else AlignUp(U64(q.size), t.granularity)
  }

  function ChunkOf(q: Request, t: Answers): int {
    if t.granularity <= 0 then 0 else AlignUp(GetMemcreateChunkSize(q.env), t.granularity)
  }

  function PlanOf(q: Request, t: Answers): seq<int> {
    if ChunkOf(q, t) <= 0 then [] else ChunkSizes(AlignedSize(q, t), ChunkOf(q, t))
  }

  function EndOf(q: Request, t: Answers): End {
    if q.code != 0 || t.granularityStatus != 0 || t.reserveStatus != 0 then NothingReserved
    else if ChunkOf(q, t) == 0 then ZeroChunk
    else if q.freeCells < |PlanOf(q, t)| || q.callback != Accepts then Abandoned
    else if ErrorOf(t.mapping) != 0 then NotMapped
    else Mapped
  }

  predicate Reached(q: Request, t: Answers) {
    EndOf(q, t) == Mapped || EndOf(q, t) == NotMapped
  }

  /** The calls of my_malloc, up to the reservation. */
  ghost function LogToReservation(log: seq<Call>, q: Request, t: Answers): seq<Call> {
    var asked := log + [GetGranularity(t.granularity, t.granularityStatus)];
    if q.code != 0 || t.granularityStatus != 0 then asked
    else asked + [Reserve(t.address, AlignedSize(q, t), t.reserveStatus)]
  }

  /** The log after my_malloc. */
  ghost function MallocLog(log: seq<Call>, q: Request, t: Answers, handles: seq<Handle>): seq<Call>
    requires Reached(q, t) ==> Bounded(t.mapping, |PlanOf(q, t)|) && |handles| == |PlanOf(q, t)|
  {
    var reserved := LogToReservation(log, q, t);
    if !Reached(q, t) then reserved else
      var mapped := LogAfter(reserved, t.address, AlignedSize(q, t), PlanOf(q, t), handles, t.mapping);
      if EndOf(q, t) == Mapped then mapped else mapped + [FreeAddress(t.address, AlignedSize(q, t), t.freeStatus)]
  }

  /** The error code after my_malloc. */
  function CodeAfter(q: Request, t: Answers): int {
    if t.granularityStatus != 0 then t.granularityStatus
    else if q.code != 0 then q.code
    else if t.reserveStatus != 0 then t.reserveStatus
    else if EndOf(q, t) != NotMapped then 0
    else if t.freeStatus != 0 then t.freeStatus
    else ErrorOf(t.mapping)
  }

  /** The address range is still reserved although no pointer was returned. */
  predicate Orphaned(q: Request, t: Answers) {
    EndOf(q, t) == Abandoned || EndOf(q, t) == ZeroChunk || (EndOf(q, t) == NotMapped && t.freeStatus != 0)
  }

  function ResultOf(q: Request, t: Answers): MallocResult {
    match EndOf(q, t)
    case Mapped => Pointer(t.address)
    case ZeroChunk => DividedByZero
    case _ => Null
  }

  function ReservedAfter(q: Request, t: Answers, before: map<int, int>): map<int, int> {
    if EndOf(q, t) == Mapped || Orphaned(q, t) then before[t.address := AlignedSize(q, t)] else before
  }

  /** The device after the call: resident if every chunk was created and mapped, even when access then
      failed; otherwise as before, unless undoing failed. */
  ghost predicate DeviceAfter(q: Request, t: Answers, created0: map<Handle, int>, mapped0: map<int, Mapping>,
                              created: map<Handle, int>, mapped: map<int, Mapping>, handles: seq<Handle>) {
    if !Reached(q, t) then created == created0 && mapped == mapped0 else
      && t.granularity > 0 && PlannedFor(q.size, q.env, t.granularity, t.address, PlanOf(q, t))
      && Complete(t.mapping, |PlanOf(q, t)|) && |handles| == |PlanOf(q, t)|
      && if FirstError(t.mapping.creates) == FirstError(t.mapping.maps) == 0
         then Resident(created0, mapped0, created, mapped, t.address, PlanOf(q, t), handles)
         else Undone(t.mapping) <==> created == created0 && mapped == mapped0
  }

  /** The heap after the call: the cells stay when the allocation succeeds, and also when the callback
      is missing or raises. */
  ghost predicate HeapAfter(q: Request, t: Answers, at0: map<int, HandleCell>, free0: seq<int>, at: map<int, HandleCell>, cells: seq<HandleCell>) {
    var n := |PlanOf(q, t)|;
    if EndOf(q, t) == Mapped || (EndOf(q, t) == Abandoned && n <= q.freeCells) then
      n <= |free0| && HoldsFirst(at, at0, free0[..n], n) && (EndOf(q, t) == Mapped ==> CellsAt(at, free0[..n], cells))
    else
      at == at0
  }

  /** The tuple Python was given: it names exactly the planned chunks and their cells. */
  ghost predicate HandleFor(q: Request, t: Answers, device: int, free0: seq<int>, handle: PyObject) {
    |PlanOf(q, t)| <= |free0| && InC(AllocationOf(q, t, device, free0)) && handle == Encoded(AllocationOf(q, t, device, free0))
  }

  function AllocationOf(q: Request, t: Answers, device: int, free0: seq<int>): Allocation
    requires |PlanOf(q, t)| <= |free0|
  {
    Allocation(U64(device), AlignedSize(q, t), t.address, free0[..|PlanOf(q, t)|], PlanOf(q, t))
  }

  lemma NothingMapped(q: Request, t: Answers, log: seq<Call>, reserved: map<int, int>, created: map<Handle, int>, mapped: map<int, Mapping>,
                      at: map<int, HandleCell>, free: seq<int>, handles: seq<Handle>, cells: seq<HandleCell>)
    requires !Reached(q, t)
    ensures MallocLog(log, q, t, handles) == LogToReservation(log, q, t)
    ensures CodeAfter(q, t) == if t.granularityStatus != 0 then t.granularityStatus
                               else if q.code != 0 then q.code else t.reserveStatus
    ensures DeviceAfter(q, t, created, mapped, created, mapped, handles)
    ensures ReservedAfter(q, t, reserved) ==
      if EndOf(q, t) == NothingReserved then reserved else reserved[t.address := AlignedSize(q, t)]
    ensures !(EndOf(q, t) == Abandoned && |PlanOf(q, t)| <= q.freeCells) ==> HeapAfter(q, t, at, free, at, cells)
  {
  }

  lemma CellsStay(q: Request, t: Answers, at0: map<int, HandleCell>, free0: seq<int>, at: map<int, HandleCell>, cells: seq<HandleCell>)
    requires EndOf(q, t) == Abandoned && |PlanOf(q, t)| <= q.freeCells == |free0|
    requires HoldsFirst(at, at0, free0[..|PlanOf(q, t)|], |PlanOf(q, t)|)
    ensures HeapAfter(q, t, at0, free0, at, cells)
  {
  }

  lemma MappingTried(q: Request, t: Answers, log: seq<Call>, reserved: map<int, int>, created0: map<Handle, int>, mapped0: map<int, Mapping>,
                     created: map<Handle, int>, mapped: map<int, Mapping>, at0: map<int, HandleCell>, free0: seq<int>,
                     at: map<int, HandleCell>, cells: seq<HandleCell>, handles: seq<Handle>, device: int, handle: PyObject)
    requires Reached(q, t) && t.granularity > 0 && PlannedFor(q.size, q.env, t.granularity, t.address, PlanOf(q, t))
    requires |handles| == |PlanOf(q, t)| <= |free0| && Complete(t.mapping, |PlanOf(q, t)|)
    requires FirstError(t.mapping.creates) == FirstError(t.mapping.maps) == 0 ==>
      Resident(created0, mapped0, created, mapped, t.address, PlanOf(q, t), handles)
    requires !(FirstError(t.mapping.creates) == FirstError(t.mapping.maps) == 0) ==>
      (Undone(t.mapping) <==> created == created0 && mapped == mapped0)
    requires var addresses := free0[..|PlanOf(q, t)|];
      if ErrorOf(t.mapping) == 0 then HoldsFirst(at, at0, addresses, |addresses|) && CellsAt(at, addresses, cells) else at == at0
    requires var a := Allocation(U64(device), AlignedSize(q, t), t.address, free0[..|PlanOf(q, t)|], PlanOf(q, t));
      InC(a) && handle == Encoded(a)
    requires t.address !in reserved && Bounded(t.mapping, |PlanOf(q, t)|)
    ensures var tried := LogAfter(LogToReservation(log, q, t), t.address, AlignedSize(q, t), PlanOf(q, t), handles, t.mapping);
      MallocLog(log, q, t, handles) ==
        if ErrorOf(t.mapping) == 0 then tried else tried + [FreeAddress(t.address, AlignedSize(q, t), t.freeStatus)]
    ensures CodeAfter(q, t) == if ErrorOf(t.mapping) != 0 && t.freeStatus != 0 then t.freeStatus else ErrorOf(t.mapping)
    ensures DeviceAfter(q, t, created0, mapped0, created, mapped, handles)
    ensures HeapAfter(q, t, at0, free0, at, cells) && HandleFor(q, t, device, free0, handle)
    ensures var held := reserved[t.address := AlignedSize(q, t)];
      ReservedAfter(q, t, reserved) == if ErrorOf(t.mapping) != 0 && t.freeStatus == 0 then held - {t.address} else held
  {
    hide PlannedFor, Resident, Complete, HoldsFirst, Undone, FirstError, ErrorOf, InC, Encoded, CellsAt, AlignedSize, PlanOf, LogAfter;
    var held := reserved[t.address := AlignedSize(q, t)];
    assert held - {t.address} == reserved;
  }

  /** A byte is requested, the driver grants everything, the heap has room, and no callback is set:
      the result is null and the range stays reserved. */
  lemma MissingCallbackOrphans(t: Answers)
    requires t.granularity == 2 * MB && t.granularityStatus == t.reserveStatus == 0
    ensures var q := Request(0, 1, Unset, 1, Missing);
      PlanOf(q, t) == [2 * MB] && Orphaned(q, t) && EndOf(q, t) == Abandoned
  {
    assert AlignUp(1, 2 * MB) == 2 * MB;
    assert AlignUp(256 * MB, 2 * MB) == 256 * MB;
    assert NumChunks(2 * MB, 256 * MB) == 1 && ChunkSize(2 * MB, 256 * MB, 0) == 2 * MB;
  }

  // ---------------------------------------------------------------- handle cells

  ghost predicate CellsAt(at: map<int, HandleCell>, addresses: seq<int>, cells: seq<HandleCell>) {
    |addresses| == |cells| && forall i :: 0 <= i < |cells| ==> addresses[i] in at && at[addresses[i]] == cells[i]
  }

  lemma HoldsPrefix<K, V>(m: map<K, V>, base: map<K, V>, keys: seq<K>, n: nat)
    requires n <= |keys| && HoldsFirst(m, base, keys, n)
    ensures HoldsFirst(m, base, keys[..n], n)
  {
    forall k | k in m && k !in base ensures exists i :: 0 <= i < n && keys[..n][i] == k {
      var i :| 0 <= i < n && keys[i] == k;
      assert keys[..n][i] == k;
    }
  }

  /** Give the first n cells back; they were all that had been added. */
  method FreeCells(heap: Heap, addresses: seq<int>, n: nat, ghost base: map<int, HandleCell>)
    requires heap.Valid() && n <= |addresses| && HoldsFirst(heap.at, base, addresses, n)
    modifies heap
    ensures heap.Valid() && heap.at == base
  {
    hide Removing, HoldsFirst;
    NothingRemoved(heap.at, base, addresses, n);
    for j := 0 to n
      invariant heap.Valid() && Removing(heap.at, base, addresses, j, n, true)
    {
      RemoveStep(heap.at, base, addresses, j, n, true, true);
      heap.Free(addresses[j]);
    }
    RemoveDone(heap.at, base, addresses, n, true);
  }

  /** One handle cell per chunk, or, if the heap runs out, none. */
  method AllocateCells(heap: Heap, n: nat) returns (ok: bool, cells: seq<HandleCell>, addresses: seq<int>)
    requires heap.Valid()
    modifies heap
    ensures heap.Valid()
    ensures ok <==> n <= |old(heap.free)|
    ensures ok ==> |cells| == n && Distinct(cells) && addresses == old(heap.free)[..n]
    ensures ok ==> HoldsFirst(heap.at, old(heap.at), addresses, n) && CellsAt(heap.at, addresses, cells)
    ensures forall c :: c in cells ==> fresh(c)
    ensures !ok ==> heap.at == old(heap.at)
  {
    hide HoldsFirst;
    ghost var base, free := heap.at, heap.free;
    cells, addresses := [], [];
    HoldsNothing(base, free);
    for i := 0 to n
      invariant heap.Valid() && i <= |free| && heap.free == free[i..]
      invariant |cells| == i && Distinct(cells) && addresses == free[..i]
      invariant HoldsFirst(heap.at, base, free, i) && CellsAt(heap.at, addresses, cells)
      invariant forall c :: c in cells ==> fresh(c) && c in heap.at.Values
    {
      ghost var at := heap.at;
      assert heap.free != [] ==> heap.free[0] in heap.free;
      var got, address, cell := heap.Malloc();
      if !got {
        HoldsPrefix(heap.at, base, free, i);
        FreeCells(heap, addresses, i, base);
        return false, [], [];
      }
      assert address == free[i] && free[i := address] == free;
      HoldsOneMore(at, base, free, i, address, cell);
      cells, addresses := cells + [cell], addresses + [address];
      assert heap.at[address] == cell;
    }
    HoldsPrefix(heap.at, base, free, n);
    return true, cells, addresses;
  }

  // ---------------------------------------------------------------- the module

  datatype PyReturn = Returned | Refused(error: PyError) | RuntimeError

  /** The handle cells named by the addresses. */
  function CellsOf(at: map<int, HandleCell>, addresses: seq<int>): seq<HandleCell>
    requires forall i :: 0 <= i < |addresses| ==> addresses[i] in at
  {
    seq(|addresses|, i requires 0 <= i < |addresses| && addresses[i] in at => at[addresses[i]])
  }

  /** The handles in those cells. */
  ghost function HandlesAt(at: map<int, HandleCell>, addresses: seq<int>): (handles: seq<Handle>)
    requires forall i :: 0 <= i < |addresses| ==> addresses[i] in at
    reads at.Values
    ensures |handles| == |addresses|
  {
    Handles(CellsOf(at, addresses))
  }

  /** The cell addresses of the allocation are valid. */
  ghost predicate Points(at: map<int, HandleCell>, a: Allocation) {
    |a.cells| == |a.sizes| && forall i :: 0 <= i < |a.cells| ==> a.cells[i] in at
  }

  class Extension {
    const allocator: Allocator
    const heap: Heap

    constructor (allocator: Allocator, heap: Heap)
      ensures this.allocator == allocator && this.heap == heap
    {
      this.allocator, this.heap := allocator, heap;
    }

    ghost predicate Valid()
      reads heap, allocator.driver
    {
      heap.Valid() && allocator.driver.Valid()
    }

    /** my_malloc.  A pointer is returned exactly if no error is left, the callback accepts, the heap has a
        cell for every chunk, and the aligned chunk size is not 0.  It is the start of a range that was not
        reserved before, the chunks are resident there, and the tuple given to Python names the range, the
        cells and the sizes.  For every ending, the calls made, the error code and what is left behind
        follow from the circumstances and from what the driver answered. */
    method MyMalloc(size: int, device: int, env: EnvValue, callback: Callback)
      returns (result: MallocResult, handle: PyObject, cells: seq<HandleCell>, ghost t: Answers)
      requires Valid()
      modifies allocator`errorCode, allocator.driver, heap
      ensures Valid()
      ensures var q := Request(old(allocator.errorCode), size, env, |old(heap.free)|, callback); var driver := allocator.driver;
        && result == ResultOf(q, t) && allocator.errorCode == CodeAfter(q, t)
        && Bounded(t.mapping, |cells|) && (Reached(q, t) ==> |cells| == |PlanOf(q, t)|)
        && driver.log == MallocLog(old(driver.log), q, t, Handles(cells))
        && (EndOf(q, t) != NothingReserved ==> t.granularity > 0 && t.address !in old(driver.reserved))
        && driver.reserved == ReservedAfter(q, t, old(driver.reserved))
        && DeviceAfter(q, t, old(driver.created), old(driver.mapped), driver.created, driver.mapped, Handles(cells))
        && HeapAfter(q, t, old(heap.at), old(heap.free), heap.at, cells)
        && (Reached(q, t) ==> HandleFor(q, t, device, old(heap.free), handle))
      ensures var q := Request(old(allocator.errorCode), size, env, |old(heap.free)|, callback);
        && (result == DividedByZero <==>
              allocator.errorCode == 0 && 0 < t.granularity && AlignUp(GetMemcreateChunkSize(env), t.granularity) == 0)
        && (result.Pointer? <==>
              allocator.errorCode == 0 && callback == Accepts && result != DividedByZero && |PlanOf(q, t)| <= |old(heap.free)|)
      ensures result.Pointer? ==>
        var q := Request(old(allocator.errorCode), size, env, |old(heap.free)|, callback); var driver := allocator.driver;
        && result.address !in old(driver.reserved) && result.address in driver.reserved && |cells| == |PlanOf(q, t)|
        && Resident(old(driver.created), old(driver.mapped), driver.created, driver.mapped, result.address, PlanOf(q, t), Handles(cells))
        && NamesAllocation(handle, device, result.address, driver.reserved[result.address], cells, heap.at, driver.created)
    {
      hide ResultOf, CodeAfter, EndOf, MallocLog, ReservedAfter, DeviceAfter, HeapAfter, HandleFor, PlanOf, ChunkOf, AlignUp,
        GetMemcreateChunkSize, Resident, NamesAllocation, Heap.Valid, Bounded, Reached;
      ghost var q := Request(allocator.errorCode, size, env, |heap.free|, callback);
      ghost var reserved, created, mapped, at, free := allocator.driver.reserved, allocator.driver.created, allocator.driver.mapped, heap.at, heap.free;
      result, handle, cells, t := RunMalloc(size, device, env, callback);
      EndingMeans(q, t);
      if result.Pointer? {
        PointerMeans(q, t, device, reserved, created, mapped, at, free, handle, cells, allocator.driver, heap);
      }
    }

    /** my_malloc, step by step. */
    method RunMalloc(size: int, device: int, env: EnvValue, callback: Callback)
      returns (result: MallocResult, handle: PyObject, cells: seq<HandleCell>, ghost t: Answers)
      requires Valid()
      modifies allocator`errorCode, allocator.driver, heap
      ensures Valid()
      ensures var q := Request(old(allocator.errorCode), size, env, |old(heap.free)|, callback); var driver := allocator.driver;
        && result == ResultOf(q, t) && allocator.errorCode == CodeAfter(q, t)
        && Bounded(t.mapping, |cells|) && (Reached(q, t) ==> |cells| == |PlanOf(q, t)|)
        && driver.log == MallocLog(old(driver.log), q, t, Handles(cells))
        && (EndOf(q, t) != NothingReserved ==> t.granularity > 0 && t.address !in old(driver.reserved))
        && driver.reserved == ReservedAfter(q, t, old(driver.reserved))
        && DeviceAfter(q, t, old(driver.created), old(driver.mapped), driver.created, driver.mapped, Handles(cells))
        && HeapAfter(q, t, old(heap.at), old(heap.free), heap.at, cells)
        && (Reached(q, t) ==> HandleFor(q, t, device, old(heap.free), handle))
    {
      hide AlignUp, U64, ChunkSizes, GetMemcreateChunkSize, PlannedFor, Resident, LogAfter, Complete, HoldsFirst, Undone, FirstError,
        ErrorOf, InC, Encoded, AllU64, CellsAt, Distinct, Heap.Valid, DeviceAfter, HeapAfter, HandleFor, ReservedAfter,
        MallocLog, CodeAfter;
      var driver := allocator.driver;
      FreeAddresses(heap);
      ghost var q := Request(allocator.errorCode, size, env, |heap.free|, callback);
      ghost var log, reserved, created, mapped, at, free := driver.log, driver.reserved, driver.created, driver.mapped, heap.at, heap.free;
      cells, handle := [], PyOther;
      ghost var none := Statuses([], [], [], [], []);
      var status, granularity := driver.MemGetAllocationGranularity();
      t := Answers(granularity, status, 0, 0, none, 0);
      if status != 0 {
        allocator.errorCode := status;
      }
      if allocator.errorCode != 0 {
        NothingMapped(q, t, log, reserved, created, mapped, at, free, Handles(cells), cells);
        return Null, handle, cells, t;
      }
      var alignedSize := AlignUp(U64(size), granularity);
      var dMem;
      status, dMem := driver.MemAddressReserve(alignedSize);
      t := Answers(granularity, 0, dMem, status, none, 0);
      if status != 0 {
        allocator.errorCode := status;
        NothingMapped(q, t, log, reserved, created, mapped, at, free, Handles(cells), cells);
        return Null, handle, cells, t;
      }
      var alignedChunkSize := AlignUp(GetMemcreateChunkSize(env), granularity);
      AlignUpFits(GetMemcreateChunkSize(env), granularity);
      if alignedChunkSize == 0 {
        NothingMapped(q, t, log, reserved, created, mapped, at, free, Handles(cells), cells);
        return DividedByZero, handle, cells, t;
      }
      var planned := FillChunkSizes(alignedSize, alignedChunkSize);
      var chunkSizes := planned[..];
      assert chunkSizes == PlanOf(q, t);
      var told, newCells, addresses;
      told, newCells, addresses, handle := TellPython(device, alignedSize, dMem, chunkSizes, callback);
      if !told {
        NothingMapped(q, t, log, reserved, created, mapped, at, free, Handles(cells), cells);
        if |chunkSizes| <= |free| {
          CellsStay(q, t, at, free, heap.at, cells);
        }
        return Null, handle, cells, t;
      }
      PlanInC(device, q, t, addresses);
      cells := newCells;
      assert forall i :: 0 <= i < |cells| ==> cells[i] in cells && fresh(cells[i]);
      PlanIs(size, env, granularity, dMem, chunkSizes);
      ghost var mapping, freeStatus;
      mapping, freeStatus := MapReserved(dMem, alignedSize, cells, addresses, chunkSizes, at);
      t := Answers(granularity, 0, dMem, 0, mapping, freeStatus);
      MappingTried(q, t, log, reserved, created, mapped, driver.created, driver.mapped, at, free, heap.at, cells, Handles(cells), device, handle);
      if allocator.errorCode != 0 {
        return Null, handle, cells, t;
      }
      return Pointer(dMem), handle, cells, t;
    }

    /** The middle of my_malloc: a cell for every chunk, and the tuple for the callback.  When the heap
        suffices but the callback does not accept, the cells stay allocated. */
    method TellPython(device: int, alignedSize: int, dMem: int, chunkSizes: seq<int>, callback: Callback)
      returns (told: bool, cells: seq<HandleCell>, addresses: seq<int>, handle: PyObject)
      requires heap.Valid()
      modifies heap
      ensures heap.Valid()
      ensures told <==> |chunkSizes| <= |old(heap.free)| && callback == Accepts
      ensures |chunkSizes| <= |old(heap.free)| ==>
        HoldsFirst(heap.at, old(heap.at), old(heap.free)[..|chunkSizes|], |chunkSizes|)
      ensures |chunkSizes| > |old(heap.free)| ==> heap.at == old(heap.at)
      ensures told ==> |cells| == |chunkSizes| && Distinct(cells) && CellsAt(heap.at, addresses, cells)
      ensures told ==> addresses == old(heap.free)[..|chunkSizes|]
                       && handle == Encoded(Allocation(U64(device), alignedSize, dMem, addresses, chunkSizes))
      ensures forall i :: 0 <= i < |cells| ==> fresh(cells[i])
    {
      hide HoldsFirst, CellsAt, Encoded, U64, Distinct, Heap.Valid;
      handle := PyOther;
      told, cells, addresses := AllocateCells(heap, |chunkSizes|);
      assert forall i :: 0 <= i < |cells| ==> cells[i] in cells;
      if !told || callback == Missing {
        return false, cells, addresses, handle;
      }
      handle := CreateTupleFromCMixed(Allocation(U64(device), alignedSize, dMem, addresses, chunkSizes));
      return callback == Accepts, cells, addresses, handle;
    }

    /** The end of my_malloc: map the chunks, or give the address range and the cells back. */
    method MapReserved(dMem: int, alignedSize: int, cells: seq<HandleCell>, addresses: seq<int>, chunkSizes: seq<int>,
                       ghost base: map<int, HandleCell>)
      returns (ghost mapping: Statuses, ghost freeStatus: int)
      requires Valid() && allocator.errorCode == 0
      requires |cells| == |chunkSizes| == |addresses| && Distinct(cells) && HoldsFirst(heap.at, base, addresses, |addresses|)
      modifies allocator`errorCode, allocator.driver, heap, cells
      ensures Valid()
      ensures Complete(mapping, |cells|) && Bounded(mapping, |cells|)
      ensures var mapped := LogAfter(old(allocator.driver.log), dMem, alignedSize, chunkSizes, Handles(cells), mapping);
        allocator.driver.log == if ErrorOf(mapping) == 0 then mapped else mapped + [FreeAddress(dMem, alignedSize, freeStatus)]
      ensures allocator.errorCode == if ErrorOf(mapping) != 0 && freeStatus != 0 then freeStatus else ErrorOf(mapping)
      ensures FirstError(mapping.creates) == FirstError(mapping.maps) == 0 ==>
        Resident(old(allocator.driver.created), old(allocator.driver.mapped), allocator.driver.created, allocator.driver.mapped,
                 dMem, chunkSizes, Handles(cells))
      ensures !(FirstError(mapping.creates) == FirstError(mapping.maps) == 0) ==>
        (Undone(mapping) <==> allocator.driver.created == old(allocator.driver.created)
                              && allocator.driver.mapped == old(allocator.driver.mapped))
      ensures allocator.driver.reserved ==
        if ErrorOf(mapping) != 0 && freeStatus == 0 then old(allocator.driver.reserved) - {dMem} else old(allocator.driver.reserved)
      ensures heap.at == if ErrorOf(mapping) == 0 then old(heap.at) else base
    {
      hide Resident, LogAfter, Complete, HoldsFirst, Undone, FirstError, ErrorOf, Distinct, Heap.Valid;
      mapping := allocator.CreateAndMap(dMem, alignedSize, cells, chunkSizes);
      freeStatus := 0;
      if allocator.errorCode != 0 {
        var status := allocator.driver.MemAddressFree(dMem, alignedSize);
        freeStatus := status;
        if status != 0 {
          allocator.errorCode := status;
        }
        FreeCells(heap, addresses, |addresses|, base);
      }
    }

    /** python_unmap_and_release: refuse malformed arguments without touching anything; otherwise unmap
        and release what they name, report any error, also one left by an earlier call, and clear it. */
    method PythonUnmapAndRelease(args: PyObject, ghost created0: map<Handle, int>, ghost mapped0: map<int, Mapping>)
      returns (r: PyReturn, ghost a: Allocation, ghost unmaps: seq<int>, ghost releases: seq<int>)
      requires Valid()
      requires forall b :: ParsesTo(args, b) ==> Points(heap.at, b)
      modifies allocator`errorCode, allocator.driver`created, allocator.driver`mapped, allocator.driver`log
      ensures Valid()
      ensures r.Refused? <==> !WellFormedArgs(args)
      ensures r.Refused? ==> unchanged(allocator, allocator.driver)
      ensures !r.Refused? ==> ParsesTo(args, a) && Points(heap.at, a) && |unmaps| == |releases| == |a.cells| && allocator.errorCode == 0
      ensures !r.Refused? ==> (r == RuntimeError <==> old(allocator.errorCode) != 0 || FirstError(unmaps + releases) != 0)
      ensures !r.Refused? ==> var handles := HandlesAt(heap.at, a.cells); var driver := allocator.driver;
        && driver.log == old(driver.log) + UnmapCalls(a.dMem, a.sizes, unmaps) + ReleaseCalls(handles, releases)
        && (Resident(created0, mapped0, old(driver.created), old(driver.mapped), a.dMem, a.sizes, handles) ==>
              (FirstError(unmaps + releases) == 0 <==> driver.created == created0 && driver.mapped == mapped0))
    {
      hide WellFormedArgs, ParsesTo, FirstError, Resident, UnmapCalls, ReleaseCalls;
      a, unmaps, releases := Allocation(0, 0, 0, [], []), [], [];
      var parsed := ParseArgs(args);
      if parsed.Raised? {
        return Refused(parsed.error), a, unmaps, releases;
      }
      a := parsed.allocation;
      assert Points(heap.at, a);
      var cells := CellsOf(heap.at, parsed.allocation.cells);
      unmaps, releases := allocator.UnmapAndRelease(parsed.allocation.dMem, cells, parsed.allocation.sizes, created0, mapped0);
      if allocator.errorCode != 0 {
        allocator.errorCode := 0;
        return RuntimeError, a, unmaps, releases;
      }
      return Returned, a, unmaps, releases;
    }

    /** python_create_and_map, for arguments whose list, if they get that far, holds pairs of C values. */
    method PythonCreateAndMap(args: PyObject) returns (r: PyReturn, ghost a: Allocation, ghost s: Statuses)
      requires Valid()
      requires HeadParses(args) ==> WellFormedArgs(args)
      requires forall b :: ParsesTo(args, b) ==> Points(heap.at, b) && Distinct(b.cells)
      modifies allocator`errorCode, allocator.driver`created, allocator.driver`mapped, allocator.driver`nextHandle,
        allocator.driver`log, heap.at.Values
      ensures Valid()
      ensures r.Refused? <==> !WellFormedArgs(args)
      ensures r.Refused? ==> unchanged(allocator, allocator.driver, heap.at.Values)
      ensures !r.Refused? ==> ParsesTo(args, a) && Points(heap.at, a) && Bounded(s, |a.cells|) && allocator.errorCode == 0
      ensures !r.Refused? ==> (r == RuntimeError <==> old(allocator.errorCode) != 0 || ErrorOf(s) != 0)
      ensures !r.Refused? && old(allocator.errorCode) == 0 ==> Complete(s, |a.cells|)
      ensures !r.Refused? ==> var handles := HandlesAt(heap.at, a.cells); var driver := allocator.driver;
        && driver.log == LogAfter(old(driver.log), a.dMem, a.size, a.sizes, handles, s)
        && (old(allocator.errorCode) == 0 && FirstError(s.creates) == FirstError(s.maps) == 0 ==>
              Resident(old(driver.created), old(driver.mapped), driver.created, driver.mapped, a.dMem, a.sizes, handles))
        && (old(allocator.errorCode) == 0 && !(FirstError(s.creates) == FirstError(s.maps) == 0) ==>
              (Undone(s) <==> driver.created == old(driver.created) && driver.mapped == old(driver.mapped)))
        && (old(allocator.errorCode) != 0 && |a.cells| > 0 ==>
              && |s.creates| == 1 && s.maps == s.unmaps == s.releases == s.access == []
              && driver.mapped == old(driver.mapped)
              && Leaked(old(driver.created), driver.created, a.sizes[0], handles[0], s.creates[0]))
      ensures !r.Refused? ==>
        forall c :: c in heap.at.Values && c !in CellsOf(heap.at, a.cells) ==> c.handle == old(c.handle)
    {
      hide WellFormedArgs, ParsesTo, FirstError, Resident, LogAfter, Complete, ErrorOf, Undone, Leaked;
      a, s := Allocation(0, 0, 0, [], []), Statuses([], [], [], [], []);
      var parsed := ParseArgs(args);
      if parsed.Raised? {
        return Refused(parsed.error), a, s;
      }
      a := parsed.allocation;
      assert Points(heap.at, a);
      var cells := CellsOf(heap.at, parsed.allocation.cells);
      DistinctCells(heap, a.cells);
      s := allocator.CreateAndMap(parsed.allocation.dMem, parsed.allocation.size, cells, parsed.allocation.sizes);
      ErrorOfParts(s);
      if allocator.errorCode != 0 {
        allocator.errorCode := 0;
        return RuntimeError, a, s;
      }
      return Returned, a, s;
    }
  }

  lemma OnlyItself(handle: PyObject, a: Allocation)
    requires InC(a) && handle == Encoded(a)
    ensures WellFormedArgs(handle) && forall b :: ParsesTo(handle, b) <==> b == a
  {
    forall b ensures ParsesTo(handle, b) <==> b == a {
      RoundTrip(a, b);
    }
    RoundTrip(a, a);
  }

  /** The part of the arguments before the list is in order. */
  predicate HeadParses(o: PyObject) {
    o.PyTuple? && |o.items| == 4 && o.items[0].PyInt? && o.items[1].PyInt? && o.items[2].PyInt?
  }

  lemma DistinctCells(heap: Heap, addresses: seq<int>)
    requires heap.Valid() && Distinct(addresses) && forall i :: 0 <= i < |addresses| ==> addresses[i] in heap.at
    ensures Distinct(CellsOf(heap.at, addresses))
    ensures forall c :: c in CellsOf(heap.at, addresses) ==> c in heap.at.Values
  {
  }

  /** After a successful my_malloc the tuple Python holds, and what it finds on the heap, are all that
      sleeping and waking up ask for. */
  lemma ReadyToSleep(q: Request, t: Answers, device: int, at0: map<int, HandleCell>, free0: seq<int>,
                     at: map<int, HandleCell>, cells: seq<HandleCell>, handle: PyObject)
    requires EndOf(q, t) == Mapped && HeapAfter(q, t, at0, free0, at, cells) && HandleFor(q, t, device, free0, handle)
    ensures var a := AllocationOf(q, t, device, free0);
      && InC(a) && handle == Encoded(a) && Points(at, a) && Distinct(a.cells) && CellsOf(at, a.cells) == cells
      && a.dMem == t.address && a.sizes == PlanOf(q, t)
  {
    hide PlanOf, InC, Encoded, EndOf, AlignedSize;
  }

  /** The list item is a pair of the cell's address and the size created for its handle. */
  ghost predicate NamesChunk(item: PyObject, cell: HandleCell, at: map<int, HandleCell>, created: map<Handle, int>)
    reads cell
  {
    && item.PyTuple? && |item.items| == 2 && item.items[0].PyInt? && item.items[1].PyInt?
    && item.items[0].value in at && at[item.items[0].value] == cell
    && cell.handle in created && created[cell.handle] == item.items[1].value
  }

  /** The tuple has the device, the size and the start of the range, and the chunks, in these places. */
  ghost predicate NamesAllocation(handle: PyObject, device: int, address: int, size: int, cells: seq<HandleCell>, at: map<int, HandleCell>,
                                  created: map<Handle, int>)
    reads cells
  {
    && handle.PyTuple? && |handle.items| == 4
    && handle.items[0] == PyInt(device % TWO_64) && handle.items[1] == PyInt(size) && handle.items[2] == PyInt(address)
    && handle.items[3].PyList? && |handle.items[3].elements| == |cells|
    && forall i :: 0 <= i < |cells| ==> NamesChunk(handle.items[3].elements[i], cells[i], at, created)
  }

  /** What the ways of ending mean for the error code and the callback. */
  lemma EndingMeans(q: Request, t: Answers)
    requires EndOf(q, t) != NothingReserved ==> t.granularity > 0
    ensures ResultOf(q, t) == DividedByZero <==>
      CodeAfter(q, t) == 0 && 0 < t.granularity && AlignUp(GetMemcreateChunkSize(q.env), t.granularity) == 0
    ensures ResultOf(q, t).Pointer? <==>
      CodeAfter(q, t) == 0 && q.callback == Accepts && ResultOf(q, t) != DividedByZero && |PlanOf(q, t)| <= q.freeCells
    ensures ResultOf(q, t).Pointer? <==> EndOf(q, t) == Mapped
    ensures ResultOf(q, t).Pointer? ==> ResultOf(q, t).address == t.address
    ensures EndOf(q, t) == Mapped ==> Reached(q, t)
  {
    hide AlignUp, GetMemcreateChunkSize, PlanOf, ErrorOf;
  }

  /** The error code is that of the last checked call that failed, or the one left by earlier calls. */
  lemma CodeExactly(q: Request, t: Answers)
    ensures t.granularityStatus != 0 ==> CodeAfter(q, t) == t.granularityStatus
    ensures t.granularityStatus == 0 && q.code != 0 ==> CodeAfter(q, t) == q.code
    ensures t.granularityStatus == 0 && q.code == 0 && t.reserveStatus != 0 ==> CodeAfter(q, t) == t.reserveStatus
    ensures Reached(q, t) && ErrorOf(t.mapping) == 0 ==> CodeAfter(q, t) == 0
    ensures Reached(q, t) && ErrorOf(t.mapping) != 0 ==>
      CodeAfter(q, t) == if t.freeStatus != 0 then t.freeStatus else ErrorOf(t.mapping)
  {
    hide PlanOf, ErrorOf, ChunkOf;
  }

  /** The range that is reserved is the one made accessible, and the one given back. */
  lemma MallocCallsName(log: seq<Call>, q: Request, t: Answers, handles: seq<Handle>, c: Call)
    requires Reached(q, t) ==> Bounded(t.mapping, |PlanOf(q, t)|) && |handles| == |PlanOf(q, t)|
    requires c in MallocLog(log, q, t, handles) && c !in log
    ensures c.Reserve? || c.SetAccess? || c.FreeAddress? ==> c.address == t.address && c.size == AlignedSize(q, t)
  {
    hide PlanOf, AlignedSize, LogAfter;
    var reserved := LogToReservation(log, q, t);
    if Reached(q, t) && c !in reserved && c in LogAfter(reserved, t.address, AlignedSize(q, t), PlanOf(q, t), handles, t.mapping) {
      CallsName(reserved, t.address, AlignedSize(q, t), PlanOf(q, t), handles, t.mapping, c);
    }
  }

  lemma PointerMeans(q: Request, t: Answers, device: int, reserved: map<int, int>, created: map<Handle, int>, mapped: map<int, Mapping>,
                     at: map<int, HandleCell>, free: seq<int>, handle: PyObject, cells: seq<HandleCell>, driver: Driver, heap: Heap)
    requires EndOf(q, t) == Mapped && t.address !in reserved && driver.reserved == ReservedAfter(q, t, reserved)
    requires DeviceAfter(q, t, created, mapped, driver.created, driver.mapped, Handles(cells))
    requires HeapAfter(q, t, at, free, heap.at, cells) && HandleFor(q, t, device, free, handle)
    ensures t.address in driver.reserved && |cells| == |PlanOf(q, t)|
    ensures Resident(created, mapped, driver.created, driver.mapped, t.address, PlanOf(q, t), Handles(cells))
    ensures NamesAllocation(handle, device, t.address, driver.reserved[t.address], cells, heap.at, driver.created)
  {
    hide PlanOf, AlignedSize, ErrorOf, Complete, HoldsFirst, InC, Encoded, PlannedFor;
    ErrorOfParts(t.mapping);
    var a := AllocationOf(q, t, device, free);
    EncodedPlaces(a);
    forall i | 0 <= i < |cells| ensures NamesChunk(handle.items[3].elements[i], cells[i], heap.at, driver.created) {
      assert handle.items[3].elements[i] == PyTuple([PyInt(a.cells[i]), PyInt(a.sizes[i])]);
      assert Handles(cells)[i] == cells[i].handle;
    }
  }

  lemma FreeAddresses(heap: Heap)
    requires heap.Valid()
    ensures forall n: nat :: n <= |heap.free| ==> AllU64(heap.free[..n])
  {
    forall n: nat, i | n <= |heap.free| && 0 <= i < n ensures IsU64(heap.free[..n][i]) {
      assert heap.free[i] in heap.free;
    }
  }

  /** Everything in the tuple is a C value. */
  lemma PlanInC(device: int, q: Request, t: Answers, addresses: seq<int>)
    requires 0 <= t.address < TWO_64 && |addresses| == |PlanOf(q, t)| && AllU64(addresses)
    ensures InC(Allocation(U64(device), AlignedSize(q, t), t.address, addresses, PlanOf(q, t)))
  {
    if t.granularity > 0 {
      AlignUpFits(U64(q.size), t.granularity);
      AlignUpFits(GetMemcreateChunkSize(q.env), t.granularity);
    }
  }
}
