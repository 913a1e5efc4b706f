/** What the allocator runs on: a driver whose every call may fail, and the C heap. */
module CumemDriver {
  import opened Sequences
  import opened ChunkPlan

  type Handle = nat

  datatype Mapping = Mapping(size: int, handle: Handle)

  /** A driver call with its arguments and the status it returned (0 is success). */
  datatype Call =
    | Create(size: int, status: int)
    | Release(handle: Handle, status: int)
    | Map(address: int, size: int, handle: Handle, status: int)
    | Unmap(address: int, size: int, status: int)
    | SetAccess(address: int, size: int, status: int)
    | GetGranularity(granularity: int, status: int)
    | Reserve(address: int, size: int, status: int)
    | FreeAddress(address: int, size: int, status: int)

  /** The device: memory handles created, ranges mapped to them, and address ranges reserved.  Every call may fail for
      reasons of its own; a failing call changes nothing. */
  class Driver {
    var created: map<Handle, int>
    var mapped: map<int, Mapping>
    var reserved: map<int, int>
    var nextHandle: nat
    ghost var log: seq<Call>

    constructor ()
      ensures Valid() && created == map[] && mapped == map[] && reserved == map[] && log == []
    {
      created, mapped, reserved, nextHandle, log := map[], map[], map[], 0, [];
    }

    ghost predicate Valid()
      reads `created, `nextHandle
    {
      forall h :: h in created ==> h < nextHandle
    }

    method MemCreate(size: int) returns (status: int, handle: Handle)
      requires Valid()
      modifies `created, `nextHandle, `log
      ensures Valid()
      ensures status == 0 ==> handle !in old(created) && created == old(created)[handle := size]
      ensures status != 0 ==> created == old(created)
      ensures log == old(log) + [Create(size, status)]
    {
      status := *;
      handle := nextHandle;
      if status == 0 {
        created := created[handle := size];
        nextHandle := nextHandle + 1;
      }
      log := log + [Create(size, status)];
    }

    method MemRelease(handle: Handle) returns (status: int)
      requires Valid()
      modifies `created, `log
      ensures Valid()
      ensures status == 0 ==> handle in old(created) && created == old(created) - {handle}
      ensures status != 0 ==> created == old(created)
      ensures log == old(log) + [Release(handle, status)]
    {
      status := *;
      if handle !in created && status == 0 {
        status := 1;
      }
      if status == 0 {
        created := created - {handle};
      }
      log := log + [Release(handle, status)];
    }

    method MemMap(address: int, size: int, handle: Handle) returns (status: int)
      requires Valid()
      modifies `mapped, `log
      ensures Valid()
      ensures status == 0 ==> handle in created && address !in old(mapped)
                              && mapped == old(mapped)[address := Mapping(size, handle)]
      ensures status != 0 ==> mapped == old(mapped)
      ensures log == old(log) + [Map(address, size, handle, status)]
    {
      status := *;
      if (address in mapped || handle !in created) && status == 0 {
        status := 1;
      }
      if status == 0 {
        mapped := mapped[address := Mapping(size, handle)];
      }
      log := log + [Map(address, size, handle, status)];
    }

    method MemUnmap(address: int, size: int) returns (status: int)
      requires Valid()
      modifies `mapped, `log
      ensures Valid()
      ensures status == 0 ==> address in old(mapped) && old(mapped)[address].size == size && mapped == old(mapped) - {address}
      ensures status != 0 ==> mapped == old(mapped)
      ensures log == old(log) + [Unmap(address, size, status)]
    {
      status := *;
      if (address !in mapped || mapped[address].size != size) && status == 0 {
        status := 1;
      }
      if status == 0 {
        mapped := mapped - {address};
      }
      log := log + [Unmap(address, size, status)];
    }

    method MemSetAccess(address: int, size: int) returns (status: int)
      modifies `log
      ensures log == old(log) + [SetAccess(address, size, status)]
    {
      status := *;
      log := log + [SetAccess(address, size, status)];
    }

    /** The allocation granularity of the device. */
    method MemGetAllocationGranularity() returns (status: int, granularity: int)
      modifies `log
      ensures status == 0 ==> 0 < granularity < TWO_63
      ensures log == old(log) + [GetGranularity(granularity, status)]
    {
      status, granularity := *, *;
      if status == 0 && !(0 < granularity < TWO_63) {
        status := 1;
      }
      log := log + [GetGranularity(granularity, status)];
    }

    method MemAddressReserve(size: int) returns (status: int, address: int)
      modifies `reserved, `log
      ensures status == 0 ==> address !in old(reserved) && reserved == old(reserved)[address := size]
                              && 0 <= address < TWO_64 && address + size <= TWO_64
      ensures status != 0 ==> reserved == old(reserved)
      ensures log == old(log) + [Reserve(address, size, status)]
    {
      status, address := *, *;
      if status == 0 && (address in reserved || !(0 <= address < TWO_64) || address + size > TWO_64) {
        status := 1;
      }
      if status == 0 {
        reserved := reserved[address := size];
      }
      log := log + [Reserve(address, size, status)];
    }

    method MemAddressFree(address: int, size: int) returns (status: int)
      modifies `reserved, `log
      ensures status == 0 ==> address in old(reserved) && reserved == old(reserved) - {address}
      ensures status != 0 ==> reserved == old(reserved)
      ensures log == old(log) + [FreeAddress(address, size, status)]
    {
      status := *;
      if status == 0 && (address !in reserved || reserved[address] != size) {
        status := 1;
      }
      if status == 0 {
        reserved := reserved - {address};
      }
      log := log + [FreeAddress(address, size, status)];
    }
  }

  /** The heap cell a chunk's handle lives in; the Python side keeps its address between sleeps. */
  class HandleCell {
    var handle: Handle

    constructor ()
    {
      handle := 0;
    }
  }

  /** The part of the C heap that holds handle cells: the cells in use by address, and the
      addresses malloc can still hand out, in that order. */
  class Heap {
    var at: map<int, HandleCell>
    var free: seq<int>

    constructor (free: seq<int>)
      requires Distinct(free) && forall a :: a in free ==> 0 <= a < TWO_64
      ensures Valid() && at == map[] && this.free == free
    {
      this.at, this.free := map[], free;
    }

    ghost predicate Valid()
      reads this
    {
      && Distinct(free)
      && (forall a :: a in free ==> 0 <= a < TWO_64 && a !in at)
      && (forall a :: a in at ==> 0 <= a < TWO_64)
      && (forall a, b :: a in at && b in at && a != b ==> at[a] != at[b])
    }

    method Malloc() returns (ok: bool, address: int, cell: HandleCell)
      requires Valid()
      modifies this
      ensures Valid() && fresh(cell)
      ensures ok <==> old(free) != []
      ensures ok ==> address == old(free)[0] && free == old(free)[1..] && at == old(at)[address := cell]
      ensures !ok ==> at == old(at) && free == old(free)
    {
      cell := new HandleCell();
      if free == [] {
        return false, 0, cell;
      }
      address := free[0];
      assert address in free;
      ghost var rest := free[1..];
      forall a | a in free[1..] ensures a in free && a != address {
        var i :| 0 <= i < |free| - 1 && free[1..][i] == a;
        assert free[i + 1] == a;
      }
      assert forall i, j :: 0 <= i < j < |rest| ==> rest[i] == free[i + 1] && rest[j] == free[j + 1];
      at, free := at[address := cell], free[1..];
      return true, address, cell;
    }

    method Free(address: int)
      requires Valid() && address in at
      modifies this
      ensures Valid() && at == old(at) - {address}
    {
      at, free := at - {address}, free + [address];
    }
  }
}
