/** Mapping and releasing the chunks of an allocation.  Every method states which driver calls it
    made, in order, and what follows from their statuses. */
module CumemAllocator {
  import opened Sequences
  import opened ChunkPlan
  import opened CumemDriver
  import opened PyArgs

  function Address(dMem: int, sizes: seq<int>, i: nat): int
    requires i <= |sizes|
  {
    U64(dMem + U64(Offset(sizes, i)))
  }

  ghost function Addresses(dMem: int, sizes: seq<int>): seq<int> {
    seq(|sizes|, i requires 0 <= i < |sizes| => Address(dMem, sizes, i))
  }

  ghost function Handles(cells: seq<HandleCell>): seq<Handle>
    reads cells
  {
    seq(|cells|, i requires 0 <= i < |cells| reads cells => cells[i].handle)
  }

  /** The chunks lie one behind the other without wrapping around. */
  ghost predicate Fits(dMem: int, sizes: seq<int>) {
    && 0 <= dMem && dMem + Total(sizes) <= TWO_64
    && forall i :: 0 <= i < |sizes| ==> 0 < sizes[i]
  }

  lemma AddressesAre(dMem: int, sizes: seq<int>, i: nat)
    requires Fits(dMem, sizes) && i < |sizes|
    ensures Address(dMem, sizes, i) == dMem + Offset(sizes, i) < TWO_64
  {
    hide U64;
    OffsetsGrow(sizes, 0, i);
    OffsetsGrow(sizes, i, |sizes|);
    U64Small(Offset(sizes, i));
    U64Small(dMem + Offset(sizes, i));
  }

  /** Each byte of the reservation belongs to exactly one mapped chunk, and no chunk leaves it. */
  lemma ChunksTileReservation(dMem: int, sizes: seq<int>, x: int)
    requires Fits(dMem, sizes)
    ensures dMem <= x < dMem + Total(sizes) <==> exists i :: 0 <= i < |sizes| && InChunk(dMem, sizes, i, x)
    ensures forall i, j :: 0 <= i < j < |sizes| ==> !(InChunk(dMem, sizes, i, x) && InChunk(dMem, sizes, j, x))
  {
    hide Offset, Address;
    forall i: nat | i < |sizes|
      ensures Address(dMem, sizes, i) == dMem + Offset(sizes, i)
    {
      AddressesAre(dMem, sizes, i);
    }
    forall i: nat, j: nat | i <= j < |sizes|
      ensures 0 <= Offset(sizes, i) && Offset(sizes, j) + sizes[j] <= Total(sizes)
      ensures i < j ==> Offset(sizes, i) + sizes[i] <= Offset(sizes, j)
    {
      RangesDisjoint(sizes, i, j);
    }
    if dMem <= x < dMem + Total(sizes) {
      EveryByteCovered(sizes, |sizes|, x - dMem);
      var i :| 0 <= i < |sizes| && Offset(sizes, i) <= x - dMem < Offset(sizes, i) + sizes[i];
      assert InChunk(dMem, sizes, i, x);
    }
  }

  predicate InChunk(dMem: int, sizes: seq<int>, i: nat, x: int)
    requires i < |sizes|
  {
    Address(dMem, sizes, i) <= x < Address(dMem, sizes, i) + sizes[i]
  }

  // ---------------------------------------------------------------- statuses

  /** The first status that is not success, or success. */
  function FirstError(statuses: seq<int>): int {
    if statuses == [] then 0 else
      var e := FirstError(statuses[..|statuses| - 1]);
      if e != 0 then e else statuses[|statuses| - 1]
  }

  lemma NoError()
    ensures FirstError([]) == 0
  {
  }

  lemma ErrorStep(statuses: seq<int>, status: int)
    ensures FirstError(statuses + [status]) == if FirstError(statuses) != 0 then FirstError(statuses) else status
  {
    assert (statuses + [status])[..|statuses|] == statuses;
  }

  lemma {:induction false} ErrorConcat(a: seq<int>, b: seq<int>)
    ensures FirstError(a + b) == if FirstError(a) != 0 then FirstError(a) else FirstError(b)
    decreases |b|
  {
    if b == [] {
      assert a + b == a;
    } else {
      var n := |b| - 1;
      ErrorConcat(a, b[..n]);
      ErrorStep(a + b[..n], b[n]);
      assert a + b == a + b[..n] + [b[n]];
    }
  }

  /** The reported error is that of the first failing call. */
  lemma {:induction false} FirstErrorExactly(statuses: seq<int>)
    ensures FirstError(statuses) == 0 <==> forall i :: 0 <= i < |statuses| ==> statuses[i] == 0
    ensures FirstError(statuses) != 0 ==>
      exists i :: 0 <= i < |statuses| && statuses[i] == FirstError(statuses) && forall k :: 0 <= k < i ==> statuses[k] == 0
    decreases |statuses|
  {
    if statuses != [] {
      var n := |statuses| - 1;
      FirstErrorExactly(statuses[..n]);
      if FirstError(statuses[..n]) != 0 {
        var i :| 0 <= i < n && statuses[..n][i] == FirstError(statuses[..n]) && forall k :: 0 <= k < i ==> statuses[..n][k] == 0;
        assert statuses[i] == FirstError(statuses);
        assert forall k :: 0 <= k < i ==> statuses[k] == statuses[..n][k];
      } else {
        assert forall k :: 0 <= k < n ==> statuses[k] == statuses[..n][k];
      }
    }
  }

  /** Calls made one after the other until one fails, n at most. */
  ghost predicate Attempted(statuses: seq<int>, n: nat) {
    && |statuses| <= n
    && (forall i :: 0 <= i < |statuses| - 1 ==> statuses[i] == 0)
    && (FirstError(statuses) == 0 ==> |statuses| == n)
  }

  /** Statuses of a loop that has gone well so far. */
  ghost predicate AllZero(statuses: seq<int>) {
    forall i :: 0 <= i < |statuses| ==> statuses[i] == 0
  }

  lemma NothingTried()
    ensures AllZero([]) && FirstError([]) == 0
  {
  }

  lemma OneMoreTried(statuses: seq<int>, status: int, n: nat)
    requires AllZero(statuses) && FirstError(statuses) == 0 && |statuses| < n
    ensures FirstError(statuses + [status]) == status
    ensures status == 0 ==> AllZero(statuses + [status])
    ensures status != 0 ==> Attempted(statuses + [status], n)
  {
    hide FirstError;
    ErrorStep(statuses, status);
    assert forall i :: 0 <= i < |statuses| ==> (statuses + [status])[i] == statuses[i];
  }

  lemma AllTried(statuses: seq<int>)
    requires AllZero(statuses)
    ensures Attempted(statuses, |statuses|)
  {
  }

  // ---------------------------------------------------------------- the driver calls of one mapping

  /** The statuses of the calls that create_and_map makes, by kind, in the order of its loops. */
  datatype Statuses = Statuses(creates: seq<int>, maps: seq<int>, unmaps: seq<int>, releases: seq<int>, access: seq<int>)

  /** Which calls are made after which: creation stops at the first failure and releases the handles
      before it, mapping stops at the first failure and undoes everything, and the last call is made
      if nothing failed. */
  ghost predicate Complete(s: Statuses, n: nat) {
    && Attempted(s.creates, n)
    && if FirstError(s.creates) != 0 then
         s.maps == s.unmaps == s.access == [] && |s.releases| == |s.creates| - 1
       else
         && Attempted(s.maps, n)
         && if FirstError(s.maps) != 0 then
              s.access == [] && |s.unmaps| == |s.maps| - 1 && |s.releases| == n
            else
              s.unmaps == s.releases == [] && |s.access| == 1
  }

  /** The status of the first create, map or access call that failed. */
  function ErrorOf(s: Statuses): int {
    FirstError(s.creates + s.maps + s.access)
  }

  lemma ErrorOfParts(s: Statuses)
    ensures ErrorOf(s) == if FirstError(s.creates) != 0 then FirstError(s.creates)
                          else if FirstError(s.maps) != 0 then FirstError(s.maps) else FirstError(s.access)
  {
    ErrorConcat(s.creates + s.maps, s.access);
    ErrorConcat(s.creates, s.maps);
  }

  /** No release or unmap failed. */
  ghost predicate Undone(s: Statuses) {
    FirstError(s.unmaps + s.releases) == 0
  }

  ghost function CreateCalls(sizes: seq<int>, statuses: seq<int>): seq<Call>
    requires |statuses| <= |sizes|
  {
    seq(|statuses|, i requires 0 <= i < |statuses| <= |sizes| => Create(sizes[i], statuses[i]))
  }

  ghost function MapCalls(dMem: int, sizes: seq<int>, handles: seq<Handle>, statuses: seq<int>): seq<Call>
    requires |statuses| <= |sizes| == |handles|
  {
    seq(|statuses|, i requires 0 <= i < |statuses| <= |sizes| == |handles| =>
                      Map(Address(dMem, sizes, i), sizes[i], handles[i], statuses[i]))
  }

  ghost function UnmapCalls(dMem: int, sizes: seq<int>, statuses: seq<int>): seq<Call>
    requires |statuses| <= |sizes|
  {
    seq(|statuses|, i requires 0 <= i < |statuses| <= |sizes| => Unmap(Address(dMem, sizes, i), sizes[i], statuses[i]))
  }

  ghost function ReleaseCalls(handles: seq<Handle>, statuses: seq<int>): seq<Call>
    requires |statuses| <= |handles|
  {
    seq(|statuses|, i requires 0 <= i < |statuses| <= |handles| => Release(handles[i], statuses[i]))
  }

  ghost function AccessCalls(dMem: int, size: int, statuses: seq<int>): seq<Call> {
    seq(|statuses|, i requires 0 <= i < |statuses| => SetAccess(dMem, size, statuses[i]))
  }

  ghost predicate Bounded(s: Statuses, n: nat) {
    |s.creates| <= n && |s.maps| <= n && |s.unmaps| <= n && |s.releases| <= n
  }

  /** The log after these calls. */
  ghost function LogAfter(log: seq<Call>, dMem: int, size: int, sizes: seq<int>, handles: seq<Handle>, s: Statuses): seq<Call>
    requires Bounded(s, |sizes|) && |handles| == |sizes|
  {
    log + CreateCalls(sizes, s.creates) + MapCalls(dMem, sizes, handles, s.maps)
        + UnmapCalls(dMem, sizes, s.unmaps) + ReleaseCalls(handles, s.releases) + AccessCalls(dMem, size, s.access)
  }

  lemma LogOfCreation(log: seq<Call>, dMem: int, size: int, sizes: seq<int>, handles: seq<Handle>, creates: seq<int>, releases: seq<int>)
    requires |creates| <= |sizes| == |handles| && |releases| <= |sizes|
    ensures LogAfter(log, dMem, size, sizes, handles, Statuses(creates, [], [], releases, []))
         == log + CreateCalls(sizes, creates) + ReleaseCalls(handles, releases)
  {
  }

  lemma LogOfMapping(log: seq<Call>, dMem: int, size: int, sizes: seq<int>, handles: seq<Handle>, creates: seq<int>, maps: seq<int>,
                     unmaps: seq<int>, releases: seq<int>)
    requires |handles| == |sizes| && Bounded(Statuses(creates, maps, unmaps, releases, []), |sizes|)
    ensures LogAfter(log, dMem, size, sizes, handles, Statuses(creates, maps, unmaps, releases, []))
         == log + CreateCalls(sizes, creates) + MapCalls(dMem, sizes, handles, maps) + UnmapCalls(dMem, sizes, unmaps) + ReleaseCalls(handles, releases)
  {
  }

  lemma LogOfAccess(log: seq<Call>, dMem: int, size: int, sizes: seq<int>, handles: seq<Handle>, creates: seq<int>, maps: seq<int>, status: int)
    requires |creates| <= |sizes| == |handles| && |maps| <= |sizes|
    ensures LogAfter(log, dMem, size, sizes, handles, Statuses(creates, maps, [], [], [status]))
         == LogAfter(log, dMem, size, sizes, handles, Statuses(creates, maps, [], [], [])) + [SetAccess(dMem, size, status)]
  {
  }

  /** What every call names: creations the chunk sizes, mappings and unmappings the address and size of a
      chunk, releases a handle of a cell, and the access call the whole range. */
  lemma CallsName(log: seq<Call>, dMem: int, size: int, sizes: seq<int>, handles: seq<Handle>, s: Statuses, c: Call)
    requires Bounded(s, |sizes|) && |handles| == |sizes|
    requires c in LogAfter(log, dMem, size, sizes, handles, s) && c !in log
    ensures c.Create? ==> c.size in sizes
    ensures c.Map? ==> exists i :: 0 <= i < |sizes| && c.address == Address(dMem, sizes, i) && c.size == sizes[i] && c.handle == handles[i]
    ensures c.Unmap? ==> exists i :: 0 <= i < |sizes| && c.address == Address(dMem, sizes, i) && c.size == sizes[i]
    ensures c.Release? ==> c.handle in handles
    ensures c.SetAccess? ==> c.address == dMem && c.size == size
    ensures c.Create? || c.Map? || c.Unmap? || c.Release? || c.SetAccess?
  {
    hide Address;
    var parts := CreateCalls(sizes, s.creates) + MapCalls(dMem, sizes, handles, s.maps)
      + UnmapCalls(dMem, sizes, s.unmaps) + ReleaseCalls(handles, s.releases) + AccessCalls(dMem, size, s.access);
    assert LogAfter(log, dMem, size, sizes, handles, s) == log + parts;
    if c in CreateCalls(sizes, s.creates) {
    } else if c in MapCalls(dMem, sizes, handles, s.maps) {
    } else if c in UnmapCalls(dMem, sizes, s.unmaps) {
    } else if c in ReleaseCalls(handles, s.releases) {
    } else {
      assert c in AccessCalls(dMem, size, s.access);
    }
  }

  /** Creations come first, then mappings, unmappings, releases, and the access call. */
  function Rank(c: Call): int {
    match c case Create(_, _) => 0 case Map(_, _, _, _) => 1 case Unmap(_, _, _) => 2 case Release(_, _) => 3 case _ => 4
  }

  lemma CallsInOrder(log: seq<Call>, dMem: int, size: int, sizes: seq<int>, handles: seq<Handle>, s: Statuses, i: nat, j: nat)
    requires Bounded(s, |sizes|) && |handles| == |sizes|
    requires |log| <= i < j < |LogAfter(log, dMem, size, sizes, handles, s)|
    ensures Rank(LogAfter(log, dMem, size, sizes, handles, s)[i]) <= Rank(LogAfter(log, dMem, size, sizes, handles, s)[j])
  {
    hide Address;
  }

  /** Every call that puts a resident allocation away names what is there: the size mapped at the address,
      and a handle that exists. */
  lemma CallsNameResident(base: map<Handle, int>, was: map<int, Mapping>, created: map<Handle, int>, mapped: map<int, Mapping>,
                          dMem: int, sizes: seq<int>, handles: seq<Handle>, unmaps: seq<int>, releases: seq<int>, i: nat)
    requires |unmaps| == |releases| == |sizes| == |handles| && i < |sizes|
    requires Resident(base, was, created, mapped, dMem, sizes, handles)
    ensures var unmap, release := UnmapCalls(dMem, sizes, unmaps)[i], ReleaseCalls(handles, releases)[i];
      && unmap.Unmap? && unmap.address == Address(dMem, sizes, i) && unmap.address in mapped && mapped[unmap.address].size == unmap.size && unmap.status == unmaps[i]
      && release.Release? && release.handle == mapped[unmap.address].handle && release.handle in created && release.status == releases[i]
  {
  }

  lemma NoCalls(log: seq<Call>, dMem: int, sizes: seq<int>, handles: seq<Handle>)
    requires |handles| == |sizes|
    ensures log + CreateCalls(sizes, []) == log + MapCalls(dMem, sizes, handles, []) == log
    ensures log + UnmapCalls(dMem, sizes, []) == log + ReleaseCalls(handles, []) == log
  {
  }

  // ---------------------------------------------------------------- maps that grow and shrink

  ghost predicate Extends<K, V>(base: map<K, V>, m: map<K, V>) {
    forall k :: k in base ==> k in m && m[k] == base[k]
  }

  /** The map is the base plus the first n keys, all of them new and different. */
  ghost predicate HoldsFirst<K, V>(m: map<K, V>, base: map<K, V>, keys: seq<K>, n: nat)
    requires n <= |keys|
  {
    && Extends(base, m)
    && (forall i :: 0 <= i < n ==> keys[i] in m && keys[i] !in base)
    && (forall i, j :: 0 <= i < j < n ==> keys[i] != keys[j])
    && (forall k :: k in m ==> k in base || exists i :: 0 <= i < n && keys[i] == k)
  }

  /** After trying to remove the first j of the n new keys. */
  ghost predicate Removing<K, V>(m: map<K, V>, base: map<K, V>, keys: seq<K>, j: nat, n: nat, undone: bool)
    requires j <= n <= |keys|
  {
    && Extends(base, m)
    && (forall i :: 0 <= i < n ==> keys[i] !in base)
    && (forall i, k :: 0 <= i < k < n ==> keys[i] != keys[k])
    && (forall k :: k in m ==> k in base || exists i :: 0 <= i < n && keys[i] == k)
    && (forall i :: j <= i < n ==> keys[i] in m)
    && (undone <==> forall i :: 0 <= i < j ==> keys[i] !in m)
  }

  lemma RemoveStep<K, V>(m: map<K, V>, base: map<K, V>, keys: seq<K>, j: nat, n: nat, undone: bool, ok: bool)
    requires j < n <= |keys| && Removing(m, base, keys, j, n, undone)
    ensures keys[j] in m
    ensures Removing(if ok then m - {keys[j]} else m, base, keys, j + 1, n, undone && ok)
  {
  }

  lemma RemoveDone<K, V>(m: map<K, V>, base: map<K, V>, keys: seq<K>, n: nat, undone: bool)
    requires n <= |keys| && Removing(m, base, keys, n, n, undone)
    ensures undone <==> m == base
  {
    if undone {
      assert m.Keys == base.Keys;
    }
  }

  lemma NothingRemoved<K, V>(m: map<K, V>, base: map<K, V>, keys: seq<K>, n: nat)
    requires n <= |keys| && HoldsFirst(m, base, keys, n)
    ensures Removing(m, base, keys, 0, n, true)
  {
  }

  lemma NoSizes(created: map<Handle, int>, handles: seq<Handle>, sizes: seq<int>)
    requires |handles| == |sizes|
    ensures SizesRight(created, handles, sizes, 0)
  {
  }

  lemma SizesOneMore(created: map<Handle, int>, handles: seq<Handle>, sizes: seq<int>, n: nat, h: Handle)
    requires n < |handles| == |sizes| && SizesRight(created, handles, sizes, n) && h !in created
    ensures SizesRight(created[h := sizes[n]], handles[n := h], sizes, n + 1)
  {
  }

  lemma HoldsNothing<K, V>(base: map<K, V>, keys: seq<K>)
    ensures HoldsFirst(base, base, keys, 0)
  {
  }

  lemma HoldsOneMore<K, V>(m: map<K, V>, base: map<K, V>, keys: seq<K>, n: nat, k: K, v: V)
    requires n < |keys| && HoldsFirst(m, base, keys, n) && k !in m
    ensures HoldsFirst(m[k := v], base, keys[n := k], n + 1)
  {
    var after := keys[n := k];
    assert forall i :: 0 <= i < n ==> after[i] == keys[i];
    assert after[n] == k;
    forall x | x in m && x !in base ensures exists i :: 0 <= i < n + 1 && after[i] == x {
      var i :| 0 <= i < n && keys[i] == x;
      assert after[i] == x;
    }
  }

  ghost predicate SizesRight(created: map<Handle, int>, handles: seq<Handle>, sizes: seq<int>, n: nat)
    requires n <= |handles| == |sizes|
  {
    forall i :: 0 <= i < n ==> handles[i] in created && created[handles[i]] == sizes[i]
  }

  ghost predicate MappingsRight(mapped: map<int, Mapping>, dMem: int, sizes: seq<int>, handles: seq<Handle>, n: nat)
    requires n <= |handles| == |sizes|
  {
    forall i :: 0 <= i < n ==>
      Address(dMem, sizes, i) in mapped && mapped[Address(dMem, sizes, i)] == Mapping(sizes[i], handles[i])
  }

  /** The allocation is on the device, and nothing else has changed: one new handle of the right
      size per chunk, mapped at the chunk's address. */
  ghost predicate Resident(created0: map<Handle, int>, mapped0: map<int, Mapping>, created: map<Handle, int>, mapped: map<int, Mapping>,
                           dMem: int, sizes: seq<int>, handles: seq<Handle>)
    requires |sizes| == |handles|
  {
    && HoldsFirst(created, created0, handles, |handles|) && SizesRight(created, handles, sizes, |handles|)
    && HoldsFirst(mapped, mapped0, Addresses(dMem, sizes), |sizes|) && MappingsRight(mapped, dMem, sizes, handles, |sizes|)
  }

  lemma ResidentNow(created0: map<Handle, int>, mapped0: map<int, Mapping>, created: map<Handle, int>, mapped: map<int, Mapping>,
                    dMem: int, sizes: seq<int>, handles: seq<Handle>)
    requires |sizes| == |handles|
    requires HoldsFirst(created, created0, handles, |handles|) && SizesRight(created, handles, sizes, |handles|)
    requires HoldsFirst(mapped, mapped0, Addresses(dMem, sizes), |sizes|) && MappingsRight(mapped, dMem, sizes, handles, |sizes|)
    ensures Resident(created0, mapped0, created, mapped, dMem, sizes, handles)
  {
  }

  lemma AddressIs(dMem: int, sizes: seq<int>, i: nat)
    requires i < |sizes|
    ensures Address(dMem, sizes, i) == U64(dMem + U64(Offset(sizes, i)))
  {
  }

  lemma NoMappings(mapped: map<int, Mapping>, dMem: int, sizes: seq<int>, handles: seq<Handle>)
    requires |sizes| == |handles|
    ensures MappingsRight(mapped, dMem, sizes, handles, 0)
  {
  }

  lemma MappingsOneMore(mapped: map<int, Mapping>, dMem: int, sizes: seq<int>, handles: seq<Handle>, n: nat)
    requires n < |handles| == |sizes| && MappingsRight(mapped, dMem, sizes, handles, n)
    requires Address(dMem, sizes, n) !in mapped
    ensures MappingsRight(mapped[Address(dMem, sizes, n) := Mapping(sizes[n], handles[n])], dMem, sizes, handles, n + 1)
  {
  }

  lemma OffsetStep(sizes: seq<int>)
    ensures Offset(sizes, 0) == U64(Offset(sizes, 0)) == 0
    ensures forall j: nat :: j < |sizes| ==> U64(U64(Offset(sizes, j)) + sizes[j]) == U64(Offset(sizes, j + 1))
  {
    hide U64;
    U64Small(0);
    forall j: nat | j < |sizes| ensures U64(U64(Offset(sizes, j)) + sizes[j]) == U64(Offset(sizes, j + 1)) {
      assert Offset(sizes, j + 1) == Offset(sizes, j) + sizes[j];
      U64Sum(Offset(sizes, j), sizes[j]);
    }
  }


  // ---------------------------------------------------------------- create_and_map and unmap_and_release

  /** Release the first n handles, ignoring statuses: all are gone exactly when every call succeeded. */
  method ReleaseFirst(d: Driver, cells: seq<HandleCell>, n: nat, ghost base: map<Handle, int>) returns (ghost statuses: seq<int>)
    requires d.Valid() && n <= |cells|
    requires HoldsFirst(d.created, base, Handles(cells), n)
    modifies d`created, d`log
    ensures d.Valid() && |statuses| == n
    ensures d.log == old(d.log) + ReleaseCalls(Handles(cells), statuses)
    ensures FirstError(statuses) == 0 <==> d.created == base
  {
    hide Removing, HoldsFirst, FirstError;
    ghost var handles := Handles(cells);
    statuses := [];
    NoError();
    NothingRemoved(d.created, base, handles, n);
    for j := 0 to n
      invariant d.Valid() && |statuses| == j
      invariant d.log == old(d.log) + ReleaseCalls(handles, statuses)
      invariant Removing(d.created, base, handles, j, n, FirstError(statuses) == 0)
    {
      ghost var created := d.created;
      var status := d.MemRelease(cells[j].handle);
      assert ReleaseCalls(handles, statuses + [status]) == ReleaseCalls(handles, statuses) + [Release(handles[j], status)];
      RemoveStep(created, base, handles, j, n, FirstError(statuses) == 0, status == 0);
      ErrorStep(statuses, status);
      statuses := statuses + [status];
    }
    RemoveDone(d.created, base, handles, n, FirstError(statuses) == 0);
  }

  /** Unmap the first n chunks, ignoring statuses. */
  method UnmapFirst(d: Driver, dMem: int, chunkSizes: seq<int>, n: nat, ghost base: map<int, Mapping>) returns (ghost statuses: seq<int>)
    requires d.Valid() && n <= |chunkSizes|
    requires HoldsFirst(d.mapped, base, Addresses(dMem, chunkSizes), n)
    modifies d`mapped, d`log
    ensures d.Valid() && |statuses| == n
    ensures d.log == old(d.log) + UnmapCalls(dMem, chunkSizes, statuses)
    ensures FirstError(statuses) == 0 <==> d.mapped == base
  {
    hide Removing, HoldsFirst, Offset, FirstError, U64;
    ghost var addresses := Addresses(dMem, chunkSizes);
    statuses := [];
    NoError();
    NothingRemoved(d.mapped, base, addresses, n);
    OffsetStep(chunkSizes);
    var unmappedSize := 0;
    for j := 0 to n
      invariant d.Valid() && |statuses| == j
      invariant d.log == old(d.log) + UnmapCalls(dMem, chunkSizes, statuses)
      invariant unmappedSize == U64(Offset(chunkSizes, j))
      invariant Removing(d.mapped, base, addresses, j, n, FirstError(statuses) == 0)
    {
      ghost var mapped := d.mapped;
      var unmapAddr := U64(dMem + unmappedSize);
      var status := d.MemUnmap(unmapAddr, chunkSizes[j]);
      assert UnmapCalls(dMem, chunkSizes, statuses + [status])
          == UnmapCalls(dMem, chunkSizes, statuses) + [Unmap(unmapAddr, chunkSizes[j], status)];
      RemoveStep(mapped, base, addresses, j, n, FirstError(statuses) == 0, status == 0);
      ErrorStep(statuses, status);
      statuses := statuses + [status];
      unmappedSize := U64(unmappedSize + chunkSizes[j]);
    }
    RemoveDone(d.mapped, base, addresses, n, FirstError(statuses) == 0);
  }

  /** Undo n mappings and all creations. */
  method UndoMaps(d: Driver, dMem: int, cells: seq<HandleCell>, chunkSizes: seq<int>, n: nat,
                  ghost base: map<Handle, int>, ghost was: map<int, Mapping>)
    returns (ghost unmaps: seq<int>, ghost releases: seq<int>)
    requires d.Valid() && n <= |chunkSizes| == |cells|
    requires HoldsFirst(d.created, base, Handles(cells), |cells|) && HoldsFirst(d.mapped, was, Addresses(dMem, chunkSizes), n)
    modifies d`created, d`mapped, d`log
    ensures d.Valid() && |unmaps| == n && |releases| == |cells|
    ensures d.log == old(d.log) + UnmapCalls(dMem, chunkSizes, unmaps) + ReleaseCalls(Handles(cells), releases)
    ensures FirstError(unmaps + releases) == 0 <==> d.created == base && d.mapped == was
  {
    hide HoldsFirst, FirstError, Addresses, UnmapCalls, ReleaseCalls;
    unmaps := UnmapFirst(d, dMem, chunkSizes, n, was);
    releases := ReleaseFirst(d, cells, |cells|, base);
    ErrorConcat(unmaps, releases);
  }

  class Allocator {
    const driver: Driver
    /** The global error_code. */
    var errorCode: int

    constructor (driver: Driver)
      ensures this.driver == driver && errorCode == 0
    {
      this.driver, errorCode := driver, 0;
    }

    /** The loop that creates one handle per chunk.  It stops at the first failure, or, with a stale
        error code, after the first handle. */
    method CreateHandles(cells: seq<HandleCell>, chunkSizes: seq<int>) returns (ok: bool, ghost creates: seq<int>, ghost releases: seq<int>)
      requires driver.Valid() && |cells| == |chunkSizes| && Distinct(cells)
      modifies this`errorCode, driver`created, driver`nextHandle, driver`log, cells
      ensures driver.Valid()
      ensures |creates| <= |cells| && |releases| <= |cells|
      ensures driver.log == old(driver.log) + CreateCalls(chunkSizes, creates) + ReleaseCalls(Handles(cells), releases)
      ensures ok <==> FirstError(creates) == 0 && (old(errorCode) == 0 || |cells| == 0)
      ensures old(errorCode) == 0 || |cells| == 0 ==> Attempted(creates, |cells|)
      ensures old(errorCode) != 0 && |cells| > 0 ==> |creates| == 1
      ensures errorCode == if FirstError(creates) == 0 then old(errorCode) else FirstError(creates)
      ensures |releases| == if ok then 0 else |creates| - 1
      ensures ok ==> HoldsFirst(driver.created, old(driver.created), Handles(cells), |cells|)
      ensures ok ==> SizesRight(driver.created, Handles(cells), chunkSizes, |cells|)
      ensures !ok && old(errorCode) == 0 ==> (FirstError(releases) == 0 <==> driver.created == old(driver.created))
      ensures !ok && old(errorCode) != 0 ==> Leaked(old(driver.created), driver.created, chunkSizes[0], cells[0].handle, creates[0])
    {
      hide HoldsFirst, SizesRight, FirstError, Attempted, AllZero;
      ghost var base, log := driver.created, driver.log;
      creates, releases := [], [];
      HoldsNothing(base, Handles(cells));
      NoSizes(base, Handles(cells), chunkSizes);
      NothingTried();
      NoCallsYet(log, chunkSizes, Handles(cells));
      for i := 0 to |cells|
        invariant driver.Valid() && |creates| == i && AllZero(creates) && FirstError(creates) == 0
        invariant driver.log == log + CreateCalls(chunkSizes, creates)
        invariant i == 0 ==> driver.created == base
        invariant i > 0 ==> errorCode == 0
        invariant errorCode == old(errorCode)
        invariant HoldsFirst(driver.created, base, Handles(cells), i)
        invariant SizesRight(driver.created, Handles(cells), chunkSizes, i)
      {
        ghost var created, handles := driver.created, Handles(cells);
        var status: int, handle: Handle := driver.MemCreate(chunkSizes[i]);
        assert CreateCalls(chunkSizes, creates + [status]) == CreateCalls(chunkSizes, creates) + [Create(chunkSizes[i], status)];
        OneMoreTried(creates, status, |cells|);
        creates := creates + [status];
        if status == 0 {
          cells[i].handle := handle;
          assert Handles(cells) == handles[i := handle];
          HoldsOneMore(created, base, handles, i, handle, chunkSizes[i]);
          SizesOneMore(created, handles, chunkSizes, i, handle);
        } else {
          errorCode := status;
        }
        if errorCode != 0 {
          // with a stale code the handle just created is not among the first i
          HoldsNothing(driver.created, Handles(cells));
          releases := ReleaseFirst(driver, cells, i, if status == 0 then driver.created else base);
          return false, creates, releases;
        }
      }
      AllTried(creates);
      NoReleases(driver.log, Handles(cells));
      return true, creates, releases;
    }

    /** The loop that maps one chunk behind the other; on failure everything is undone. */
    method MapChunks(dMem: int, cells: seq<HandleCell>, chunkSizes: seq<int>, ghost base: map<Handle, int>)
      returns (ok: bool, ghost maps: seq<int>, ghost unmaps: seq<int>, ghost releases: seq<int>)
      requires driver.Valid() && errorCode == 0 && |cells| == |chunkSizes|
      requires HoldsFirst(driver.created, base, Handles(cells), |cells|)
      modifies this`errorCode, driver`created, driver`mapped, driver`log
      ensures driver.Valid() && Attempted(maps, |cells|) && errorCode == FirstError(maps)
      ensures |maps| <= |cells| && |unmaps| <= |cells| && |releases| <= |cells|
      ensures driver.log == old(driver.log) + MapCalls(dMem, chunkSizes, Handles(cells), maps)
                            + UnmapCalls(dMem, chunkSizes, unmaps) + ReleaseCalls(Handles(cells), releases)
      ensures ok <==> FirstError(maps) == 0
      ensures if ok then unmaps == releases == [] else |unmaps| == |maps| - 1 && |releases| == |cells|
      ensures ok ==> driver.created == old(driver.created)
      ensures ok ==> HoldsFirst(driver.mapped, old(driver.mapped), Addresses(dMem, chunkSizes), |cells|)
      ensures ok ==> MappingsRight(driver.mapped, dMem, chunkSizes, Handles(cells), |cells|)
      ensures !ok ==> (FirstError(unmaps + releases) == 0 <==> driver.created == base && driver.mapped == old(driver.mapped))
    {
      hide HoldsFirst, MappingsRight, Address, Offset, FirstError, Attempted, AllZero, U64;
      ghost var was, addresses, log, handles := driver.mapped, Addresses(dMem, chunkSizes), driver.log, Handles(cells);
      maps, unmaps, releases := [], [], [];
      HoldsNothing(was, addresses);
      NoMappings(was, dMem, chunkSizes, handles);
      NothingTried();
      NoCalls(log, dMem, chunkSizes, handles);
      OffsetStep(chunkSizes);
      var allocatedSize := 0;
      for i := 0 to |cells|
        invariant driver.Valid() && errorCode == 0 && driver.created == old(driver.created)
        invariant |maps| == i && AllZero(maps) && FirstError(maps) == 0
        invariant driver.log == log + MapCalls(dMem, chunkSizes, handles, maps)
        invariant allocatedSize == U64(Offset(chunkSizes, i))
        invariant HoldsFirst(driver.mapped, was, addresses, i)
        invariant MappingsRight(driver.mapped, dMem, chunkSizes, handles, i)
      {
        ghost var mapped := driver.mapped;
        var mapAddr := U64(dMem + allocatedSize);
        AddressIs(dMem, chunkSizes, i);
        var status := driver.MemMap(mapAddr, chunkSizes[i], cells[i].handle);
        assert MapCalls(dMem, chunkSizes, handles, maps + [status])
            == MapCalls(dMem, chunkSizes, handles, maps) + [Map(mapAddr, chunkSizes[i], handles[i], status)];
        OneMoreTried(maps, status, |cells|);
        maps := maps + [status];
        if status != 0 {
          errorCode := status;
          unmaps, releases := UndoMaps(driver, dMem, cells, chunkSizes, i, base, was);
          return false, maps, unmaps, releases;
        }
        HoldsOneMore(mapped, was, addresses, i, mapAddr, Mapping(chunkSizes[i], handles[i]));
        assert addresses[i := mapAddr] == addresses;
        MappingsOneMore(mapped, dMem, chunkSizes, handles, i);
        allocatedSize := U64(allocatedSize + chunkSizes[i]);
      }
      AllTried(maps);
      NoCalls(driver.log, dMem, chunkSizes, handles);
      return true, maps, unmaps, releases;
    }

    /** create_and_map, with the statuses of all its driver calls.  Started with a clear error code (or
        without chunks) it makes exactly the calls of a complete run, the code afterwards is the first
        failing status, a full run leaves the allocation resident, and a failed creation or mapping
        restores the device exactly when no release or unmap failed.  With a stale code it creates one
        handle that nobody releases. */
    method CreateAndMap(dMem: int, size: int, cells: seq<HandleCell>, chunkSizes: seq<int>) returns (ghost s: Statuses)
      requires driver.Valid() && |cells| == |chunkSizes| && Distinct(cells)
      modifies this`errorCode, driver`created, driver`mapped, driver`nextHandle, driver`log, cells
      ensures driver.Valid() && Bounded(s, |cells|)
      ensures driver.log == LogAfter(old(driver.log), dMem, size, chunkSizes, Handles(cells), s)
      ensures errorCode == if ErrorOf(s) == 0 then old(errorCode) else ErrorOf(s)
      ensures old(errorCode) == 0 || |cells| == 0 ==> Complete(s, |cells|)
      ensures (old(errorCode) == 0 || |cells| == 0) && FirstError(s.creates) == FirstError(s.maps) == 0 ==>
        Resident(old(driver.created), old(driver.mapped), driver.created, driver.mapped, dMem, chunkSizes, Handles(cells))
      ensures (old(errorCode) == 0 || |cells| == 0) && !(FirstError(s.creates) == FirstError(s.maps) == 0) ==>
        (Undone(s) <==> driver.created == old(driver.created) && driver.mapped == old(driver.mapped))
      ensures old(errorCode) != 0 && |cells| > 0 ==>
        && |s.creates| == 1 && s.maps == s.unmaps == s.releases == s.access == []
        && driver.mapped == old(driver.mapped)
        && Leaked(old(driver.created), driver.created, chunkSizes[0], cells[0].handle, s.creates[0])
    {
      hide HoldsFirst, MappingsRight, SizesRight, Addresses, Resident, FirstError, Attempted, LogAfter, CreateCalls, MapCalls,
        UnmapCalls, ReleaseCalls, AccessCalls, Leaked, ErrorOf;
      ghost var base, was, log := driver.created, driver.mapped, driver.log;
      ghost var creates, maps, unmaps, releases := [], [], [], [];
      var ok;
      ok, creates, releases := CreateHandles(cells, chunkSizes);
      NoError();
      LogOfCreation(log, dMem, size, chunkSizes, Handles(cells), creates, releases);
      s := Statuses(creates, [], [], releases, []);
      ErrorOfParts(s);
      if !ok {
        assert [] + releases == releases;
        return;
      }
      NoReleases(log + CreateCalls(chunkSizes, creates), Handles(cells));
      if |cells| > 0 {
        ok, maps, unmaps, releases := MapChunks(dMem, cells, chunkSizes, base);
        LogOfMapping(log, dMem, size, chunkSizes, Handles(cells), creates, maps, unmaps, releases);
        s := Statuses(creates, maps, unmaps, releases, []);
        ErrorOfParts(s);
        if !ok {
          return;
        }
      } else {
        NoMappings(was, dMem, chunkSizes, Handles(cells));
        HoldsNothing(was, Addresses(dMem, chunkSizes));
        NothingTried();
        AllTried([]);
      }
      ResidentNow(base, was, driver.created, driver.mapped, dMem, chunkSizes, Handles(cells));
      var status := driver.MemSetAccess(dMem, size);
      LogOfAccess(log, dMem, size, chunkSizes, Handles(cells), creates, maps, status);
      s := Statuses(creates, maps, [], [], [status]);
      ErrorOfParts(s);
      SingleStatus(status);
      if status != 0 {
        errorCode := status;
      }
    }

    /** The first loop of unmap_and_release. */
    method UnmapAll(dMem: int, chunkSizes: seq<int>, ghost base: map<int, Mapping>) returns (firstError: int, ghost statuses: seq<int>)
      requires driver.Valid()
      modifies driver`mapped, driver`log
      ensures driver.Valid()
      ensures |statuses| == |chunkSizes| && firstError == FirstError(statuses)
      ensures driver.log == old(driver.log) + UnmapCalls(dMem, chunkSizes, statuses)
      ensures HoldsFirst(old(driver.mapped), base, Addresses(dMem, chunkSizes), |chunkSizes|) ==>
        (firstError == 0 <==> driver.mapped == base)
    {
      hide HoldsFirst, Removing, Offset, FirstError, U64;
      ghost var addresses, n := Addresses(dMem, chunkSizes), |chunkSizes|;
      ghost var resident := HoldsFirst(driver.mapped, base, addresses, n);
      if resident {
        NothingRemoved(driver.mapped, base, addresses, n);
      }
      NoError();
      OffsetStep(chunkSizes);
      statuses := [];
      firstError := 0;
      var allocatedSize := 0;
      for i := 0 to |chunkSizes|
        invariant driver.Valid() && |statuses| == i
        invariant allocatedSize == U64(Offset(chunkSizes, i))
        invariant driver.log == old(driver.log) + UnmapCalls(dMem, chunkSizes, statuses)
        invariant firstError == FirstError(statuses)
        invariant resident ==> Removing(driver.mapped, base, addresses, i, n, firstError == 0)
      {
        ghost var mapped := driver.mapped;
        var mapAddr := U64(dMem + allocatedSize);
        var status := driver.MemUnmap(mapAddr, chunkSizes[i]);
        assert UnmapCalls(dMem, chunkSizes, statuses + [status])
            == UnmapCalls(dMem, chunkSizes, statuses) + [Unmap(mapAddr, chunkSizes[i], status)];
        if resident {
          RemoveStep(mapped, base, addresses, i, n, firstError == 0, status == 0);
        }
        ErrorStep(statuses, status);
        if status != 0 && firstError == 0 {
          firstError := status;
        }
        statuses := statuses + [status];
        allocatedSize := U64(allocatedSize + chunkSizes[i]);
      }
      if resident {
        RemoveDone(driver.mapped, base, addresses, n, firstError == 0);
      }
    }

    /** The second loop of unmap_and_release. */
    method ReleaseAll(cells: seq<HandleCell>, ghost base: map<Handle, int>) returns (firstError: int, ghost statuses: seq<int>)
      requires driver.Valid()
      modifies driver`created, driver`log
      ensures driver.Valid()
      ensures |statuses| == |cells| && firstError == FirstError(statuses)
      ensures driver.log == old(driver.log) + ReleaseCalls(Handles(cells), statuses)
      ensures HoldsFirst(old(driver.created), base, Handles(cells), |cells|) ==>
        (firstError == 0 <==> driver.created == base)
    {
      hide HoldsFirst, Removing, FirstError;
      ghost var handles, n := Handles(cells), |cells|;
      ghost var resident := HoldsFirst(driver.created, base, handles, n);
      if resident {
        NothingRemoved(driver.created, base, handles, n);
      }
      NoError();
      statuses := [];
      firstError := 0;
      for i := 0 to |cells|
        invariant driver.Valid() && |statuses| == i
        invariant driver.log == old(driver.log) + ReleaseCalls(handles, statuses)
        invariant firstError == FirstError(statuses)
        invariant resident ==> Removing(driver.created, base, handles, i, n, firstError == 0)
      {
        ghost var created := driver.created;
        var status := driver.MemRelease(cells[i].handle);
        assert ReleaseCalls(handles, statuses + [status]) == ReleaseCalls(handles, statuses) + [Release(handles[i], status)];
        if resident {
          RemoveStep(created, base, handles, i, n, firstError == 0, status == 0);
        }
        ErrorStep(statuses, status);
        if status != 0 && firstError == 0 {
          firstError := status;
        }
        statuses := statuses + [status];
      }
      if resident {
        RemoveDone(driver.created, base, handles, n, firstError == 0);
      }
    }

    /** unmap_and_release: every chunk is unmapped once and every handle released once, whatever the
        earlier calls returned, and the first error is the one reported.  An allocation that was
        resident leaves the device as it was without it exactly when nothing failed. */
    method UnmapAndRelease(dMem: int, cells: seq<HandleCell>, chunkSizes: seq<int>,
                           ghost created0: map<Handle, int>, ghost mapped0: map<int, Mapping>)
      returns (ghost unmaps: seq<int>, ghost releases: seq<int>)
      requires driver.Valid() && |cells| == |chunkSizes|
      modifies this`errorCode, driver`created, driver`mapped, driver`log
      ensures driver.Valid() && |unmaps| == |releases| == |cells|
      ensures driver.log == old(driver.log) + UnmapCalls(dMem, chunkSizes, unmaps) + ReleaseCalls(Handles(cells), releases)
      ensures errorCode == if FirstError(unmaps + releases) == 0 then old(errorCode) else FirstError(unmaps + releases)
      ensures Resident(created0, mapped0, old(driver.created), old(driver.mapped), dMem, chunkSizes, Handles(cells)) ==>
        (FirstError(unmaps + releases) == 0 <==> driver.created == created0 && driver.mapped == mapped0)
    {
      hide HoldsFirst, MappingsRight, SizesRight, FirstError, Addresses, UnmapCalls, ReleaseCalls;
      var firstError, releaseError;
      firstError, unmaps := UnmapAll(dMem, chunkSizes, mapped0);
      releaseError, releases := ReleaseAll(cells, created0);
      ErrorConcat(unmaps, releases);
      if firstError == 0 {
        firstError := releaseError;
      }
      if firstError != 0 {
        errorCode := firstError;
      }
    }
  }

  /** Of one attempt with a stale error code: the handle, if it was granted, belongs to nobody. */
  ghost predicate Leaked(before: map<Handle, int>, after: map<Handle, int>, size: int, handle: Handle, status: int) {
    if status == 0 then handle !in before && after == before[handle := size] else after == before
  }

  lemma NoCallsYet(log: seq<Call>, sizes: seq<int>, handles: seq<Handle>)
    ensures log + CreateCalls(sizes, []) == log
  {
  }

  lemma NoReleases(log: seq<Call>, handles: seq<Handle>)
    ensures log + ReleaseCalls(handles, []) == log
  {
  }

  lemma SingleStatus(status: int)
    ensures FirstError([status]) == status
  {
    ErrorStep([], status);
    assert [] + [status] == [status];
  }

  /** The chunks planned for a size: exactly those of the 64-bit plan, and, when the two sums of the
      plan fit, a tiling of the reservation that starts at dMem. */
  ghost predicate PlannedFor(size: int, env: EnvValue, g: int, dMem: int, sizes: seq<int>)
    requires 0 < g
  {
    var aligned, base := AlignUp(U64(size), g), GetMemcreateChunkSize(env);
    var chunk := AlignUp(base, g);
    && 0 < chunk && sizes == ChunkSizes(aligned, chunk)
    && (0 < size < TWO_63 && g < TWO_63 && base + g - 1 < TWO_64 && aligned + chunk - 1 < TWO_64 ==>
          size <= aligned && Tiles(sizes, aligned, chunk, g) && Fits(dMem, sizes))
  }

  lemma PlanIs(size: int, env: EnvValue, g: int, dMem: int, sizes: seq<int>)
    requires 0 < g && 0 < AlignUp(GetMemcreateChunkSize(env), g)
    requires sizes == ChunkSizes(AlignUp(U64(size), g), AlignUp(GetMemcreateChunkSize(env), g))
    requires 0 <= dMem && dMem + AlignUp(U64(size), g) <= TWO_64
    ensures PlannedFor(size, env, g, dMem, sizes)
  {
    hide AlignUp, ChunkSizes, GetMemcreateChunkSize;
    if 0 < size < TWO_63 && g < TWO_63 {
      assert U64(size) == size;
      PlanSoundExactly(size, g, env);
    }
  }
}
