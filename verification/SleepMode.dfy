/** Sleep mode: every recorded allocation is unmapped and released, and later created and mapped again. */
module SleepMode {
  import opened Sequences
  import opened CumemDriver
  import opened CumemAllocator
  import opened PyArgs
  import opened CumemExtension

  datatype Device = Device(created: map<Handle, int>, mapped: map<int, Mapping>)

  // ---------------------------------------------------------------- several allocations as one

  function Flat<T>(parts: seq<seq<T>>): seq<T> {
    if parts == [] then [] else Flat(parts[..|parts| - 1]) + parts[|parts| - 1]
  }

  lemma {:induction false} FlatConcat<T>(a: seq<seq<T>>, b: seq<seq<T>>)
    ensures Flat(a + b) == Flat(a) + Flat(b)
    decreases |b|
  {
    if b == [] {
      assert a + b == a;
    } else {
      var n := |b| - 1;
      assert (a + b)[..|a| + n] == a + b[..n];
      FlatConcat(a, b[..n]);
    }
  }

  lemma FlatOfOne<T>(part: seq<T>)
    ensures Flat([part]) == part
  {
    assert [part][..0] == [];
  }

  function AllCells(all: seq<Allocation>): seq<int> {
    Flat(seq(|all|, i requires 0 <= i < |all| => all[i].cells))
  }

  function AllSizes(all: seq<Allocation>): seq<int> {
    Flat(seq(|all|, i requires 0 <= i < |all| => all[i].sizes))
  }

  ghost function AllAddresses(all: seq<Allocation>): seq<int> {
    Flat(seq(|all|, i requires 0 <= i < |all| => Addresses(all[i].dMem, all[i].sizes)))
  }

  lemma AllConcat(a: seq<Allocation>, b: seq<Allocation>)
    ensures AllCells(a + b) == AllCells(a) + AllCells(b)
    ensures AllSizes(a + b) == AllSizes(a) + AllSizes(b)
    ensures AllAddresses(a + b) == AllAddresses(a) + AllAddresses(b)
  {
    hide Addresses, Flat;
    var n, m := |a|, |b|;
    var cells, sizes := seq(n, i requires 0 <= i < n => a[i].cells), seq(n, i requires 0 <= i < n => a[i].sizes);
    var cells', sizes' := seq(m, i requires 0 <= i < m => b[i].cells), seq(m, i requires 0 <= i < m => b[i].sizes);
    var at := seq(n, i requires 0 <= i < n => Addresses(a[i].dMem, a[i].sizes));
    var at' := seq(m, i requires 0 <= i < m => Addresses(b[i].dMem, b[i].sizes));
    FlatConcat(cells, cells');
    FlatConcat(sizes, sizes');
    FlatConcat(at, at');
    var ab := a + b;
    assert cells + cells' == seq(|ab|, i requires 0 <= i < |ab| => ab[i].cells);
    assert sizes + sizes' == seq(|ab|, i requires 0 <= i < |ab| => ab[i].sizes);
    assert at + at' == seq(|ab|, i requires 0 <= i < |ab| => Addresses(ab[i].dMem, ab[i].sizes));
  }

  lemma AllOfOne(a: Allocation)
    ensures AllCells([a]) == a.cells && AllSizes([a]) == a.sizes && AllAddresses([a]) == Addresses(a.dMem, a.sizes)
    ensures AllCells([]) == AllSizes([]) == AllAddresses([]) == []
  {
    hide Addresses;
    FlatOfOne(a.cells);
    FlatOfOne(a.sizes);
    FlatOfOne(Addresses(a.dMem, a.sizes));
    assert seq(1, i requires 0 <= i < 1 => [a][i].cells) == [a.cells];
    assert seq(1, i requires 0 <= i < 1 => [a][i].sizes) == [a.sizes];
    assert seq(1, i requires 0 <= i < 1 => Addresses([a][i].dMem, [a][i].sizes)) == [Addresses(a.dMem, a.sizes)];
  }

  /** The chunks with these addresses, sizes and handles are on the device, and otherwise only what is
      on the base. */
  ghost predicate ResidentAt(base: Device, now: Device, addresses: seq<int>, sizes: seq<int>, handles: seq<Handle>) {
    && |addresses| == |sizes| == |handles|
    && HoldsFirst(now.created, base.created, handles, |handles|) && HoldsFirst(now.mapped, base.mapped, addresses, |addresses|)
    && ChunksAt(now, addresses, sizes, handles)
  }

  ghost predicate ChunksAt(now: Device, addresses: seq<int>, sizes: seq<int>, handles: seq<Handle>)
    requires |addresses| == |sizes| == |handles|
  {
    forall i :: 0 <= i < |handles| ==> ChunkAt(now, addresses[i], sizes[i], handles[i])
  }

  lemma ChunksConcat(now: Device, a: seq<int>, s: seq<int>, h: seq<Handle>, a': seq<int>, s': seq<int>, h': seq<Handle>)
    requires |a| == |s| == |h| && |a'| == |s'| == |h'|
    ensures ChunksAt(now, a + a', s + s', h + h') <==> ChunksAt(now, a, s, h) && ChunksAt(now, a', s', h')
  {
    hide ChunkAt;
    var n, aa, ss, hh := |h|, a + a', s + s', h + h';
    assert forall i :: 0 <= i < n ==> aa[i] == a[i] && ss[i] == s[i] && hh[i] == h[i];
    assert forall i :: n <= i < |hh| ==> aa[i] == a'[i - n] && ss[i] == s'[i - n] && hh[i] == h'[i - n];
    if ChunksAt(now, aa, ss, hh) {
      forall i | 0 <= i < |h'| ensures ChunkAt(now, a'[i], s'[i], h'[i]) {
        assert ChunkAt(now, aa[n + i], ss[n + i], hh[n + i]);
      }
      forall i | 0 <= i < n ensures ChunkAt(now, a[i], s[i], h[i]) {
        assert ChunkAt(now, aa[i], ss[i], hh[i]);
      }
    }
  }

  ghost predicate ChunkAt(now: Device, address: int, size: int, handle: Handle) {
    && handle in now.created && now.created[handle] == size
    && address in now.mapped && now.mapped[address] == Mapping(size, handle)
  }

  /** For one allocation this is the notion of the allocator. */
  lemma ResidentIs(base: Device, now: Device, dMem: int, sizes: seq<int>, handles: seq<Handle>)
    requires |sizes| == |handles|
    ensures ResidentAt(base, now, Addresses(dMem, sizes), sizes, handles)
       <==> Resident(base.created, base.mapped, now.created, now.mapped, dMem, sizes, handles)
  {
    hide HoldsFirst, Address;
    var addresses, n := Addresses(dMem, sizes), |sizes|;
    assert forall i :: 0 <= i < n ==> addresses[i] == Address(dMem, sizes, i);
    if SizesRight(now.created, handles, sizes, n) && MappingsRight(now.mapped, dMem, sizes, handles, n) {
      forall i | 0 <= i < n ensures ChunkAt(now, addresses[i], sizes[i], handles[i]) {
      }
    }
    if forall i :: 0 <= i < n ==> ChunkAt(now, addresses[i], sizes[i], handles[i]) {
      forall i | 0 <= i < n
        ensures handles[i] in now.created && now.created[handles[i]] == sizes[i]
        ensures Address(dMem, sizes, i) in now.mapped && now.mapped[Address(dMem, sizes, i)] == Mapping(sizes[i], handles[i])
      {
        assert ChunkAt(now, addresses[i], sizes[i], handles[i]);
      }
    }
  }

  function Keys<K>(s: seq<K>): set<K> { set x | x in s }

  lemma HoldsJoin<K, V>(m0: map<K, V>, m1: map<K, V>, m2: map<K, V>, a: seq<K>, b: seq<K>)
    requires HoldsFirst(m1, m0, a, |a|) && HoldsFirst(m2, m1, b, |b|)
    ensures HoldsFirst(m2, m0, a + b, |a + b|)
  {
    var ab := a + b;
    forall i | 0 <= i < |ab| ensures ab[i] in m2 && ab[i] !in m0 {
      assert i < |a| ==> a[i] in m1;
    }
    forall i, j | 0 <= i < j < |ab| ensures ab[i] != ab[j] {
      assert i < |a| ==> a[i] in m1;
    }
    forall k | k in m2 && k !in m0 ensures exists i :: 0 <= i < |ab| && ab[i] == k {
      if k in m1 {
        var i :| 0 <= i < |a| && a[i] == k;
        assert ab[i] == k;
      } else {
        var i :| 0 <= i < |b| && b[i] == k;
        assert ab[|a| + i] == k;
      }
    }
  }

  lemma HoldsSplit<K, V>(m0: map<K, V>, m: map<K, V>, a: seq<K>, b: seq<K>)
    requires HoldsFirst(m, m0, a + b, |a + b|)
    ensures HoldsFirst(m, m - Keys(a), a, |a|) && HoldsFirst(m - Keys(a), m0, b, |b|)
  {
    var ab := a + b;
    assert forall i :: 0 <= i < |a| ==> ab[i] == a[i];
    assert forall i :: 0 <= i < |b| ==> ab[|a| + i] == b[i];
    forall k | k in m - Keys(a) && k !in m0 ensures exists i :: 0 <= i < |b| && b[i] == k {
      var i :| 0 <= i < |ab| && ab[i] == k;
      assert i >= |a| && b[i - |a|] == k;
    }
  }

  lemma JoinResident(base: Device, mid: Device, now: Device, a: seq<int>, s: seq<int>, h: seq<Handle>, a': seq<int>, s': seq<int>, h': seq<Handle>)
    requires ResidentAt(base, mid, a, s, h) && ResidentAt(mid, now, a', s', h')
    ensures ResidentAt(base, now, a + a', s + s', h + h')
  {
    hide HoldsFirst, ChunksAt;
    HoldsJoin(base.created, mid.created, now.created, h, h');
    HoldsJoin(base.mapped, mid.mapped, now.mapped, a, a');
    StillThere(mid, now, a, s, h, a', h');
    ChunksConcat(now, a, s, h, a', s', h');
  }

  lemma StillThere(mid: Device, now: Device, a: seq<int>, s: seq<int>, h: seq<Handle>, a': seq<int>, h': seq<Handle>)
    requires |a| == |s| == |h| && ChunksAt(mid, a, s, h)
    requires HoldsFirst(now.created, mid.created, h', |h'|) && HoldsFirst(now.mapped, mid.mapped, a', |a'|)
    ensures ChunksAt(now, a, s, h)
  {
    forall i | 0 <= i < |h| ensures ChunkAt(now, a[i], s[i], h[i]) {
      assert ChunkAt(mid, a[i], s[i], h[i]);
    }
  }

  /** The device without these chunks. */
  function Minus(now: Device, addresses: seq<int>, handles: seq<Handle>): Device {
    Device(now.created - Keys(handles), now.mapped - Keys(addresses))
  }

  lemma SplitResident(base: Device, now: Device, a: seq<int>, s: seq<int>, h: seq<Handle>, a': seq<int>, s': seq<int>, h': seq<Handle>)
    requires |a| == |s| == |h| && |a'| == |s'| == |h'| && ResidentAt(base, now, a + a', s + s', h + h')
    ensures ResidentAt(Minus(now, a, h), now, a, s, h) && ResidentAt(base, Minus(now, a, h), a', s', h')
  {
    hide HoldsFirst, ChunksAt;
    HoldsSplit(base.created, now.created, h, h');
    HoldsSplit(base.mapped, now.mapped, a, a');
    ChunksConcat(now, a, s, h, a', s', h');
    AlsoThere(base, now, a, h, a', s', h');
  }

  lemma AlsoThere(base: Device, now: Device, a: seq<int>, h: seq<Handle>, a': seq<int>, s': seq<int>, h': seq<Handle>)
    requires |a'| == |s'| == |h'| && ChunksAt(now, a', s', h')
    requires HoldsFirst(Minus(now, a, h).created, base.created, h', |h'|) && HoldsFirst(Minus(now, a, h).mapped, base.mapped, a', |a'|)
    ensures ChunksAt(Minus(now, a, h), a', s', h')
  {
    forall i | 0 <= i < |h'| ensures ChunkAt(Minus(now, a, h), a'[i], s'[i], h'[i]) {
      assert ChunkAt(now, a'[i], s'[i], h'[i]);
    }
  }

  lemma ResidentCounts(base: Device, now: Device, a: seq<int>, s: seq<int>, h: seq<Handle>)
    requires ResidentAt(base, now, a, s, h)
    ensures |a| == |s| == |h|
  {
  }

  lemma NothingResident(base: Device)
    ensures ResidentAt(base, base, [], [], [])
  {
  }

  lemma NothingElse(base: Device, now: Device)
    requires ResidentAt(base, now, [], [], [])
    ensures now == base
  {
    assert now.created.Keys == base.created.Keys && now.mapped.Keys == base.mapped.Keys;
    assert now.created == base.created && now.mapped == base.mapped;
  }

  // ---------------------------------------------------------------- what happened

  /** One allocation put to sleep or woken up: the handles in its cells, the statuses of the driver
      calls, and the device afterwards. */
  datatype Step =
    | Slept(handles: seq<Handle>, unmaps: seq<int>, releases: seq<int>, after: Device)
    | Woke(handles: seq<Handle>, s: Statuses, after: Device)

  function ErrorIn(step: Step): int {
    match step
    case Slept(_, unmaps, releases, _) => FirstError(unmaps + releases)
    case Woke(_, s, _) => ErrorOf(s)
  }

  function After(steps: seq<Step>, start: Device): Device {
    if steps == [] then start else steps[|steps| - 1].after
  }

  predicate Finished(steps: seq<Step>) {
    steps == [] || ErrorIn(steps[|steps| - 1]) == 0
  }

  /** A step for allocation a from the device `before`.  A sleep takes exactly the chunks of a away if
      and only if no call failed.  A wake-up leaves a resident, even if access then failed, or, if a
      creation or mapping failed, the device as it was unless undoing failed. */
  ghost predicate IsStep(asleep: bool, step: Step, a: Allocation, before: Device) {
    && |step.handles| == |a.cells| == |a.sizes|
    && match step
       case Slept(handles, unmaps, releases, after) =>
         && asleep && |unmaps| == |releases| == |a.cells|
         && (ErrorIn(step) == 0 <==> after == Minus(before, Addresses(a.dMem, a.sizes), handles))
       case Woke(handles, s, after) =>
         && !asleep && Complete(s, |a.cells|) && Bounded(s, |a.cells|)
         && if FirstError(s.creates) == FirstError(s.maps) == 0
            then ResidentAt(before, after, Addresses(a.dMem, a.sizes), a.sizes, handles)
            else Undone(s) <==> after == before
  }

  /** Steps for the allocations in order, none after an error. */
  ghost predicate StepsSoFar(asleep: bool, steps: seq<Step>, all: seq<Allocation>, start: Device) {
    && |steps| <= |all|
    && (forall j :: 0 <= j < |steps| ==>
          IsStep(asleep, steps[j], all[j], After(steps[..j], start)) && Finished(steps[..j]))
  }

  /** All allocations, unless there was an error. */
  ghost predicate AreSteps(asleep: bool, steps: seq<Step>, all: seq<Allocation>, start: Device) {
    StepsSoFar(asleep, steps, all, start) && (Finished(steps) ==> |steps| == |all|)
  }

  ghost function LogOf(log: seq<Call>, a: Allocation, step: Step): seq<Call>
    requires |step.handles| == |a.cells| == |a.sizes|
    requires match step { case Slept(_, u, r, _) => |u| == |r| == |a.cells| case Woke(_, s, _) => Bounded(s, |a.cells|) }
  {
    match step
    case Slept(handles, unmaps, releases, _) => log + UnmapCalls(a.dMem, a.sizes, unmaps) + ReleaseCalls(handles, releases)
    case Woke(handles, s, _) => LogAfter(log, a.dMem, a.size, a.sizes, handles, s)
  }

  /** The log after these steps. */
  ghost function LogOfSteps(asleep: bool, log: seq<Call>, all: seq<Allocation>, steps: seq<Step>, start: Device): seq<Call>
    requires StepsSoFar(asleep, steps, all, start)
  {
    if steps == [] then log else
      var n := |steps| - 1;
      assert StepsSoFar(asleep, steps[..n], all, start) && IsStep(asleep, steps[n], all[n], After(steps[..n], start)) by {
        Earlier(asleep, steps, all, start);
      }
      LogOf(LogOfSteps(asleep, log, all, steps[..n], start), all[n], steps[n])
  }

  lemma Earlier(asleep: bool, steps: seq<Step>, all: seq<Allocation>, start: Device)
    requires StepsSoFar(asleep, steps, all, start) && steps != []
    ensures var n := |steps| - 1;
      StepsSoFar(asleep, steps[..n], all, start) && IsStep(asleep, steps[n], all[n], After(steps[..n], start))
  {
    hide IsStep, Finished;
    var n := |steps| - 1;
    forall j | 0 <= j < n
      ensures IsStep(asleep, steps[..n][j], all[j], After(steps[..n][..j], start)) && Finished(steps[..n][..j])
    {
      assert steps[..n][..j] == steps[..j] && steps[..n][j] == steps[j];
    }
  }

  lemma OneMoreStep(asleep: bool, log: seq<Call>, all: seq<Allocation>, steps: seq<Step>, start: Device, step: Step)
    requires StepsSoFar(asleep, steps, all, start) && Finished(steps) && |steps| < |all|
    requires IsStep(asleep, step, all[|steps|], After(steps, start))
    ensures StepsSoFar(asleep, steps + [step], all, start)
    ensures LogOfSteps(asleep, log, all, steps + [step], start)
         == LogOf(LogOfSteps(asleep, log, all, steps, start), all[|steps|], step)
  {
    hide IsStep, Finished, After;
    var more := steps + [step];
    assert more[..|steps|] == steps;
    forall j | 0 <= j < |more|
      ensures IsStep(asleep, more[j], all[j], After(more[..j], start)) && Finished(more[..j])
    {
      assert j < |steps| ==> more[..j] == steps[..j] && more[j] == steps[j];
    }
  }

  function HandlesOf(steps: seq<Step>): seq<Handle> {
    Flat(seq(|steps|, i requires 0 <= i < |steps| => steps[i].handles))
  }

  lemma HandlesPush(steps: seq<Step>, step: Step)
    ensures HandlesOf(steps + [step]) == HandlesOf(steps) + step.handles
  {
    hide Flat;
    var parts := seq(|steps|, i requires 0 <= i < |steps| => steps[i].handles);
    var all := steps + [step];
    FlatConcat(parts, [step.handles]);
    FlatOfOne(step.handles);
    assert parts + [step.handles] == seq(|all|, i requires 0 <= i < |all| => all[i].handles);
  }

  lemma NoHandles()
    ensures HandlesOf([]) == []
  {
  }

  lemma NoSteps(asleep: bool, log: seq<Call>, all: seq<Allocation>, start: Device)
    ensures StepsSoFar(asleep, [], all, start) && LogOfSteps(asleep, log, all, [], start) == log && After([], start) == start
  {
  }

  // ---------------------------------------------------------------- the memory pool

  class CuMemAllocator {
    const extension: Extension
    /** The tuples recorded by the malloc callback, in the order of the dictionary. */
    const handles: seq<PyObject>

    constructor (extension: Extension, handles: seq<PyObject>)
      ensures this.extension == extension && this.handles == handles
    {
      this.extension, this.handles := extension, handles;
    }

    function Now(): Device
      reads extension.allocator.driver
    {
      Device(extension.allocator.driver.created, extension.allocator.driver.mapped)
    }

    /** The tuples are those of these allocations, and no two chunks share a cell. */
    ghost predicate Records(all: seq<Allocation>)
      reads extension.heap
    {
      && |handles| == |all| && Distinct(AllCells(all))
      && (forall i :: 0 <= i < |all| ==> InC(all[i]) && handles[i] == Encoded(all[i]) && Points(extension.heap.at, all[i]))
    }

    /** The chunks of these allocations are on the device, and otherwise only what is on the base. */
    ghost predicate Holds(base: Device, part: seq<Allocation>)
      reads extension.allocator.driver, extension.heap, extension.heap.at.Values
    {
      && Known(extension.heap.at, AllCells(part))
      && ResidentAt(base, Now(), AllAddresses(part), AllSizes(part), HandlesAt(extension.heap.at, AllCells(part)))
    }

    /** Allocation j of those recorded, and its place among all cells. */
    lemma Recorded(all: seq<Allocation>, j: nat)
      requires Records(all) && j < |all|
      ensures InC(all[j]) && handles[j] == Encoded(all[j]) && Points(extension.heap.at, all[j]) && Distinct(all[j].cells)
      ensures Known(extension.heap.at, AllCells(all[..j])) && forall x :: x in AllCells(all[..j]) ==> x !in all[j].cells
    {
      hide InC, Encoded, Points;
      Slices(all, j);
      DistinctParts(AllCells(all[..j]), all[j].cells, AllCells(all[j + 1..]));
      forall x | x in AllCells(all[..j]) ensures x in extension.heap.at {
        var i := CellFrom(all[..j], x);
        assert Points(extension.heap.at, all[i]);
        PointsAt(extension.heap.at, all[i], x);
      }
    }

    /** The first of several allocations can be taken away alone. */
    lemma FirstOfHeld(base: Device, part: seq<Allocation>)
      requires Holds(base, part) && part != [] && |part[0].cells| == |part[0].sizes|
      ensures Known(extension.heap.at, part[0].cells)
      ensures var a := part[0]; var handles := HandlesAt(extension.heap.at, a.cells);
        var rest := Minus(Now(), Addresses(a.dMem, a.sizes), handles);
        && ResidentAt(rest, Now(), Addresses(a.dMem, a.sizes), a.sizes, handles)
        && Known(extension.heap.at, AllCells(part[1..]))
        && ResidentAt(base, rest, AllAddresses(part[1..]), AllSizes(part[1..]), HandlesAt(extension.heap.at, AllCells(part[1..])))
    {
      hide ResidentAt, Minus, AllCells, AllSizes, AllAddresses, Addresses;
      var a, more := part[0], part[1..];
      AllOfOne(a);
      AllConcat([a], more);
      assert [a] + more == part;
      KnownConcat(extension.heap.at, a.cells, AllCells(more));
      HandlesConcat(extension.heap.at, a.cells, AllCells(more));
      AddressCount(a);
      ResidentCounts(base, Now(), AllAddresses(part), AllSizes(part), HandlesAt(extension.heap.at, AllCells(part)));
      SplitResident(base, Now(), Addresses(a.dMem, a.sizes), a.sizes, HandlesAt(extension.heap.at, a.cells),
                    AllAddresses(more), AllSizes(more), HandlesAt(extension.heap.at, AllCells(more)));
    }

    /** The steps account for the log and for the device, and no error code is left. */
    ghost predicate Progress(asleep: bool, steps: seq<Step>, all: seq<Allocation>, log: seq<Call>, start: Device)
      reads extension.allocator, extension.allocator.driver
    {
      && extension.allocator.errorCode == 0 && StepsSoFar(asleep, steps, all, start)
      && extension.allocator.driver.log == LogOfSteps(asleep, log, all, steps, start)
      && Now() == After(steps, start)
    }

    /** One round of the loop of sleep. */
    method SleepOne(j: nat, ghost all: seq<Allocation>, ghost base: Device, ghost steps: seq<Step>, ghost log: seq<Call>, ghost start: Device)
      returns (r: PyReturn, ghost step: Step)
      requires extension.Valid() && Records(all) && j == |steps| < |all|
      requires Progress(true, steps, all, log, start) && Finished(steps) && Holds(base, all[j..])
      modifies extension.allocator`errorCode, extension.allocator.driver`created, extension.allocator.driver`mapped,
        extension.allocator.driver`log
      ensures extension.Valid() && Progress(true, steps + [step], all, log, start)
      ensures Points(extension.heap.at, all[j]) && step.handles == HandlesAt(extension.heap.at, all[j].cells)
      ensures r == if ErrorIn(step) == 0 then Returned else RuntimeError
      ensures r == Returned ==> Holds(base, all[j + 1..])
    {
      hide InC, ParsesTo, WellFormedArgs, Encoded, FirstError, Resident, ResidentAt, UnmapCalls, ReleaseCalls, StepsSoFar, LogOfSteps,
        HandlesAt, Heap.Valid, AllCells, AllSizes, AllAddresses, Addresses, Minus, ErrorIn, Distinct, After;
      ghost var a := all[j];
      Recorded(all, j);
      OnlyItself(handles[j], a);
      assert all[j..][0] == a && all[j..][1..] == all[j + 1..];
      FirstOfHeld(base, all[j..]);
      ghost var before, mine := Now(), HandlesAt(extension.heap.at, a.cells);
      ghost var rest := Minus(before, Addresses(a.dMem, a.sizes), mine);
      ResidentIs(rest, before, a.dMem, a.sizes, mine);
      ghost var b, unmaps, releases;
      r, b, unmaps, releases := extension.PythonUnmapAndRelease(handles[j], rest.created, rest.mapped);
      step := Slept(mine, unmaps, releases, Now());
      SleepIsStep(step, a, before, LogOfSteps(true, log, all, steps, start));
      OneMoreStep(true, log, all, steps, start, step);
      LastIsAfter(steps, step, start);
    }

    /** sleep: the allocations one after the other, up to the first error. */
    method Sleep(ghost all: seq<Allocation>, ghost base: Device) returns (r: PyReturn, ghost steps: seq<Step>)
      requires extension.Valid() && extension.allocator.errorCode == 0 && Records(all) && Holds(base, all)
      modifies extension.allocator`errorCode, extension.allocator.driver`created, extension.allocator.driver`mapped,
        extension.allocator.driver`log
      ensures extension.Valid() && AreSteps(true, steps, all, old(Now()))
      ensures Progress(true, steps, all, old(extension.allocator.driver.log), old(Now()))
      ensures Known(extension.heap.at, AllCells(all[..|steps|])) && HandlesOf(steps) == HandlesAt(extension.heap.at, AllCells(all[..|steps|]))
      ensures r == if Finished(steps) then Returned else RuntimeError
      ensures r == Returned ==> Now() == base
    {
      hide InC, Encoded, Points, ResidentAt, StepsSoFar, LogOfSteps, HandlesOf, HandlesAt, Heap.Valid, AllCells, AllSizes, AllAddresses,
        ErrorIn, Distinct, After;
      ghost var log, start := extension.allocator.driver.log, Now();
      steps := [];
      NoSteps(true, log, all, start);
      NothingTold(extension.heap.at);
      assert all[0..] == all && all[..0] == [];
      for j := 0 to |handles|
        invariant extension.Valid() && |steps| == j
        invariant Progress(true, steps, all, log, start) && Finished(steps) && Holds(base, all[j..])
        invariant Known(extension.heap.at, AllCells(all[..j])) && HandlesOf(steps) == HandlesAt(extension.heap.at, AllCells(all[..j]))
      {
        ghost var step;
        r, step := SleepOne(j, all, base, steps, log, start);
        OneMoreTold(extension.heap.at, all, j, steps, step);
        steps := steps + [step];
        if r != Returned {
          return;
        }
      }
      r := Returned;
      assert all[|all|..] == [] && all[..|all|] == all;
      AllOfOne(Allocation(0, 0, 0, [], []));
      NothingHeld(base);
    }

    lemma NothingHeld(base: Device)
      requires Holds(base, [])
      ensures Now() == base
    {
      NothingElse(base, Now());
    }

    lemma HoldsNothingYet()
      ensures Holds(Now(), [])
    {
      NothingResident(Now());
    }

    lemma OneMoreHeld(base: Device, before: Device, all: seq<Allocation>, j: nat)
      requires j < |all| && Points(extension.heap.at, all[j]) && Known(extension.heap.at, AllCells(all[..j]))
      requires ResidentAt(base, before, AllAddresses(all[..j]), AllSizes(all[..j]), HandlesAt(extension.heap.at, AllCells(all[..j])))
      requires ResidentAt(before, Now(), Addresses(all[j].dMem, all[j].sizes), all[j].sizes, HandlesAt(extension.heap.at, all[j].cells))
      ensures Holds(base, all[..j + 1])
    {
      hide ResidentAt, AllCells, AllSizes, AllAddresses, Addresses, HandlesAt;
      assert all[..j + 1] == all[..j] + [all[j]];
      AllConcat(all[..j], [all[j]]);
      AllOfOne(all[j]);
      KnownConcat(extension.heap.at, AllCells(all[..j]), all[j].cells);
      HandlesConcat(extension.heap.at, AllCells(all[..j]), all[j].cells);
      JoinResident(base, before, Now(), AllAddresses(all[..j]), AllSizes(all[..j]), HandlesAt(extension.heap.at, AllCells(all[..j])),
                   Addresses(all[j].dMem, all[j].sizes), all[j].sizes, HandlesAt(extension.heap.at, all[j].cells));
    }

    /** One round of the loop of wake_up. */
    method WakeOne(j: nat, ghost all: seq<Allocation>, ghost base: Device, ghost steps: seq<Step>, ghost log: seq<Call>, ghost start: Device)
      returns (r: PyReturn, ghost step: Step)
      requires extension.Valid() && Records(all) && j == |steps| < |all|
      requires Progress(false, steps, all, log, start) && Finished(steps) && Holds(base, all[..j])
      modifies extension.allocator`errorCode, extension.allocator.driver`created, extension.allocator.driver`mapped,
        extension.allocator.driver`nextHandle, extension.allocator.driver`log, extension.heap.at.Values
      ensures extension.Valid() && Progress(false, steps + [step], all, log, start)
      ensures Points(extension.heap.at, all[j]) && step.handles == HandlesAt(extension.heap.at, all[j].cells)
      ensures Known(extension.heap.at, AllCells(all[..j]))
      ensures HandlesAt(extension.heap.at, AllCells(all[..j])) == old(HandlesAt(extension.heap.at, AllCells(all[..j])))
      ensures r == if ErrorIn(step) == 0 then Returned else RuntimeError
      ensures r == Returned ==> Holds(base, all[..j + 1])
    {
      hide InC, ParsesTo, WellFormedArgs, Encoded, FirstError, Resident, ResidentAt, LogAfter, StepsSoFar, LogOfSteps, Complete, Undone,
        ErrorOf, HandlesAt, Heap.Valid, AllCells, AllSizes, AllAddresses, Addresses, Minus, ErrorIn, Distinct, After, Leaked;
      ghost var a := all[j];
      Recorded(all, j);
      OnlyItself(handles[j], a);
      OtherCells(extension.heap, AllCells(all[..j]), a);
      ghost var before, earlier := Now(), HandlesAt(extension.heap.at, AllCells(all[..j]));
      HandlesThere(extension.heap.at, AllCells(all[..j]));
      ghost var b, s;
      r, b, s := extension.PythonCreateAndMap(handles[j]);
      SameHandles(extension.heap.at, AllCells(all[..j]), earlier);
      step := Woke(HandlesAt(extension.heap.at, a.cells), s, Now());
      ResidentIs(before, Now(), a.dMem, a.sizes, step.handles);
      WakeIsStep(step, a, before, LogOfSteps(false, log, all, steps, start));
      OneMoreStep(false, log, all, steps, start, step);
      LastIsAfter(steps, step, start);
      if r == Returned {
        OneMoreHeld(base, before, all, j);
      }
    }

    /** wake_up: the allocations one after the other, up to the first error. */
    method WakeUp(ghost all: seq<Allocation>) returns (r: PyReturn, ghost steps: seq<Step>)
      requires extension.Valid() && extension.allocator.errorCode == 0 && Records(all)
      modifies extension.allocator`errorCode, extension.allocator.driver`created, extension.allocator.driver`mapped,
        extension.allocator.driver`nextHandle, extension.allocator.driver`log, extension.heap.at.Values
      ensures extension.Valid() && AreSteps(false, steps, all, old(Now()))
      ensures Progress(false, steps, all, old(extension.allocator.driver.log), old(Now()))
      ensures Known(extension.heap.at, AllCells(all[..|steps|])) && HandlesOf(steps) == HandlesAt(extension.heap.at, AllCells(all[..|steps|]))
      ensures r == if Finished(steps) then Returned else RuntimeError
      ensures r == Returned ==> Holds(old(Now()), all)
    {
      hide InC, Encoded, Points, ResidentAt, StepsSoFar, LogOfSteps, HandlesOf, HandlesAt, Heap.Valid, AllCells, AllSizes, AllAddresses,
        ErrorIn, Distinct, After, Holds;
      ghost var log, start := extension.allocator.driver.log, Now();
      steps := [];
      NoSteps(false, log, all, start);
      NothingTold(extension.heap.at);
      assert all[..0] == [];
      HoldsNothingYet();
      for j := 0 to |handles|
        invariant extension.Valid() && |steps| == j
        invariant Progress(false, steps, all, log, start) && Finished(steps) && Holds(start, all[..j])
        invariant Known(extension.heap.at, AllCells(all[..j])) && HandlesOf(steps) == HandlesAt(extension.heap.at, AllCells(all[..j]))
      {
        ghost var step;
        r, step := WakeOne(j, all, start, steps, log, start);
        OneMoreTold(extension.heap.at, all, j, steps, step);
        steps := steps + [step];
        if r != Returned {
          return;
        }
      }
      r := Returned;
      assert all[..|all|] == all;
    }

    /** Any number of rounds of sleep and wake_up, until something is reported.  The reports account for
        the log and for the device: a sleep without an error restores the base for all allocations, a
        wake-up without an error makes all of them resident again, at the same addresses and with the same
        sizes; and nothing is reported only if all rounds took place. */
    method SleepAndWake(rounds: nat, ghost all: seq<Allocation>, ghost base: Device) returns (r: PyReturn, ghost reports: seq<Report>)
      requires extension.Valid() && extension.allocator.errorCode == 0 && Records(all) && Holds(base, all)
      modifies extension.allocator`errorCode, extension.allocator.driver`created, extension.allocator.driver`mapped,
        extension.allocator.driver`nextHandle, extension.allocator.driver`log, extension.heap.at.Values
      ensures extension.Valid() && extension.allocator.errorCode == 0
      ensures AreReports(reports, all, base, old(Now()))
      ensures extension.allocator.driver.log == LogOfReports(old(extension.allocator.driver.log), all, reports, base, old(Now()))
      ensures Now() == Then(reports, old(Now()))
      ensures r == if Clean(reports) then Returned else RuntimeError
      ensures if r == Returned then |reports| == 2 * rounds && Holds(base, all) else |reports| <= 2 * rounds
    {
      hide InC, Encoded, Points, ResidentAt, StepsSoFar, LogOfSteps, HandlesAt, Heap.Valid, AllCells, AllSizes, AllAddresses, HandlesOf,
        ErrorIn, Distinct, After, Finished, AreReports, LogOfReports, Then, Known;
      ghost var log, start := extension.allocator.driver.log, Now();
      reports := [];
      NoReports(log, all, base, start);
      assert all[..|all|] == all;
      for i := 0 to rounds
        invariant extension.Valid() && extension.allocator.errorCode == 0 && |reports| == 2 * i
        invariant AreReports(reports, all, base, start) && Clean(reports) && Now() == Then(reports, start)
        invariant extension.allocator.driver.log == LogOfReports(log, all, reports, base, start)
        invariant Holds(base, all)
      {
        ghost var steps;
        ghost var before := Now();
        r, steps := Sleep(all, base);
        OneMoreReport(log, all, base, start, reports, Report(true, before, steps));
        reports := reports + [Report(true, before, steps)];
        if r != Returned {
          return;
        }
        before := Now();
        r, steps := WakeUp(all);
        if r == Returned {
          HeldHandles(base, all, steps);
        }
        OneMoreReport(log, all, base, start, reports, Report(false, before, steps));
        reports := reports + [Report(false, before, steps)];
        if r != Returned {
          return;
        }
      }
      r := Returned;
    }

    lemma HeldHandles(base: Device, all: seq<Allocation>, steps: seq<Step>)
      requires Holds(base, all) && Known(extension.heap.at, AllCells(all)) && HandlesOf(steps) == HandlesAt(extension.heap.at, AllCells(all))
      ensures ResidentAt(base, Now(), AllAddresses(all), AllSizes(all), HandlesOf(steps))
    {
      hide ResidentAt, AllCells, AllSizes, AllAddresses, HandlesAt, HandlesOf;
    }
  }

  // ---------------------------------------------------------------- many rounds

  /** One call of sleep or wake_up: the device before it and its steps. */
  datatype Report = Report(asleep: bool, start: Device, steps: seq<Step>)

  function Then(reports: seq<Report>, start: Device): Device {
    if reports == [] then start else
      var last := reports[|reports| - 1];
      After(last.steps, last.start)
  }

  /** No error so far. */
  predicate Clean(reports: seq<Report>) {
    reports == [] || Finished(reports[|reports| - 1].steps)
  }

  /** What a single report says: complete steps, and the state they lead to if nothing failed. */
  ghost predicate IsReport(report: Report, all: seq<Allocation>, base: Device) {
    && AreSteps(report.asleep, report.steps, all, report.start)
    && (Finished(report.steps) && report.asleep ==> After(report.steps, report.start) == base)
    && (Finished(report.steps) && !report.asleep ==>
          ResidentAt(base, After(report.steps, report.start), AllAddresses(all), AllSizes(all), HandlesOf(report.steps)))
  }

  /** Sleeps and wake-ups in turn, each from where the one before ended, none after an error. */
  ghost predicate AreReports(reports: seq<Report>, all: seq<Allocation>, base: Device, start: Device) {
    forall i :: 0 <= i < |reports| ==>
      && IsReport(reports[i], all, base) && (reports[i].asleep <==> i % 2 == 0)
      && reports[i].start == Then(reports[..i], start) && Clean(reports[..i])
  }

  /** The log after these reports. */
  ghost function LogOfReports(log: seq<Call>, all: seq<Allocation>, reports: seq<Report>, base: Device, start: Device): seq<Call>
    requires AreReports(reports, all, base, start)
  {
    if reports == [] then log else
      var n := |reports| - 1;
      assert AreReports(reports[..n], all, base, start) && IsReport(reports[n], all, base) by {
        EarlierReports(reports, all, base, start);
      }
      LogOfSteps(reports[n].asleep, LogOfReports(log, all, reports[..n], base, start), all, reports[n].steps, reports[n].start)
  }

  lemma EarlierReports(reports: seq<Report>, all: seq<Allocation>, base: Device, start: Device)
    requires AreReports(reports, all, base, start) && reports != []
    ensures AreReports(reports[..|reports| - 1], all, base, start) && IsReport(reports[|reports| - 1], all, base)
  {
    hide IsReport, Then, Clean;
    var n := |reports| - 1;
    forall i | 0 <= i < n
      ensures IsReport(reports[..n][i], all, base) && (reports[..n][i].asleep <==> i % 2 == 0)
      ensures reports[..n][i].start == Then(reports[..n][..i], start) && Clean(reports[..n][..i])
    {
      assert reports[..n][..i] == reports[..i] && reports[..n][i] == reports[i];
    }
  }

  lemma NoReports(log: seq<Call>, all: seq<Allocation>, base: Device, start: Device)
    ensures AreReports([], all, base, start) && LogOfReports(log, all, [], base, start) == log && Then([], start) == start
  {
  }

  lemma OneMoreReport(log: seq<Call>, all: seq<Allocation>, base: Device, start: Device, reports: seq<Report>, report: Report)
    requires AreReports(reports, all, base, start) && Clean(reports) && IsReport(report, all, base)
    requires (report.asleep <==> |reports| % 2 == 0) && report.start == Then(reports, start)
    ensures AreReports(reports + [report], all, base, start)
    ensures LogOfReports(log, all, reports + [report], base, start)
         == LogOfSteps(report.asleep, LogOfReports(log, all, reports, base, start), all, report.steps, report.start)
    ensures Then(reports + [report], start) == After(report.steps, report.start)
    ensures Clean(reports + [report]) <==> Finished(report.steps)
  {
    hide After, Finished, ResidentAt, StepsSoFar, LogOfSteps, HandlesOf, AllAddresses, AllSizes;
    var more := reports + [report];
    assert more[..|reports|] == reports;
    forall i | 0 <= i < |more|
      ensures IsReport(more[i], all, base) && (more[i].asleep <==> i % 2 == 0)
      ensures more[i].start == Then(more[..i], start) && Clean(more[..i])
    {
      assert i < |reports| ==> more[..i] == reports[..i] && more[i] == reports[i];
    }
  }

  lemma HandlesThere(at: map<int, HandleCell>, addresses: seq<int>)
    requires Known(at, addresses)
    ensures forall i :: 0 <= i < |addresses| ==> HandlesAt(at, addresses)[i] == at[addresses[i]].handle
  {
  }

  lemma SameHandles(at: map<int, HandleCell>, addresses: seq<int>, earlier: seq<Handle>)
    requires Known(at, addresses) && |earlier| == |addresses|
    requires forall i :: 0 <= i < |addresses| ==> at[addresses[i]].handle == earlier[i]
    ensures HandlesAt(at, addresses) == earlier
  {
  }

  lemma LastIsAfter(steps: seq<Step>, step: Step, start: Device)
    ensures After(steps + [step], start) == step.after && (Finished(steps + [step]) <==> ErrorIn(step) == 0)
  {
  }

  lemma SleepIsStep(step: Step, a: Allocation, before: Device, log: seq<Call>)
    requires step.Slept? && |step.handles| == |step.unmaps| == |step.releases| == |a.cells| == |a.sizes|
    requires FirstError(step.unmaps + step.releases) == 0 <==> step.after == Minus(before, Addresses(a.dMem, a.sizes), step.handles)
    ensures IsStep(true, step, a, before) && ErrorIn(step) == FirstError(step.unmaps + step.releases)
    ensures LogOf(log, a, step) == log + UnmapCalls(a.dMem, a.sizes, step.unmaps) + ReleaseCalls(step.handles, step.releases)
  {
  }

  lemma WakeIsStep(step: Step, a: Allocation, before: Device, log: seq<Call>)
    requires step.Woke? && |step.handles| == |a.cells| == |a.sizes| && Complete(step.s, |a.cells|) && Bounded(step.s, |a.cells|)
    requires if FirstError(step.s.creates) == FirstError(step.s.maps) == 0
             then ResidentAt(before, step.after, Addresses(a.dMem, a.sizes), a.sizes, step.handles)
             else Undone(step.s) <==> step.after == before
    ensures IsStep(false, step, a, before) && ErrorIn(step) == ErrorOf(step.s)
    ensures LogOf(log, a, step) == LogAfter(log, a.dMem, a.size, a.sizes, step.handles, step.s)
    ensures ErrorIn(step) == 0 ==> ResidentAt(before, step.after, Addresses(a.dMem, a.sizes), a.sizes, step.handles)
  {
    ErrorOfParts(step.s);
  }

  /** The handles in the steps are those in the cells. */
  lemma NothingTold(at: map<int, HandleCell>)
    ensures AllCells([]) == [] && Known(at, AllCells([])) && HandlesOf([]) == HandlesAt(at, AllCells([]))
  {
    NoHandles();
    NoCells();
  }

  lemma OneMoreTold(at: map<int, HandleCell>, all: seq<Allocation>, j: nat, steps: seq<Step>, step: Step)
    requires j < |all| && Points(at, all[j]) && step.handles == HandlesAt(at, all[j].cells)
    requires Known(at, AllCells(all[..j])) && HandlesOf(steps) == HandlesAt(at, AllCells(all[..j]))
    ensures Known(at, AllCells(all[..j + 1])) && HandlesOf(steps + [step]) == HandlesAt(at, AllCells(all[..j + 1]))
    ensures AllCells(all[..j + 1]) == AllCells(all[..j]) + all[j].cells
  {
    hide AllCells, AllSizes, AllAddresses, HandlesAt, HandlesOf;
    assert all[..j + 1] == all[..j] + [all[j]];
    AllConcat(all[..j], [all[j]]);
    AllOfOne(all[j]);
    KnownConcat(at, AllCells(all[..j]), all[j].cells);
    HandlesConcat(at, AllCells(all[..j]), all[j].cells);
    HandlesPush(steps, step);
  }

  lemma OtherCells(heap: Heap, addresses: seq<int>, a: Allocation)
    requires heap.Valid() && Known(heap.at, addresses) && Points(heap.at, a) && forall x :: x in addresses ==> x !in a.cells
    ensures forall i :: 0 <= i < |addresses| ==> heap.at[addresses[i]] in heap.at.Values && heap.at[addresses[i]] !in CellsOf(heap.at, a.cells)
  {
    forall i | 0 <= i < |addresses| ensures heap.at[addresses[i]] !in CellsOf(heap.at, a.cells) {
      assert addresses[i] in addresses;
      forall k | 0 <= k < |a.cells| ensures CellsOf(heap.at, a.cells)[k] != heap.at[addresses[i]] {
        var x, y := addresses[i], a.cells[k];
        assert y in a.cells && y in heap.at && x in heap.at && x != y;
        assert heap.at[x] != heap.at[y] && CellsOf(heap.at, a.cells)[k] == heap.at[y];
      }
    }
  }

  lemma AddressCount(a: Allocation)
    ensures |Addresses(a.dMem, a.sizes)| == |a.sizes|
  {
  }

  /** All of these are addresses of cells. */
  ghost predicate Known(at: map<int, HandleCell>, addresses: seq<int>) {
    forall i :: 0 <= i < |addresses| ==> addresses[i] in at
  }

  lemma KnownConcat(at: map<int, HandleCell>, x: seq<int>, y: seq<int>)
    ensures Known(at, x + y) <==> Known(at, x) && Known(at, y)
  {
    assert forall i :: 0 <= i < |x| ==> (x + y)[i] == x[i];
    assert forall i :: 0 <= i < |y| ==> (x + y)[|x| + i] == y[i];
  }

  lemma HandlesConcat(at: map<int, HandleCell>, x: seq<int>, y: seq<int>)
    requires Known(at, x) && Known(at, y)
    ensures Known(at, x + y)
    ensures HandlesAt(at, x + y) == HandlesAt(at, x) + HandlesAt(at, y)
  {
  }

  lemma PointsAt(at: map<int, HandleCell>, a: Allocation, x: int)
    requires Points(at, a) && x in a.cells
    ensures x in at
  {
  }

  lemma {:induction false} CellFrom(all: seq<Allocation>, x: int) returns (i: nat)
    requires x in AllCells(all)
    ensures i < |all| && x in all[i].cells
    decreases |all|
  {
    hide AllSizes, AllAddresses;
    var n := |all| - 1;
    NoCells();
    assert all == all[..n] + [all[n]];
    AllConcat(all[..n], [all[n]]);
    AllOfOne(all[n]);
    if x in all[n].cells {
      i := n;
    } else {
      i := CellFrom(all[..n], x);
    }
  }

  lemma NoCells()
    ensures AllCells([]) == []
  {
  }

  lemma Slices(all: seq<Allocation>, j: nat)
    requires j < |all|
    ensures AllCells(all) == AllCells(all[..j]) + all[j].cells + AllCells(all[j + 1..])
  {
    hide AllCells, AllSizes, AllAddresses;
    assert all == all[..j] + [all[j]] + all[j + 1..];
    AllConcat(all[..j] + [all[j]], all[j + 1..]);
    AllConcat(all[..j], [all[j]]);
    AllOfOne(all[j]);
  }

  lemma DistinctParts<T>(a: seq<T>, b: seq<T>, c: seq<T>)
    requires Distinct(a + b + c)
    ensures Distinct(b) && forall x :: x in a ==> x !in b
  {
    var abc := a + b + c;
    assert forall i :: 0 <= i < |a| ==> abc[i] == a[i];
    assert forall i :: 0 <= i < |b| ==> abc[|a| + i] == b[i];
  }
}
