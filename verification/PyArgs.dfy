/** The tuples that carry an allocation between C and Python while the memory sleeps. */
module PyArgs {
  import opened ChunkPlan

  datatype PyObject = PyInt(value: int) | PyTuple(items: seq<PyObject>) | PyList(elements: seq<PyObject>) | PyOther

  datatype PyError = TypeError | OverflowError

  /** device, size, d_mem and one (handle cell address, chunk size) pair per chunk. */
  datatype Allocation = Allocation(device: int, size: int, dMem: int, cells: seq<int>, sizes: seq<int>)

  datatype Parsed = Parsed(allocation: Allocation) | Raised(error: PyError)

  predicate IsU64(x: int) { 0 <= x < TWO_64 }

  ghost predicate AllU64(s: seq<int>) {
    forall i :: 0 <= i < |s| ==> IsU64(s[i])
  }

  /** A value that exists on the C side. */
  ghost predicate InC(a: Allocation) {
    IsU64(a.device) && IsU64(a.size) && IsU64(a.dMem) && |a.cells| == |a.sizes| && AllU64(a.cells) && AllU64(a.sizes)
  }

  function Pair(cell: int, size: int): PyObject {
    PyTuple([PyInt(cell), PyInt(size)])
  }

  function Pairs(cells: seq<int>, sizes: seq<int>): seq<PyObject>
    requires |cells| == |sizes|
  {
    seq(|cells|, i requires 0 <= i < |cells| == |sizes| => Pair(cells[i], sizes[i]))
  }

  function Encoded(a: Allocation): PyObject
    requires |a.cells| == |a.sizes|
  {
    PyTuple([PyInt(a.device), PyInt(a.size), PyInt(a.dMem), PyList(Pairs(a.cells, a.sizes))])
  }

  /** Where everything is in the tuple. */
  lemma EncodedPlaces(a: Allocation)
    requires |a.cells| == |a.sizes|
    ensures Encoded(a).PyTuple? && |Encoded(a).items| == 4
    ensures var items := Encoded(a).items;
      && items[0] == PyInt(a.device) && items[1] == PyInt(a.size) && items[2] == PyInt(a.dMem)
      && items[3].PyList? && |items[3].elements| == |a.cells|
      && forall i :: 0 <= i < |a.cells| ==> items[3].elements[i] == PyTuple([PyInt(a.cells[i]), PyInt(a.sizes[i])])
  {
  }

  /** create_tuple_from_c_mixed */
  method CreateTupleFromCMixed(a: Allocation) returns (tuple: PyObject)
    requires |a.cells| == |a.sizes|
    ensures tuple == Encoded(a)
  {
    var list := [];
    for i := 0 to |a.cells|
      invariant list == Pairs(a.cells[..i], a.sizes[..i])
    {
      list := list + [PyTuple([PyInt(a.cells[i]), PyInt(a.sizes[i])])];
    }
    assert a.cells[..|a.cells|] == a.cells && a.sizes[..|a.cells|] == a.sizes;
    tuple := PyTuple([PyInt(a.device), PyInt(a.size), PyInt(a.dMem), PyList(list)]);
  }

  /** PyLong_AsUnsignedLongLong: no conversion, no masking. */
  function AsU64(o: PyObject): Result {
    if !o.PyInt? then Bad(TypeError) else if !IsU64(o.value) then Bad(OverflowError) else Good(o.value)
  }

  datatype Result = Good(value: int) | Bad(error: PyError)

  /** What python_unmap_and_release demands of list item o. */
  predicate IsPair(o: PyObject) {
    o.PyTuple? && |o.items| == 2 && AsU64(o.items[0]).Good? && AsU64(o.items[1]).Good?
  }

  /** A pair of integers that both fit 64 bits. */
  lemma PairExactly(o: PyObject)
    ensures IsPair(o) <==> exists a, b :: o == PyTuple([PyInt(a), PyInt(b)]) && 0 <= a < TWO_64 && 0 <= b < TWO_64
  {
    if IsPair(o) {
      assert o == PyTuple([PyInt(o.items[0].value), PyInt(o.items[1].value)]);
    }
  }

  ghost predicate WellFormedArgs(o: PyObject) {
    && o.PyTuple? && |o.items| == 4
    && o.items[0].PyInt? && o.items[1].PyInt? && o.items[2].PyInt? && o.items[3].PyList?
    && forall i :: 0 <= i < |o.items[3].elements| ==> IsPair(o.items[3].elements[i])
  }

  /** Parsing o yields allocation a ("KKKO": the three integers are masked to 64 bits). */
  ghost predicate ParsesTo(o: PyObject, a: Allocation) {
    && InC(a) && o.PyTuple? && |o.items| == 4
    && o.items[0].PyInt? && U64(o.items[0].value) == a.device
    && o.items[1].PyInt? && U64(o.items[1].value) == a.size
    && o.items[2].PyInt? && U64(o.items[2].value) == a.dMem
    && o.items[3] == PyList(Pairs(a.cells, a.sizes))
  }

  /** The first list item that is not a pair of C values is a pair whose first bad part is an integer
      outside 64 bits. */
  ghost predicate Overflows(items: seq<PyObject>)
    requires |items| == 4 && items[3].PyList?
  {
    && items[0].PyInt? && items[1].PyInt? && items[2].PyInt?
    && exists i :: 0 <= i < |items[3].elements| && (forall k :: 0 <= k < i ==> IsPair(items[3].elements[k]))
         && ItemOverflows(items[3].elements[i])
  }

  predicate ItemOverflows(o: PyObject) {
    && o.PyTuple? && |o.items| == 2
    && ((o.items[0].PyInt? && !IsU64(o.items[0].value))
        || (o.items[0].PyInt? && IsU64(o.items[0].value) && o.items[1].PyInt? && !IsU64(o.items[1].value)))
  }

  /** The argument parsing of python_unmap_and_release. */
  method ParseArgs(o: PyObject) returns (r: Parsed)
    ensures r.Parsed? <==> WellFormedArgs(o)
    ensures r.Parsed? ==> ParsesTo(o, r.allocation)
    ensures r.Raised? ==> (r.error == OverflowError <==> o.PyTuple? && |o.items| == 4 && o.items[3].PyList? && Overflows(o.items))
  {
    if !o.PyTuple? || |o.items| != 4 {
      return Raised(TypeError);
    }
    var args := o.items;
    if !args[0].PyInt? || !args[1].PyInt? || !args[2].PyInt? {
      return Raised(TypeError);
    }
    if !args[3].PyList? {
      return Raised(TypeError);
    }
    var list := args[3].elements;
    var cells: seq<int>, sizes: seq<int> := [], [];
    for i := 0 to |list|
      invariant |cells| == |sizes| == i && AllU64(cells) && AllU64(sizes)
      invariant forall k :: 0 <= k < i ==> IsPair(list[k])
      invariant Pairs(cells, sizes) == list[..i]
    {
      var item := list[i];
      if !item.PyTuple? || |item.items| != 2 {
        return Raised(TypeError);
      }
      var cell, size := AsU64(item.items[0]), AsU64(item.items[1]);
      if cell.Bad? {
        return Raised(cell.error);
      }
      if size.Bad? {
        return Raised(size.error);
      }
      assert item == Pair(cell.value, size.value);
      assert Pairs(cells + [cell.value], sizes + [size.value]) == Pairs(cells, sizes) + [item];
      cells, sizes := cells + [cell.value], sizes + [size.value];
      assert list[..i + 1] == list[..i] + [item];
    }
    assert list[..|list|] == list;
    return Parsed(Allocation(U64(args[0].value), U64(args[1].value), U64(args[2].value), cells, sizes));
  }

  /** Equal pair lists come from equal lists. */
  lemma PairsInjective(cells: seq<int>, sizes: seq<int>, cells': seq<int>, sizes': seq<int>)
    requires |cells| == |sizes| && |cells'| == |sizes'|
    requires Pairs(cells, sizes) == Pairs(cells', sizes')
    ensures cells == cells' && sizes == sizes'
  {
    assert |cells| == |Pairs(cells, sizes)| == |cells'|;
    forall i | 0 <= i < |cells| ensures cells[i] == cells'[i] && sizes[i] == sizes'[i] {
      assert Pairs(cells, sizes)[i] == Pair(cells[i], sizes[i]);
      assert Pairs(cells', sizes')[i] == Pair(cells'[i], sizes'[i]);
      assert Pair(cells[i], sizes[i]).items[0] == PyInt(cells[i]) && Pair(cells[i], sizes[i]).items[1] == PyInt(sizes[i]);
      assert Pair(cells'[i], sizes'[i]).items[0] == PyInt(cells'[i]) && Pair(cells'[i], sizes'[i]).items[1] == PyInt(sizes'[i]);
    }
  }

  /** What C hands to Python is accepted, and parses to that allocation and to no other. */
  lemma RoundTrip(a: Allocation, b: Allocation)
    requires InC(a)
    ensures WellFormedArgs(Encoded(a))
    ensures ParsesTo(Encoded(a), b) <==> b == a
  {
    var list := Pairs(a.cells, a.sizes);
    forall i | 0 <= i < |list| ensures IsPair(list[i]) {
      assert list[i].items[0] == PyInt(a.cells[i]) && list[i].items[1] == PyInt(a.sizes[i]);
    }
    assert Encoded(a).items[0] == PyInt(a.device) && Encoded(a).items[1] == PyInt(a.size);
    assert Encoded(a).items[2] == PyInt(a.dMem) && Encoded(a).items[3] == PyList(list);
    if ParsesTo(Encoded(a), b) {
      PairsInjective(a.cells, a.sizes, b.cells, b.sizes);
    }
  }

  /** An allocation put to sleep and read back. */
  method Survives(a: Allocation) returns (back: Parsed)
    requires InC(a)
    ensures back == Parsed(a)
  {
    var tuple := CreateTupleFromCMixed(a);
    back := ParseArgs(tuple);
    RoundTrip(a, if back.Parsed? then back.allocation else a);
  }
}
