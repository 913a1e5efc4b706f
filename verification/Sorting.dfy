/** Python's sorted(items, key=key). */
module Sorting {
  import opened Sequences

  predicate Ordered<T>(items: seq<T>, key: T -> int) {
    forall i, j :: 0 <= i < j < |items| ==> key(items[i]) <= key(items[j])
  }

  ghost predicate Precedes<T>(items: seq<T>, x: T, y: T) {
    exists i, j :: 0 <= i < j < |items| && items[i] == x && items[j] == y
  }

  /** The same items by key, those with equal keys in their old order. */
  ghost predicate StableSort<T>(items: seq<T>, sorted: seq<T>, key: T -> int) {
    && Distinct(sorted) && Ordered(sorted, key)
    && (forall x :: x in sorted ==> x in items) && (forall x :: x in items ==> x in sorted)
    && forall i, j :: 0 <= i < j < |sorted| && key(sorted[i]) == key(sorted[j]) ==> Precedes(items, sorted[i], sorted[j])
  }

  /** sorted(items, key=key), by insertion. */
  method SortedBy<T(==)>(items: seq<T>, key: T -> int) returns (sorted: seq<T>)
    requires Distinct(items)
    ensures StableSort(items, sorted, key)
  {
    hide Precedes;
    sorted := [];
    for i := 0 to |items|
      invariant StableSort(items[..i], sorted, key)
    {
      var j := |sorted|;
      while j > 0 && key(items[i]) < key(sorted[j - 1])
        invariant 0 <= j <= |sorted|
        invariant forall k :: j <= k < |sorted| ==> key(items[i]) < key(sorted[k])
      {
        j := j - 1;
      }
      assert items[i] !in items[..i];
      assert items[..i + 1] == items[..i] + [items[i]];
      InsertedStable(items[..i], sorted, items[i], j, key);
      sorted := InsertAt(sorted, j, items[i]);
    }
    assert items[..|items|] == items;
  }

  function InsertAt<T>(sorted: seq<T>, j: nat, x: T): seq<T>
    requires j <= |sorted|
  {
    sorted[..j] + [x] + sorted[j..]
  }

  /** Insertion after every item with a smaller or equal key. */
  lemma InsertedStable<T>(items: seq<T>, sorted: seq<T>, x: T, j: nat, key: T -> int)
    requires StableSort(items, sorted, key) && x !in items && j <= |sorted|
    requires j > 0 ==> key(sorted[j - 1]) <= key(x)
    requires forall k :: j <= k < |sorted| ==> key(x) < key(sorted[k])
    ensures StableSort(items + [x], InsertAt(sorted, j, x), key)
  {
    hide InsertAt, Precedes;
    var after := InsertAt(sorted, j, x);
    InsertedItems(items, sorted, x, j);
    InsertedOrdered(sorted, x, j, key);
    forall m, n | 0 <= m < n < |after| && key(after[m]) == key(after[n])
      ensures Precedes(items + [x], after[m], after[n])
    {
      InsertedPair(items, sorted, x, j, key, m, n);
    }
  }

  lemma InsertedItems<T>(items: seq<T>, sorted: seq<T>, x: T, j: nat)
    requires Distinct(sorted) && x !in items && j <= |sorted|
    requires (forall y :: y in sorted ==> y in items) && (forall y :: y in items ==> y in sorted)
    ensures var after := InsertAt(sorted, j, x);
      && |after| == |sorted| + 1 && Distinct(after)
      && (forall y :: y in after ==> y in items + [x]) && (forall y :: y in items + [x] ==> y in after)
  {
    assert sorted == sorted[..j] + sorted[j..];
    forall k | 0 <= k < |sorted| ensures sorted[k] != x {
      assert sorted[k] in sorted;
    }
  }

  lemma InsertedOrdered<T>(sorted: seq<T>, x: T, j: nat, key: T -> int)
    requires Ordered(sorted, key) && j <= |sorted|
    requires j > 0 ==> key(sorted[j - 1]) <= key(x)
    requires forall k :: j <= k < |sorted| ==> key(x) < key(sorted[k])
    ensures Ordered(InsertAt(sorted, j, x), key)
  {
    assert forall k :: 0 <= k < j ==> key(sorted[k]) <= key(x);
  }

  lemma InsertedPair<T>(items: seq<T>, sorted: seq<T>, x: T, j: nat, key: T -> int, m: nat, n: nat)
    requires StableSort(items, sorted, key) && j <= |sorted| && m < n <= |sorted|
    requires forall k :: j <= k < |sorted| ==> key(x) < key(sorted[k])
    requires var after := InsertAt(sorted, j, x); key(after[m]) == key(after[n])
    ensures var after := InsertAt(sorted, j, x); Precedes(items + [x], after[m], after[n])
  {
    hide Ordered;
    var after := InsertAt(sorted, j, x);
    assert j < n ==> key(x) < key(sorted[n - 1]);
    var all := items + [x];
    if n == j {
      assert after[m] == sorted[m] && sorted[m] in items;
      var k :| 0 <= k < |items| && items[k] == sorted[m];
      assert all[k] == after[m] && all[|items|] == after[n];
    } else if m != j {
      var i, l := if m < j then m else m - 1, if n < j then n else n - 1;
      assert after[m] == sorted[i] && after[n] == sorted[l];
      assert Precedes(items, sorted[i], sorted[l]);
      var a, b :| 0 <= a < b < |items| && items[a] == sorted[i] && items[b] == sorted[l];
      assert all[a] == after[m] && all[b] == after[n];
    }
  }
}
