/** The sort step of the rebuild, `Array.Sort(spatialLookup, (a, b) => a.z.CompareTo(b.z))`.
    .NET's introspective sort is not modelled: what the rest of the index relies on is
    its result, the entries sorted by key and permuted, with no promise about the order
    of equal keys. Selection sort gives exactly that. */
module Sorting {
  import opened Lookup

  method Swap(a: array<Entry>, i: int, j: int)
    requires 0 <= i < a.Length && 0 <= j < a.Length
    modifies a
    ensures a[i] == old(a[j]) && a[j] == old(a[i])
    ensures forall q :: 0 <= q < a.Length && q != i && q != j ==> a[q] == old(a[q])
    ensures multiset(a[..]) == old(multiset(a[..]))
  {
    a[i], a[j] := a[j], a[i];
  }

  /** The position of a smallest key in a[lo..]. */
  method MinKeyFrom(a: array<Entry>, lo: int) returns (m: int)
    requires 0 <= lo < a.Length
    ensures lo <= m < a.Length
    ensures forall q :: lo <= q < a.Length ==> a[m].key <= a[q].key
  {
    m := lo;
    var q := lo + 1;
    while q < a.Length
      invariant lo <= m < q <= a.Length
      invariant forall r :: lo <= r < q ==> a[m].key <= a[r].key
    {
      if a[q].key < a[m].key {
        m := q;
      }
      q := q + 1;
    }
  }

  /** Sorts the entries by key, in place. */
  method SortByKey(a: array<Entry>)
    modifies a
    ensures SortedByKey(a[..])
    ensures multiset(a[..]) == old(multiset(a[..]))
  {
    var i := 0;
    while i < a.Length
      invariant 0 <= i <= a.Length
      invariant forall p, q :: 0 <= p < q < i ==> a[p].key <= a[q].key
      invariant forall p, q :: 0 <= p < i <= q < a.Length ==> a[p].key <= a[q].key
      invariant multiset(a[..]) == old(multiset(a[..]))
    {
      var m := MinKeyFrom(a, i);
      Swap(a, i, m);
      assert forall q :: i <= q < a.Length ==> a[i].key <= a[q].key;
      i := i + 1;
    }
    assert forall p, q :: 0 <= p < q < a.Length ==> a[..][p].key <= a[..][q].key;
  }
}
