/** Enumerating a set and ordering a list by a priority, highest first
    (List.Sort with a descending comparator; the order among equal
    priorities is left open, as the underlying sort is not stable). */
module Ordering {

  predicate Distinct<T(==)>(s: seq<T>) {
    forall i, j :: 0 <= i < j < |s| ==> s[i] != s[j]
  }

  predicate SortedDesc<T>(s: seq<T>, prio: T -> int) {
    forall i, j :: 0 <= i < j < |s| ==> prio(s[i]) >= prio(s[j])
  }

  /** Every element of a set exactly once, in some order. */
  method Enumerate<T(==)>(s: set<T>) returns (r: seq<T>)
    ensures |r| == |s|
    ensures forall x :: x in r <==> x in s
    ensures Distinct(r)
  {
    var rest := s;
    r := [];
    while rest != {}
      invariant rest <= s
      invariant forall x :: x in r <==> x in s && x !in rest
      invariant |r| + |rest| == |s|
      invariant Distinct(r)
      decreases |rest|
    {
      var x :| x in rest;
      r := r + [x];
      rest := rest - {x};
    }
  }

  /** Inserting `x` at the first position whose element ranks below it
      keeps a duplicate-free, descending list so. */
  lemma InsertAt<T>(before: seq<T>, pos: int, x: T, prio: T -> int)
    requires 0 <= pos <= |before|
    requires Distinct(before) && SortedDesc(before, prio) && x !in before
    requires forall p :: 0 <= p < pos ==> prio(before[p]) >= prio(x)
    requires pos < |before| ==> prio(before[pos]) < prio(x)
    ensures var after := before[..pos] + [x] + before[pos..];
      && (forall y :: y in after <==> y in before || y == x)
      && Distinct(after) && SortedDesc(after, prio)
  {
    var after := before[..pos] + [x] + before[pos..];
    assert forall k :: 0 <= k < |after| ==>
      after[k] == if k < pos then before[k] else if k == pos then x else before[k - 1];
  }

  /** Insertion sort, highest priority first: the result holds exactly the
      items, each once, in non-increasing priority. */
  method SortByPriority<T(==)>(items: seq<T>, prio: T -> int) returns (sorted: seq<T>)
    requires Distinct(items)
    ensures forall x :: x in sorted <==> x in items
    ensures |sorted| == |items|
    ensures Distinct(sorted)
    ensures SortedDesc(sorted, prio)
  {
    sorted := [];
    var i := 0;
    while i < |items|
      invariant 0 <= i <= |items|
      invariant forall x :: x in sorted <==> x in items[..i]
      invariant |sorted| == i
      invariant Distinct(sorted)
      invariant SortedDesc(sorted, prio)
    {
      var x := items[i];
      var pos := 0;
      while pos < |sorted| && prio(sorted[pos]) >= prio(x)
        invariant 0 <= pos <= |sorted|
        invariant forall p :: 0 <= p < pos ==> prio(sorted[p]) >= prio(x)
      {
        pos := pos + 1;
      }
      assert x !in sorted by {
        assert forall p :: 0 <= p < i ==> items[p] != items[i];
      }
      InsertAt(sorted, pos, x, prio);
      sorted := sorted[..pos] + [x] + sorted[pos..];
      assert items[..i + 1] == items[..i] + [x];
      i := i + 1;
    }
    assert items[..i] == items;
  }
}
