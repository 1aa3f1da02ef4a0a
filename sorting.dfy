/** The in-place list sorts the greedy solver relies on: ranking the items by
    density and putting the chosen ids in ascending order. */
module Sorting {

  /** `less` is a strict weak order: asymmetric, and "not less" is transitive. */
  ghost predicate StrictWeakOrder<T(!new)>(less: (T, T) -> bool) {
    (forall x, y :: less(x, y) ==> !less(y, x)) &&
    (forall x, y, z :: !less(x, y) && !less(y, z) ==> !less(x, z))
  }

  /** No element of `s` is ranked strictly before an element to its left. */
  ghost predicate SortedBy<T>(s: seq<T>, less: (T, T) -> bool) {
    forall p, q :: 0 <= p < q < |s| ==> !less(s[q], s[p])
  }

  /** Every element of `s` is ranked strictly before every element to its right. */
  ghost predicate StrictlySortedBy<T>(s: seq<T>, less: (T, T) -> bool) {
    forall p, q :: 0 <= p < q < |s| ==> less(s[p], s[q])
  }

  predicate Distinct<T(==)>(s: seq<T>) {
    forall p, q :: 0 <= p < q < |s| ==> s[p] != s[q]
  }

  /** Sorts `a` in place by `less` (insertion sort by adjacent swaps). Stability
      is not promised: the greedy ranking does not need it, because its id
      tie-break makes the order strict on items with distinct ids. */
  method SortBy<T(!new)>(a: array<T>, less: (T, T) -> bool)
    requires StrictWeakOrder(less)
    modifies a
    ensures SortedBy(a[..], less)
    ensures multiset(a[..]) == multiset(old(a[..]))
  {
    var i := 0;
    while i < a.Length
      invariant 0 <= i <= a.Length
      invariant SortedBy(a[..i], less)
      invariant multiset(a[..]) == multiset(old(a[..]))
    {
      Insert(a, i, less);
      i := i + 1;
    }
    assert a[..a.Length] == a[..];
  }

  /** Moves a[i] left past every element ranked after it, so that the sorted
      prefix a[..i] grows to a[..i + 1]. */
  method Insert<T(!new)>(a: array<T>, i: nat, less: (T, T) -> bool)
    requires StrictWeakOrder(less)
    requires i < a.Length && SortedBy(a[..i], less)
    modifies a
    ensures SortedBy(a[..i + 1], less)
    ensures multiset(a[..]) == multiset(old(a[..]))
    ensures a[i + 1..] == old(a[i + 1..])
  {
    var j := i;
    while j > 0 && less(a[j], a[j - 1])
      invariant 0 <= j <= i
      invariant multiset(a[..]) == multiset(old(a[..]))
      invariant a[i + 1..] == old(a[i + 1..])
      invariant forall p, q :: 0 <= p < q <= i && p != j && q != j ==> !less(a[q], a[p])
      invariant forall q :: j < q <= i ==> less(a[j], a[q])
    {
      Swap(a, j);
      j := j - 1;
    }
    forall p, q | 0 <= p < q <= i
      ensures !less(a[q], a[p])
    {
      if q == j && p < j - 1 {
        assert !less(a[j - 1], a[p]);
      }
    }
  }

  /** Exchanges a[j - 1] and a[j]. */
  method Swap<T>(a: array<T>, j: nat)
    requires 0 < j < a.Length
    modifies a
    ensures a[..] == old(a[..])[j - 1 := old(a[j])][j := old(a[j - 1])]
    ensures multiset(a[..]) == multiset(old(a[..]))
  {
    a[j - 1], a[j] := a[j], a[j - 1];
  }

  /** Permuting a list without repeats gives a list without repeats. */
  lemma DistinctPermutation<T>(s: seq<T>, t: seq<T>)
    requires multiset(s) == multiset(t) && Distinct(s)
    ensures Distinct(t)
  {
    forall p, q | 0 <= p < q < |t|
      ensures t[p] != t[q]
    {
      if t[p] == t[q] {
        RepeatCount(t, p, q);
        SingleCount(s, t[p]);
      }
    }
  }

  lemma RepeatCount<T>(s: seq<T>, p: int, q: int)
    requires 0 <= p < q < |s| && s[p] == s[q]
    ensures multiset(s)[s[p]] >= 2
  {
    assert s == s[..q] + s[q..];
    assert s[p] in s[..q];
    assert s[q] in s[q..];
  }

  lemma {:induction false} SingleCount<T>(s: seq<T>, x: T)
    requires Distinct(s)
    ensures multiset(s)[x] <= 1
  {
    if s != [] {
      assert s == [s[0]] + s[1..];
      SingleCount(s[1..], x);
      if x == s[0] {
        assert x !in s[1..];
      }
    }
  }

  /** Two lists with the same elements, both strictly sorted by the same
      asymmetric relation, are equal: the sorted order is unique. */
  lemma {:induction false} StrictlySortedUnique<T>(s: seq<T>, t: seq<T>, less: (T, T) -> bool)
    requires forall x, y :: less(x, y) ==> !less(y, x)
    requires multiset(s) == multiset(t)
    requires StrictlySortedBy(s, less) && StrictlySortedBy(t, less)
    ensures s == t
    decreases |s|
  {
    if s == [] {
      assert |t| == |multiset(t)| == 0;
    } else {
      SortedHeads(s, t, less);
      assert s == [s[0]] + s[1..];
      assert t == [t[0]] + t[1..];
      assert multiset(s[1..]) == multiset(s) - multiset{s[0]};
      assert multiset(t[1..]) == multiset(t) - multiset{t[0]};
      StrictlySortedUnique(s[1..], t[1..], less);
    }
  }

  lemma SortedHeads<T>(s: seq<T>, t: seq<T>, less: (T, T) -> bool)
    requires forall x, y :: less(x, y) ==> !less(y, x)
    requires multiset(s) == multiset(t) && s != []
    requires StrictlySortedBy(s, less) && StrictlySortedBy(t, less)
    ensures t != [] && s[0] == t[0]
  {
    assert s[0] in multiset(t);
    var k :| 0 <= k < |t| && t[k] == s[0];
    assert t[0] in multiset(s);
    var m :| 0 <= m < |s| && s[m] == t[0];
  }
}
