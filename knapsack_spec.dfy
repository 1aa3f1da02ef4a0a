/** The 0/1 knapsack problem shared by the three solvers: the instance, the
    optimum Opt(j, M) as a recurrence, and the fact that Opt(j, M) is the best
    utility of any subset of items 1..j whose weight fits in M. */
module KnapsackSpec {

  /** What every solver assumes of its items without checking them: as many
      utilities as weights, weights of at least 1 and non-negative utilities. */
  predicate ValidItems(w: seq<int>, u: seq<int>) {
    |w| == |u| &&
    (forall i :: 0 <= i < |w| ==> w[i] >= 1) &&
    (forall i :: 0 <= i < |u| ==> u[i] >= 0)
  }

  /** A whole instance: valid items and a non-negative capacity L. */
  predicate ValidInstance(w: seq<int>, u: seq<int>, L: int) {
    ValidItems(w, u) && L >= 0
  }

  /** The larger of a and b. */
  function Max(a: int, b: int): (r: int) {
    if a >= b then a else b
  }

  /** Opt(j, M): the largest utility reachable with items 1..j (1-based, item j
      has weight w[j-1] and utility u[j-1]) within capacity M. */
  function Opt(w: seq<int>, u: seq<int>, j: nat, M: nat): (r: int)
    requires ValidItems(w, u) && j <= |w|
    ensures r >= 0
  {
    if j == 0 then 0
    else if w[j - 1] <= M then Max(Opt(w, u, j - 1, M), u[j - 1] + Opt(w, u, j - 1, M - w[j - 1]))
    else Opt(w, u, j - 1, M)
  }

  /** The value vals[id - 1] of the item with 1-based id `id` (0 for an id
      that names no item). */
  function ValueOf(id: int, vals: seq<int>): (r: int) {
    if 1 <= id <= |vals| then vals[id - 1] else 0
  }

  /** The total of `vals` over the items whose ids are listed in `ids`. */
  function SumOf(ids: seq<int>, vals: seq<int>): (r: int) {
    if ids == [] then 0 else SumOf(ids[..|ids| - 1], vals) + ValueOf(ids[|ids| - 1], vals)
  }

  /** `ids` is a subset of the items 1..j, listed in strictly ascending order. */
  predicate IsSelection(ids: seq<int>, j: int) {
    (forall k :: 0 <= k < |ids| ==> 1 <= ids[k] <= j) &&
    (forall p, q :: 0 <= p < q < |ids| ==> ids[p] < ids[q])
  }

  predicate NonNegative(vals: seq<int>) {
    forall i :: 0 <= i < |vals| ==> vals[i] >= 0
  }

  lemma {:induction false} SumOfNonNegative(ids: seq<int>, vals: seq<int>)
    requires NonNegative(vals)
    ensures SumOf(ids, vals) >= 0
  {
    if ids != [] {
      SumOfNonNegative(ids[..|ids| - 1], vals);
    }
  }

  /** Appending one id adds its value. */
  lemma SumOfSnoc(ids: seq<int>, id: int, vals: seq<int>)
    ensures SumOf(ids + [id], vals) == SumOf(ids, vals) + ValueOf(id, vals)
  {
    assert (ids + [id])[..|ids|] == ids;
  }

  lemma {:induction false} SumOfConcat(a: seq<int>, b: seq<int>, vals: seq<int>)
    ensures SumOf(a + b, vals) == SumOf(a, vals) + SumOf(b, vals)
    decreases |b|
  {
    if b != [] {
      var b' := b[..|b| - 1];
      assert (a + b)[..|a + b| - 1] == a + b';
      SumOfConcat(a, b', vals);
    } else {
      assert a + b == a;
    }
  }

  /** A total over a selection does not depend on the order its ids are listed in. */
  lemma {:induction false} SumOfPermutation(s: seq<int>, t: seq<int>, vals: seq<int>)
    requires multiset(s) == multiset(t)
    ensures SumOf(s, vals) == SumOf(t, vals)
    decreases |s|
  {
    if s != [] {
      var x := s[|s| - 1];
      var s' := s[..|s| - 1];
      assert s == s' + [x];
      assert x in multiset(t);
      var k :| 0 <= k < |t| && t[k] == x;
      var t' := t[..k] + t[k + 1..];
      assert t == t[..k] + [x] + t[k + 1..];
      assert multiset(t') == multiset(t) - multiset{x};
      assert multiset(s') == multiset(s) - multiset{x};
      SumOfPermutation(s', t', vals);
      SumOfConcat(t[..k] + [x], t[k + 1..], vals);
      SumOfConcat(t[..k], t[k + 1..], vals);
      assert (t[..k] + [x])[..k] == t[..k];
    } else {
      assert t == [];
    }
  }

  /** Column 0 and row 0 of the table: no capacity means no item fits
      (every weight is at least 1). */
  lemma {:induction false} OptZeroCapacity(w: seq<int>, u: seq<int>, j: nat)
    requires ValidItems(w, u) && j <= |w|
    ensures Opt(w, u, j, 0) == 0
  {
    if j > 0 {
      OptZeroCapacity(w, u, j - 1);
    }
  }

  /** With no items, or with capacity 0, the optimum is 0. */
  lemma OptEmpty(w: seq<int>, u: seq<int>, L: int)
    requires ValidInstance(w, u, L) && (|w| == 0 || L == 0)
    ensures Opt(w, u, |w|, L) == 0
  {
    if L == 0 {
      OptZeroCapacity(w, u, |w|);
    }
  }

  /** Capacity 0 admits no item at all: the only feasible subset is empty, so
      every solver's chosen list is empty when L = 0. */
  lemma NothingFitsInZero(w: seq<int>, u: seq<int>, j: nat, ids: seq<int>)
    requires ValidItems(w, u) && j <= |w|
    requires IsSelection(ids, j) && SumOf(ids, w) <= 0
    ensures ids == []
  {
    if ids != [] {
      SumOfNonNegative(ids[..|ids| - 1], w);
    }
  }

  /** More capacity never lowers the optimum (so a column of the table, and the
      linear dp vector, are non-decreasing in the capacity). */
  lemma {:induction false} OptMonotoneCapacity(w: seq<int>, u: seq<int>, j: nat, M: nat, M': nat)
    requires ValidItems(w, u) && j <= |w| && M <= M'
    ensures Opt(w, u, j, M) <= Opt(w, u, j, M')
  {
    if j > 0 {
      OptMonotoneCapacity(w, u, j - 1, M, M');
      if w[j - 1] <= M {
        OptMonotoneCapacity(w, u, j - 1, M - w[j - 1], M' - w[j - 1]);
      }
    }
  }

  /** More items never lower the optimum (a row of the table is non-decreasing). */
  lemma {:induction false} OptMonotoneItems(w: seq<int>, u: seq<int>, j: nat, j': nat, M: nat)
    requires ValidItems(w, u) && j <= j' <= |w|
    ensures Opt(w, u, j, M) <= Opt(w, u, j', M)
    decreases j' - j
  {
    if j < j' {
      OptMonotoneItems(w, u, j, j' - 1, M);
    }
  }

  /** No feasible subset of items 1..j beats Opt(j, M). */
  lemma {:induction false} OptUpperBound(w: seq<int>, u: seq<int>, j: nat, M: nat, ids: seq<int>)
    requires ValidItems(w, u) && j <= |w|
    requires IsSelection(ids, j) && SumOf(ids, w) <= M
    ensures SumOf(ids, u) <= Opt(w, u, j, M)
  {
    if j == 0 {
    } else if ids != [] && ids[|ids| - 1] == j {
      var rest := ids[..|ids| - 1];
      assert IsSelection(rest, j - 1) by {
        forall k | 0 <= k < |rest|
          ensures rest[k] <= j - 1
        {
          assert ids[k] < ids[|ids| - 1];
        }
      }
      SumOfNonNegative(rest, w);
      OptUpperBound(w, u, j - 1, M - w[j - 1], rest);
    } else {
      OptUpperBound(w, u, j - 1, M, ids);
    }
  }

  /** A selection from items 1..j - 1 extended with item j is a selection from 1..j. */
  lemma SelectionSnoc(ids: seq<int>, j: int)
    requires j >= 1 && IsSelection(ids, j - 1)
    ensures IsSelection(ids + [j], j)
  {
  }

  /** The subset that walking back from (M, j) picks: item j is in it exactly
      when Opt(j, M) differs from Opt(j - 1, M), and the walk then continues
      from capacity M - w[j-1]. It is feasible and reaches Opt(j, M). */
  function Trace(w: seq<int>, u: seq<int>, j: nat, M: nat): (r: seq<int>)
    requires ValidItems(w, u) && j <= |w|
    ensures IsSelection(r, j)
    ensures SumOf(r, w) <= M
    ensures SumOf(r, u) == Opt(w, u, j, M)
  {
    if j == 0 then []
    else if Opt(w, u, j, M) != Opt(w, u, j - 1, M) then
      var rest := Trace(w, u, j - 1, M - w[j - 1]);
      SumOfSnoc(rest, j, w);
      SumOfSnoc(rest, j, u);
      SelectionSnoc(rest, j);
      rest + [j]
    else Trace(w, u, j - 1, M)
  }

  /** Opt(j, M) is the maximum over feasible subsets: every feasible subset is
      worth at most Opt(j, M), and some feasible subset is worth exactly that. */
  lemma OptIsMaximum(w: seq<int>, u: seq<int>, j: nat, M: nat)
    requires ValidItems(w, u) && j <= |w|
    ensures forall ids :: IsSelection(ids, j) && SumOf(ids, w) <= M ==> SumOf(ids, u) <= Opt(w, u, j, M)
    ensures exists ids :: IsSelection(ids, j) && SumOf(ids, w) <= M && SumOf(ids, u) == Opt(w, u, j, M)
  {
    forall ids | IsSelection(ids, j) && SumOf(ids, w) <= M
      ensures SumOf(ids, u) <= Opt(w, u, j, M)
    {
      OptUpperBound(w, u, j, M, ids);
    }
    var best := Trace(w, u, j, M);
  }
}
