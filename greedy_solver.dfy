/** The approximate solver: rank the items by utility per unit of weight,
    admit each one that still fits in that order, then list the admitted ids
    in ascending order. */
module GreedySolver {
  import opened KnapsackSpec
  import opened Sorting

  type Positive = x: int | x >= 1 witness 1

  /** An entry of the ranking list: the item's 1-based original id, its weight
      and its utility. */
  datatype Item = Item(id: int, weight: Positive, utility: int)

  /** The density u / p the source sorts by, as an exact fraction. */
  function Density(x: Item): real {
    x.utility as real / x.weight as real
  }

  /** u_a * p_b - u_b * p_a: positive when a has the higher density u / p. */
  function Cross(a: Item, b: Item): (r: int) {
    a.utility * b.weight - b.utility * a.weight
  }

  /** The sign of Cross(a, b) is the sign of Density(a) - Density(b): the
      cross-multiplied test orders items as the division does. */
  lemma CrossIsDensityOrder(a: Item, b: Item)
    ensures Cross(a, b) > 0 <==> Density(a) > Density(b)
    ensures Cross(a, b) == 0 <==> Density(a) == Density(b)
  {
    var pa, pb := a.weight as real, b.weight as real;
    var ua, ub := a.utility as real, b.utility as real;
    assert ua / pa == (ua * pb) / (pa * pb);
    assert ub / pb == (ub * pa) / (pa * pb);
    assert Density(a) - Density(b) == Cross(a, b) as real / (pa * pb);
  }

  /** a is considered before b: a has the higher density u / p (compared by
      cross-multiplication, u_a * p_b > u_b * p_a), or the same density and a
      lower original id, as the source's stable descending sort leaves ties in
      their original order. */
  predicate RanksBefore(a: Item, b: Item): (r: bool)
    ensures r <==> Density(a) > Density(b) || (Density(a) == Density(b) && a.id < b.id)
  {
    CrossIsDensityOrder(a, b);
    Cross(a, b) > 0 || (Cross(a, b) == 0 && a.id < b.id)
  }

  lemma CrossIdentity(x: Item, y: Item, z: Item)
    ensures y.weight * Cross(x, z) == z.weight * Cross(x, y) + x.weight * Cross(y, z)
  {
  }

  lemma ScaleSign(k: int, a: int)
    requires k > 0
    ensures (k * a <= 0 <==> a <= 0) && (k * a == 0 <==> a == 0)
  {
  }

  /** Density ties and "not before" chain: if x is not before y and y is not
      before z, then x is not before z. */
  lemma NotBeforeTransitive(x: Item, y: Item, z: Item)
    requires !RanksBefore(x, y) && !RanksBefore(y, z)
    ensures !RanksBefore(x, z)
  {
    CrossIdentity(x, y, z);
    ScaleSign(z.weight, Cross(x, y));
    ScaleSign(x.weight, Cross(y, z));
    ScaleSign(y.weight, Cross(x, z));
  }

  /** The ranking is a strict weak order, so the sort applies to it. */
  lemma RanksBeforeIsStrictWeakOrder()
    ensures StrictWeakOrder(RanksBefore)
  {
    forall x, y, z | !RanksBefore(x, y) && !RanksBefore(y, z)
      ensures !RanksBefore(x, z)
    {
      NotBeforeTransitive(x, y, z);
    }
  }

  /** The ranking list before sorting: item i + 1 at index i. */
  function Catalog(w: seq<int>, u: seq<int>): (r: seq<Item>)
    requires ValidItems(w, u)
    ensures |r| == |w|
    ensures forall i :: 0 <= i < |r| ==> r[i].id == i + 1 && Describes(r[i], w, u)
  {
    seq(|w|, i requires 0 <= i < |w| => Item(i + 1, w[i], u[i]))
  }

  /** x is the entry of the ranking list for one of the items of (w, u). */
  predicate Describes(x: Item, w: seq<int>, u: seq<int>) {
    1 <= x.id <= |w| == |u| && x.weight == w[x.id - 1] && x.utility == u[x.id - 1]
  }

  /** The entries of a ranking describe items of (w, u), with no id twice. */
  predicate WellFormed(ranked: seq<Item>, w: seq<int>, u: seq<int>) {
    (forall k :: 0 <= k < |ranked| ==> Describes(ranked[k], w, u)) &&
    (forall p, q :: 0 <= p < q < |ranked| ==> ranked[p].id != ranked[q].id)
  }

  /** Any reordering of the catalog is well formed. */
  lemma PermutedCatalog(w: seq<int>, u: seq<int>, ranked: seq<Item>)
    requires ValidItems(w, u) && multiset(ranked) == multiset(Catalog(w, u))
    ensures WellFormed(ranked, w, u)
  {
    var cat := Catalog(w, u);
    forall k | 0 <= k < |ranked|
      ensures Describes(ranked[k], w, u)
    {
      assert ranked[k] in multiset(cat);
    }
    assert Distinct(cat);
    DistinctPermutation(cat, ranked);
  }

  /** A well-formed list sorted by RanksBefore is strictly sorted: different ids
      never tie. */
  lemma SortedIsStrict(ranked: seq<Item>, w: seq<int>, u: seq<int>)
    requires WellFormed(ranked, w, u) && SortedBy(ranked, RanksBefore)
    ensures StrictlySortedBy(ranked, RanksBefore)
  {
  }

  /** The state of the knapsack during the scan: weight admitted so far
      (peso_atual), value admitted so far (valor_total), admitted ids in
      admission order (itens_escolhidos). */
  datatype Fill = Fill(load: int, value: int, ids: seq<int>)

  /** First fit over `ranked` into capacity L: each item is admitted when it
      still fits on top of what was admitted before it, and is skipped for
      good otherwise. */
  function Admit(ranked: seq<Item>, L: int): (r: Fill)
    ensures |r.ids| <= |ranked|
    ensures 0 <= r.load && (r.load <= L || r.ids == [])
    ensures r.ids == [] <==> r.load == 0
  {
    if ranked == [] then Fill(0, 0, [])
    else
      var f := Admit(ranked[..|ranked| - 1], L);
      var x := ranked[|ranked| - 1];
      if f.load + x.weight <= L then Fill(f.load + x.weight, f.value + x.utility, f.ids + [x.id])
      else f
  }

  /** What the scan guarantees: the admitted weight is the weight of the
      admitted items and never exceeds L, the value is their utility, and the
      admitted ids are distinct ids of ranked items. */
  lemma AdmitSound(ranked: seq<Item>, w: seq<int>, u: seq<int>, L: int)
    requires ValidInstance(w, u, L) && WellFormed(ranked, w, u)
    ensures Admit(ranked, L).load == SumOf(Admit(ranked, L).ids, w) <= L
    ensures Admit(ranked, L).value == SumOf(Admit(ranked, L).ids, u)
    ensures Distinct(Admit(ranked, L).ids)
    ensures forall k :: 0 <= k < |Admit(ranked, L).ids| ==>
              exists m :: 0 <= m < |ranked| && ranked[m].id == Admit(ranked, L).ids[k]
  {
    AdmitTotals(ranked, w, u, L);
    AdmitDistinct(ranked, L);
  }

  lemma {:induction false} AdmitTotals(ranked: seq<Item>, w: seq<int>, u: seq<int>, L: int)
    requires ValidInstance(w, u, L)
    requires forall k :: 0 <= k < |ranked| ==> Describes(ranked[k], w, u)
    ensures Admit(ranked, L).load == SumOf(Admit(ranked, L).ids, w) <= L
    ensures Admit(ranked, L).value == SumOf(Admit(ranked, L).ids, u)
  {
    if ranked != [] {
      var prefix := ranked[..|ranked| - 1];
      var x := ranked[|ranked| - 1];
      assert forall k :: 0 <= k < |prefix| ==> prefix[k] == ranked[k];
      AdmitTotals(prefix, w, u, L);
      var f := Admit(prefix, L);
      if f.load + x.weight <= L {
        assert Admit(ranked, L) == Fill(f.load + x.weight, f.value + x.utility, f.ids + [x.id]);
        SumOfSnoc(f.ids, x.id, w);
        SumOfSnoc(f.ids, x.id, u);
      } else {
        assert Admit(ranked, L) == f;
      }
    }
  }

  /** The admitted ids are ids of ranked items, each admitted at most once
      when the ranked ids are distinct. */
  lemma {:induction false} AdmitDistinct(ranked: seq<Item>, L: int)
    requires forall p, q :: 0 <= p < q < |ranked| ==> ranked[p].id != ranked[q].id
    ensures Distinct(Admit(ranked, L).ids)
    ensures forall k :: 0 <= k < |Admit(ranked, L).ids| ==>
              exists m :: 0 <= m < |ranked| && ranked[m].id == Admit(ranked, L).ids[k]
  {
    if ranked != [] {
      var prefix := ranked[..|ranked| - 1];
      var x := ranked[|ranked| - 1];
      AdmitDistinct(prefix, L);
      var f := Admit(prefix, L);
      forall k | 0 <= k < |f.ids|
        ensures exists m :: 0 <= m < |ranked| && ranked[m].id == f.ids[k]
      {
        var m :| 0 <= m < |prefix| && prefix[m].id == f.ids[k];
        assert ranked[m].id == f.ids[k];
      }
      if f.load + x.weight <= L {
        var ids := f.ids + [x.id];
        forall p, q | 0 <= p < q < |ids|
          ensures ids[p] != ids[q]
        {
          if q == |ids| - 1 {
            var m :| 0 <= m < |prefix| && prefix[m].id == ids[p];
          }
        }
        assert ranked[|ranked| - 1].id == ids[|ids| - 1];
      }
    }
  }

  /** An item ends up admitted exactly when it fit on top of what had been
      admitted before its turn: an item is skipped only when it does not fit,
      and a skipped item is never reconsidered. */
  lemma {:induction false} AdmittedIff(ranked: seq<Item>, w: seq<int>, u: seq<int>, L: int, k: nat)
    requires ValidInstance(w, u, L) && WellFormed(ranked, w, u) && k < |ranked|
    ensures ranked[k].id in Admit(ranked, L).ids <==> Admit(ranked[..k], L).load + ranked[k].weight <= L
    decreases |ranked|
  {
    var prefix := ranked[..|ranked| - 1];
    var x := ranked[|ranked| - 1];
    var f := Admit(prefix, L);
    assert Admit(ranked, L).ids == if f.load + x.weight <= L then f.ids + [x.id] else f.ids;
    if k < |ranked| - 1 {
      assert WellFormed(prefix, w, u);
      AdmittedIff(prefix, w, u, L, k);
      assert prefix[..k] == ranked[..k];
      assert ranked[k].id != x.id;
    } else {
      assert ranked[..k] == prefix;
      AdmitDistinct(prefix, L);
    }
  }

  /** Builds the ranking list, one entry per item in original order. */
  method BuildCatalog(w: seq<int>, u: seq<int>) returns (items: array<Item>)
    requires ValidItems(w, u)
    ensures fresh(items) && items[..] == Catalog(w, u)
  {
    var n := |w|;
    items := new Item[n];
    var i := 0;
    while i < n
      invariant 0 <= i <= n
      invariant items[..i] == Catalog(w, u)[..i]
    {
      items[i] := Item(i + 1, w[i], u[i]);
      i := i + 1;
    }
    assert items[..] == items[..n];
  }

  /** The admission scan: peso_atual, valor_total and itens_escolhidos as
      first fit over the ranked list leaves them. */
  method Scan(items: array<Item>, L: int) returns (load: int, total: int, picked: seq<int>)
    ensures Fill(load, total, picked) == Admit(items[..], L)
  {
    load, total, picked := 0, 0, [];
    var k := 0;
    while k < items.Length
      invariant 0 <= k <= items.Length
      invariant Fill(load, total, picked) == Admit(items[..k], L)
    {
      var item := items[k];
      assert items[..k + 1][..k] == items[..k];
      if load + item.weight <= L {
        load := load + item.weight;
        total := total + item.utility;
        picked := picked + [item.id];
      }
      k := k + 1;
    }
    assert items[..] == items[..items.Length];
  }

  /** What the greedy result is worth: the admitted ids, once sorted, form a
      feasible selection whose utility is the admitted value, so it is at
      most the optimum. */
  lemma GreedyFeasible(w: seq<int>, u: seq<int>, L: int, ranked: seq<Item>, chosen: seq<int>)
    requires ValidInstance(w, u, L)
    requires multiset(ranked) == multiset(Catalog(w, u))
    requires multiset(chosen) == multiset(Admit(ranked, L).ids)
    requires forall p, q :: 0 <= p < q < |chosen| ==> chosen[p] <= chosen[q]
    ensures IsSelection(chosen, |w|)
    ensures SumOf(chosen, w) <= L
    ensures SumOf(chosen, u) == Admit(ranked, L).value
    ensures Admit(ranked, L).value <= Opt(w, u, |w|, L)
  {
    var picked := Admit(ranked, L).ids;
    PermutedCatalog(w, u, ranked);
    AdmitSound(ranked, w, u, L);
    DistinctPermutation(picked, chosen);
    forall m | 0 <= m < |chosen|
      ensures 1 <= chosen[m] <= |w|
    {
      assert chosen[m] in multiset(picked);
      var r :| 0 <= r < |picked| && picked[r] == chosen[m];
      var s :| 0 <= s < |ranked| && ranked[s].id == picked[r];
    }
    SumOfPermutation(chosen, picked, w);
    SumOfPermutation(chosen, picked, u);
    OptUpperBound(w, u, |w|, L, chosen);
  }

  /** The solver. `ranked` is the ranking list after the sort: a reordering of
      the catalog, strictly ordered by RanksBefore. The scan admits items in
      that order; `chosen` lists the admitted ids in ascending order. The
      selection is feasible, `value` is its utility, and so it never exceeds
      the optimum. */
  method Solve(w: seq<int>, u: seq<int>, L: int) returns (value: int, chosen: seq<int>, ghost ranked: seq<Item>)
    requires ValidInstance(w, u, L)
    ensures multiset(ranked) == multiset(Catalog(w, u))
    ensures StrictlySortedBy(ranked, RanksBefore)
    ensures value == Admit(ranked, L).value
    ensures multiset(chosen) == multiset(Admit(ranked, L).ids)
    ensures IsSelection(chosen, |w|)
    ensures SumOf(chosen, w) <= L
    ensures value == SumOf(chosen, u)
    ensures value <= Opt(w, u, |w|, L)
  {
    var items := BuildCatalog(w, u);
    RanksBeforeIsStrictWeakOrder();
    SortBy(items, RanksBefore);
    ranked := items[..];
    PermutedCatalog(w, u, ranked);
    SortedIsStrict(ranked, w, u);

    var load, total, picked := Scan(items, L);
    var ids := new int[|picked|](j requires 0 <= j < |picked| => picked[j]);
    assert ids[..] == picked;
    SortBy(ids, (x: int, y: int) => x < y);
    chosen := ids[..];
    value := total;
    GreedyFeasible(w, u, L, ranked, chosen);
  }

  /** Weights [1, 2, 4, 5], utilities [2, 3, 3, 4], capacity 6: the densities
      rank the items 1, 2, 4, 3; items 1 and 2 are admitted and items 4 and 3
      no longer fit, so the value is 5, below the optimum 6. */
  method Example() returns (value: int, chosen: seq<int>)
    ensures value == 5 && chosen == [1, 2]
    ensures value < Opt([1, 2, 4, 5], [2, 3, 3, 4], 4, 6)
  {
    ghost var ranked;
    value, chosen, ranked := Solve([1, 2, 4, 5], [2, 3, 3, 4], 6);
    ExampleRanking(ranked);
    ExampleAdmission();
    ExampleChosen(chosen);
    assert Opt([1, 2, 4, 5], [2, 3, 3, 4], 4, 6) == 6;
  }

  /** On the example the ranking is forced: items 1, 2, 4, 3. */
  lemma ExampleRanking(ranked: seq<Item>)
    requires multiset(ranked) == multiset(Catalog([1, 2, 4, 5], [2, 3, 3, 4]))
    requires StrictlySortedBy(ranked, RanksBefore)
    ensures ranked == ExampleOrder()
  {
    ExampleOrderIsSorted();
    RanksBeforeIsStrictWeakOrder();
    StrictlySortedUnique(ranked, ExampleOrder(), RanksBefore);
  }

  function ExampleOrder(): (r: seq<Item>) {
    [Item(1, 1, 2), Item(2, 2, 3), Item(4, 5, 4), Item(3, 4, 3)]
  }

  lemma ExampleOrderIsSorted()
    ensures multiset(ExampleOrder()) == multiset(Catalog([1, 2, 4, 5], [2, 3, 3, 4]))
    ensures StrictlySortedBy(ExampleOrder(), RanksBefore)
  {
    var catalog := [Item(1, 1, 2), Item(2, 2, 3), Item(3, 4, 3), Item(4, 5, 4)];
    assert Catalog([1, 2, 4, 5], [2, 3, 3, 4]) == catalog;
    ExampleOrderIsPermutation(catalog);
    var r := ExampleOrder();
    assert Cross(r[0], r[1]) == 1 && Cross(r[1], r[2]) == 7 && Cross(r[2], r[3]) == 1;
    assert Cross(r[0], r[2]) == 6 && Cross(r[0], r[3]) == 5 && Cross(r[1], r[3]) == 6;
  }

  lemma ExampleOrderIsPermutation(catalog: seq<Item>)
    requires catalog == [Item(1, 1, 2), Item(2, 2, 3), Item(3, 4, 3), Item(4, 5, 4)]
    ensures multiset(ExampleOrder()) == multiset(catalog)
  {
    assert ExampleOrder() == catalog[..2] + [catalog[3]] + [catalog[2]];
    assert catalog == catalog[..2] + [catalog[2]] + [catalog[3]];
  }

  /** On the example, first fit admits items 1 and 2 (weight 3, value 5). */
  lemma ExampleAdmission()
    ensures Admit(ExampleOrder(), 6) == Fill(3, 5, [1, 2])
  {
    var r := ExampleOrder();
    assert r[..0] == [];
    assert r[..1][..0] == r[..0];
    assert r[..2][..1] == r[..1];
    assert r[..3][..2] == r[..2];
    assert r[..3] == r[..4][..3];
    assert r[..4] == r;
    assert Admit(r[..1], 6) == Fill(1, 2, [1]);
    assert Admit(r[..2], 6) == Fill(3, 5, [1, 2]);
    assert Admit(r[..3], 6) == Fill(3, 5, [1, 2]);
  }

  lemma ExampleChosen(chosen: seq<int>)
    requires multiset(chosen) == multiset([1, 2]) && IsSelection(chosen, 4)
    ensures chosen == [1, 2]
  {
    assert |chosen| == |multiset(chosen)| == 2;
    assert chosen[0] in multiset(chosen) && chosen[1] in multiset(chosen);
  }
}
