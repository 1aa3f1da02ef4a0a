/** The exact solver with the full table UT[M][j] (capacity rows 0..L, item
    columns 0..n) and the walk back from UT[L][n] that recovers the chosen items. */
module TabularSolver {
  import opened KnapsackSpec

  /** The list in reverse order. */
  function Reversed(s: seq<int>): (r: seq<int>)
    ensures |r| == |s|
    ensures forall k :: 0 <= k < |s| ==> r[k] == s[|s| - 1 - k]
  {
    if s == [] then [] else [s[|s| - 1]] + Reversed(s[..|s| - 1])
  }

  lemma ReversedSnoc(s: seq<int>, x: int)
    ensures Reversed(s + [x]) == [x] + Reversed(s)
  {
    assert (s + [x])[..|s|] == s;
  }

  /** The walk back has reached (m, j) having picked `picked` (latest first):
      the full trace is the trace still to walk followed by the picked ids in
      ascending order. */
  ghost predicate WalkedTo(w: seq<int>, u: seq<int>, L: nat, j: nat, m: nat, picked: seq<int>)
    requires ValidItems(w, u) && j <= |w|
  {
    Trace(w, u, |w|, L) == Trace(w, u, j, m) + Reversed(picked)
  }

  /** One step of the walk back from (m, j): item j is taken exactly when
      Opt(j, m) differs from Opt(j - 1, m), and then m drops by its weight. */
  lemma RecoverStep(w: seq<int>, u: seq<int>, L: nat, j: nat, m: nat, picked: seq<int>, taken: bool)
    requires ValidItems(w, u) && 1 <= j <= |w|
    requires WalkedTo(w, u, L, j, m, picked)
    requires taken == (Opt(w, u, j, m) != Opt(w, u, j - 1, m))
    ensures taken ==> w[j - 1] <= m && WalkedTo(w, u, L, j - 1, m - w[j - 1], picked + [j])
    ensures !taken ==> WalkedTo(w, u, L, j - 1, m, picked)
  {
    if taken {
      TraceTakes(w, u, j, m);
      var rest := Trace(w, u, j - 1, m - w[j - 1]);
      ReversedSnoc(picked, j);
      assert rest + [j] + Reversed(picked) == rest + ([j] + Reversed(picked));
    } else {
      TraceSkips(w, u, j, m);
    }
  }

  /** Where Opt(j, m) differs from Opt(j - 1, m), item j fits and the trace
      ends with it. */
  lemma TraceTakes(w: seq<int>, u: seq<int>, j: nat, m: nat)
    requires ValidItems(w, u) && 1 <= j <= |w|
    requires Opt(w, u, j, m) != Opt(w, u, j - 1, m)
    ensures w[j - 1] <= m && Trace(w, u, j, m) == Trace(w, u, j - 1, m - w[j - 1]) + [j]
  {
  }

  /** Where Opt(j, m) equals Opt(j - 1, m), item j is not in the trace. */
  lemma TraceSkips(w: seq<int>, u: seq<int>, j: nat, m: nat)
    requires ValidItems(w, u) && 1 <= j <= |w|
    requires Opt(w, u, j, m) == Opt(w, u, j - 1, m)
    ensures Trace(w, u, j, m) == Trace(w, u, j - 1, m)
  {
  }

  /** Fills the table column by column (items j = 1..n), each column row by row
      (capacities M = 1..L); row 0 and column 0 keep their initial zeros. */
  method FillTable(w: seq<int>, u: seq<int>, L: int) returns (UT: array2<int>)
    requires ValidInstance(w, u, L)
    ensures fresh(UT)
    ensures UT.Length0 == L + 1 && UT.Length1 == |w| + 1
    ensures forall M, j {:trigger UT[M, j]} :: 0 <= M <= L && 0 <= j <= |w| ==> UT[M, j] == Opt(w, u, j, M)
  {
    var n := |w|;
    UT := new int[L + 1, n + 1]((M, j) => 0);
    var j := 1;
    while j <= n
      invariant 1 <= j <= n + 1
      invariant forall M, c {:trigger UT[M, c]} :: 0 <= M <= L && 0 <= c < j ==> UT[M, c] == Opt(w, u, c, M)
      invariant forall M, c :: 0 <= M <= L && j <= c <= n ==> UT[M, c] == 0
    {
      var p, v := w[j - 1], u[j - 1];
      OptZeroCapacity(w, u, j);
      var M := 1;
      while M <= L
        invariant 1 <= M <= L + 1
        invariant forall R, c {:trigger UT[R, c]} :: 0 <= R <= L && 0 <= c < j ==> UT[R, c] == Opt(w, u, c, R)
        invariant forall R {:trigger UT[R, j]} :: 0 <= R < M ==> UT[R, j] == Opt(w, u, j, R)
        invariant forall R, c :: 0 <= R <= L && j < c <= n ==> UT[R, c] == 0
      {
        var skip := UT[M, j - 1];
        if p <= M {
          var take := v + UT[M - p, j - 1];
          UT[M, j] := Max(skip, take);
        } else {
          UT[M, j] := skip;
        }
        M := M + 1;
      }
      j := j + 1;
    }
  }

  /** Walks back from (L, n): item j is taken exactly when UT[M][j] differs
      from UT[M][j - 1], and then M drops by its weight (never below 0). The
      items are collected from n down to 1 and reversed at the end. */
  method Recover(w: seq<int>, u: seq<int>, L: int, UT: array2<int>) returns (chosen: seq<int>)
    requires ValidInstance(w, u, L)
    requires UT.Length0 == L + 1 && UT.Length1 == |w| + 1
    requires forall M, j {:trigger UT[M, j]} :: 0 <= M <= L && 0 <= j <= |w| ==> UT[M, j] == Opt(w, u, j, M)
    ensures chosen == Trace(w, u, |w|, L)
    ensures IsSelection(chosen, |w|)
    ensures SumOf(chosen, w) <= L
    ensures SumOf(chosen, u) == UT[L, |w|]
  {
    var picked, m := WalkBack(w, u, L, UT);
    chosen := Reversed(picked);
    WalkDone(w, u, L, m, picked);
  }

  /** The loop of the walk back: from (L, n) down to column 0, collecting the
      taken items latest first. */
  method WalkBack(w: seq<int>, u: seq<int>, L: int, UT: array2<int>) returns (picked: seq<int>, m: nat)
    requires ValidInstance(w, u, L)
    requires UT.Length0 == L + 1 && UT.Length1 == |w| + 1
    requires forall M, j {:trigger UT[M, j]} :: 0 <= M <= L && 0 <= j <= |w| ==> UT[M, j] == Opt(w, u, j, M)
    ensures m <= L && WalkedTo(w, u, L, 0, m, picked)
  {
    picked, m := [], L;
    var j := |w|;
    while j > 0
      invariant 0 <= j <= |w| && m <= L
      invariant WalkedTo(w, u, L, j, m, picked)
    {
      var taken := UT[m, j] != UT[m, j - 1];
      RecoverStep(w, u, L, j, m, picked, taken);
      if taken {
        picked := picked + [j];
        m := m - w[j - 1];
      }
      j := j - 1;
    }
  }

  /** At column 0 nothing is left to walk: the picked ids, reversed, are the trace. */
  lemma WalkDone(w: seq<int>, u: seq<int>, L: nat, m: nat, picked: seq<int>)
    requires ValidItems(w, u) && WalkedTo(w, u, L, 0, m, picked)
    ensures Reversed(picked) == Trace(w, u, |w|, L)
  {
    assert Trace(w, u, 0, m) == [];
    assert [] + Reversed(picked) == Reversed(picked);
  }

  /** The solver: the optimum UT[L][n], the chosen item ids in ascending order,
      and the table itself. */
  method Solve(w: seq<int>, u: seq<int>, L: int) returns (value: int, chosen: seq<int>, UT: array2<int>)
    requires ValidInstance(w, u, L)
    ensures fresh(UT) && UT.Length0 == L + 1 && UT.Length1 == |w| + 1
    ensures forall M, j {:trigger UT[M, j]} :: 0 <= M <= L && 0 <= j <= |w| ==> UT[M, j] == Opt(w, u, j, M)
    ensures value == Opt(w, u, |w|, L)
    ensures chosen == Trace(w, u, |w|, L)
    ensures IsSelection(chosen, |w|) && SumOf(chosen, w) <= L && SumOf(chosen, u) == value
  {
    UT := FillTable(w, u, L);
    value := UT[L, |w|];
    chosen := Recover(w, u, L, UT);
  }

  /** Row 0 and column 0 of the table are zero, and every cell is at least
      its left neighbour. */
  lemma TableShape(w: seq<int>, u: seq<int>, L: nat)
    requires ValidItems(w, u)
    ensures forall j :: 0 <= j <= |w| ==> Opt(w, u, j, 0) == 0
    ensures forall M :: 0 <= M <= L ==> Opt(w, u, 0, M) == 0
    ensures forall M, j :: 0 <= M <= L && 1 <= j <= |w| ==> Opt(w, u, j - 1, M) <= Opt(w, u, j, M)
  {
    forall j | 0 <= j <= |w|
      ensures Opt(w, u, j, 0) == 0
    {
      OptZeroCapacity(w, u, j);
    }
  }

  /** Weights [1, 2, 4, 5], utilities [2, 3, 3, 4], capacity 6: the optimum is
      6, reached by items 2 and 3. */
  method Example() returns (value: int, chosen: seq<int>)
    ensures value == 6 && chosen == [2, 3]
  {
    var UT;
    value, chosen, UT := Solve([1, 2, 4, 5], [2, 3, 3, 4], 6);
    ExampleWalk();
  }

  /** The cells the example's walk back visits, bottom up. */
  lemma ExampleWalk()
    ensures Opt([1, 2, 4, 5], [2, 3, 3, 4], 4, 6) == 6
    ensures Trace([1, 2, 4, 5], [2, 3, 3, 4], 4, 6) == [2, 3]
  {
    var w, u := [1, 2, 4, 5], [2, 3, 3, 4];
    ExampleCells();
    assert Trace(w, u, 1, 0) == [];
    assert Trace(w, u, 2, 2) == [2];
    assert Trace(w, u, 3, 6) == [2, 3];
  }

  lemma ExampleCells()
    ensures Opt([1, 2, 4, 5], [2, 3, 3, 4], 0, 0) == 0
    ensures Opt([1, 2, 4, 5], [2, 3, 3, 4], 1, 0) == 0
    ensures Opt([1, 2, 4, 5], [2, 3, 3, 4], 1, 2) == 2
    ensures Opt([1, 2, 4, 5], [2, 3, 3, 4], 2, 2) == 3
    ensures Opt([1, 2, 4, 5], [2, 3, 3, 4], 2, 6) == 5
    ensures Opt([1, 2, 4, 5], [2, 3, 3, 4], 3, 6) == 6
    ensures Opt([1, 2, 4, 5], [2, 3, 3, 4], 4, 6) == 6
  {
    var w, u := [1, 2, 4, 5], [2, 3, 3, 4];
    assert Opt(w, u, 1, 0) == 0 && Opt(w, u, 1, 1) == 2 && Opt(w, u, 1, 2) == 2;
    assert Opt(w, u, 2, 2) == 3 && Opt(w, u, 2, 6) == 5;
    assert Opt(w, u, 3, 1) == 2 && Opt(w, u, 3, 6) == 6;
  }
}
