/** The exact solver in O(L) space: one vector dp[0..L], updated in place for
    each item with capacities scanned from L down to the item's weight. */
module LinearSolver {
  import opened KnapsackSpec

  /** Entry c of the vector d after one item (weight p, utility v) has been
      processed: the item is taken when it fits and strictly improves d[c].
      The value read at c - p is the one from BEFORE the item, so the item is
      counted at most once (0/1, not unbounded, knapsack). Entries only grow,
      and capacities below p keep their value. */
  function Improved(d: seq<int>, p: int, v: int, c: int): (r: int)
    requires p >= 1 && 0 <= c < |d|
    ensures d[c] <= r
    ensures c < p ==> r == d[c]
  {
    if p <= c && d[c - p] + v > d[c] then d[c - p] + v else d[c]
  }

  /** If d is column i of the table, one pass with item i + 1 yields column i + 1:
      the guarded overwrite computes the recurrence's max. */
  lemma NextColumn(w: seq<int>, u: seq<int>, i: nat, d: seq<int>, c: nat)
    requires ValidItems(w, u) && i < |w| && c < |d|
    requires forall k :: 0 <= k < |d| ==> d[k] == Opt(w, u, i, k)
    ensures Improved(d, w[i], u[i], c) == Opt(w, u, i + 1, c)
  {
  }

  /** The vector is non-decreasing in the capacity: dp[c] <= dp[c'] for c <= c'. */
  lemma ColumnNonDecreasing(w: seq<int>, u: seq<int>, i: nat, d: seq<int>)
    requires ValidItems(w, u) && i <= |w|
    requires forall k :: 0 <= k < |d| ==> d[k] == Opt(w, u, i, k)
    ensures forall c, c' :: 0 <= c <= c' < |d| ==> d[c] <= d[c']
  {
    forall c, c' | 0 <= c <= c' < |d|
      ensures d[c] <= d[c']
    {
      OptMonotoneCapacity(w, u, i, c, c');
    }
  }

  /** The solver: dp starts as L + 1 zeros, item i + 1 turns column i of the
      table into column i + 1 in place, and the answer is dp[L]. */
  method Solve(w: seq<int>, u: seq<int>, L: int) returns (best: int)
    requires ValidInstance(w, u, L)
    ensures best == Opt(w, u, |w|, L)
  {
    var dp := new int[L + 1](_ => 0);
    var n := |w|;
    var i := 0;
    while i < n
      invariant 0 <= i <= n
      invariant forall k :: 0 <= k <= L ==> dp[k] == Opt(w, u, i, k)
    {
      var p, v := w[i], u[i];
      ghost var before := dp[..];
      var c := L;
      // Downward scan: every entry at or below c still holds its value from
      // before item i + 1, in particular the one read at c - p.
      while c >= p
        invariant -1 <= c <= L
        invariant forall k :: c < k <= L ==> dp[k] == Improved(before, p, v, k)
        invariant forall k :: 0 <= k <= c ==> dp[k] == before[k]
      {
        if dp[c - p] + v > dp[c] {
          dp[c] := dp[c - p] + v;
        }
        c := c - 1;
      }
      forall k | 0 <= k <= L
        ensures dp[k] == Opt(w, u, i + 1, k)
      {
        NextColumn(w, u, i, before, k);
      }
      i := i + 1;
    }
    best := dp[L];
  }

  /** Weights [2, 3, 4, 1], utilities [2, 4, 5, 1], capacity 5: the optimum is 6. */
  method Example() returns (best: int)
    ensures best == 6
  {
    best := Solve([2, 3, 4, 1], [2, 4, 5, 1], 5);
  }
}
