/** One round of the comparative analysis on a given instance: the two exact
    solvers, their consistency check, and the greedy solver's value against
    the optimum. */
module Comparison {
  import opened KnapsackSpec
  import LinearSolver
  import TabularSolver
  import GreedySolver

  /** Both exact solvers return the same optimum on every valid instance, so
      the consistency check never fails; the greedy value lies between 0 and
      that optimum, so its quality ratio is at most 1. */
  method CompareSolvers(w: seq<int>, u: seq<int>, L: int) returns (linear: int, tabular: int, greedy: int)
    requires ValidInstance(w, u, L)
    ensures linear == tabular == Opt(w, u, |w|, L)
    ensures 0 <= greedy <= linear
  {
    linear := LinearSolver.Solve(w, u, L);
    var chosen, table;
    tabular, chosen, table := TabularSolver.Solve(w, u, L);
    var admitted;
    ghost var ranked;
    greedy, admitted, ranked := GreedySolver.Solve(w, u, L);
    SumOfNonNegative(admitted, u);
  }
}
