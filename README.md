# 0/1 knapsack: three solvers, one optimum

This project models the core of a small Python study of the 0/1 knapsack
problem. It has three solvers over the same input: a list of weights, a
list of utilities and a capacity L.

- **Linear-space exact DP** (`mochila_espaco_linear`). It keeps one vector
  `dp[0..L]` and updates it in place for each item. Capacities are scanned
  from L down to the item's weight.
- **Tabular exact DP** (`solucao_programacao_dinamica`). It fills the table
  `UT[M][j]` column by column: rows are capacities 0..L, columns are items
  0..n. It then walks back from `UT[L][n]` to recover the chosen items.
- **Greedy approximation** (`algoritmo_guloso`). It ranks items by
  utility/weight, highest first, and admits each item that still fits. It
  returns the admitted ids in ascending order.

All three are specified by one recurrence, `KnapsackSpec.Opt(w, u, j, M)`:
the best utility using items 1..j within capacity M. `OptIsMaximum` proves
that this is the maximum over feasible subsets. A subset is written as a
strictly ascending list of 1-based ids (`IsSelection`), and `SumOf` totals
weights or utilities over such a list.

What is proved:
- the linear solver's vector equals column i of the table after item i;
- every table cell equals `Opt`;
- the backtracked subset is feasible and reaches the optimum exactly;
- both exact solvers return the same value (the harness's consistency check);
- the greedy selection is feasible, ranked by density with ties broken by id,
  and never worth more than the optimum.

Inputs are assumed valid, as the source never checks them (`ValidInstance`):
- equal lengths;
- weights of at least 1;
- non-negative utilities;
- L ≥ 0.

Modules, one per source file or concept:
- `KnapsackSpec` (knapsack_spec.dfy): the shared specification.
- `LinearSolver` (linear_solver.dfy).
- `TabularSolver` (tabular_solver.dfy).
- `Sorting` (sorting.dfy): the in-place list sort the greedy solver calls twice.
- `GreedySolver` (greedy_solver.dfy).
- `Comparison` (comparison.dfy): the consistency check of the comparative harness.

Modelling choices:
- The greedy density `u / p` is a float in the source. Here items are
  compared by integer cross-multiplication: a ranks before b when
  `u_a * p_b > u_b * p_a`. Python's `sort(reverse=True)` is stable, so ties
  keep the original order; that is the id tie-break in `RanksBefore`. With
  that tie-break the order on distinct items is strict. So the sorted list
  is unique (`Sorting.StrictlySortedUnique`), and any correct sort yields
  exactly the list Python's sort yields.
- Python's `list.sort` is modelled by `Sorting.SortBy`, an in-place insertion
  sort over an array. `list.reverse` is modelled by the pure function
  `TabularSolver.Reversed`.
- The backtracking is correct even when several subsets are optimal. Where
  item j could be swapped into another optimal subset, it reports one optimal
  subset and not another; the reported subset still has weight ≤ L and
  utility exactly `UT[L][n]` (`TabularSolver.Recover`).

## Model

| member | source | states |
|---|---|---|
| `KnapsackSpec.Opt` | project/c_prog_dinamica.py:39-56 | the cell recurrence: `max(UT[M][j-1], u_j + UT[M-p_j][j-1])` when `p_j <= M`, else `UT[M][j-1]`, with column 0 equal to 0; the optimum is never negative |
| `KnapsackSpec.OptZeroCapacity` | project/c_prog_dinamica.py:15-31 | row 0 of the table is 0 in every column: with weights of at least 1 nothing fits in capacity 0 |
| `KnapsackSpec.OptEmpty` | project/b_algoritmo_linear.py:8-25 | with no items, or with L = 0, the optimum (and so the returned `dp[L]`) is 0 |
| `KnapsackSpec.NothingFitsInZero` | project/c_prog_dinamica.py:60-72 | with capacity 0 the only feasible subset is the empty one, so the recovered list (and the greedy one) is empty when L = 0 |
| `KnapsackSpec.OptMonotoneCapacity` | project/b_algoritmo_linear.py:6-7 | the best utility within capacity w never decreases as w grows |
| `KnapsackSpec.OptMonotoneItems` | project/c_prog_dinamica.py:39-56 | allowing more items never lowers the optimum: `UT[M][j] >= UT[M][j']` for `j' <= j` |
| `KnapsackSpec.OptUpperBound` | project/c_prog_dinamica.py:19-21 | every subset of items 1..j with weight at most M has utility at most `UT[M][j]` |
| `KnapsackSpec.Trace` | project/c_prog_dinamica.py:60-72 | the subset the walk back picks from (M, j) is a strictly ascending list of ids in 1..j, has weight at most M, and has utility exactly `UT[M][j]` |
| `KnapsackSpec.OptIsMaximum` | project/c_prog_dinamica.py:19-21 | `UT[M][j]` is the maximum utility over feasible subsets of items 1..j: no feasible subset exceeds it and one reaches it |
| `KnapsackSpec.SumOfPermutation` | project/d_algoritmo_aproximado.py:59 | sorting the chosen ids does not change their total weight or utility |
| `LinearSolver.Improved` | project/b_algoritmo_linear.py:17-23 | one item's pass over dp: an entry only ever grows, and entries below the item's weight (the whole vector when the weight exceeds L) stay unchanged |
| `LinearSolver.NextColumn` | project/b_algoritmo_linear.py:21-23 | the guarded overwrite, reading `dp[w - p_i]` from before item i, turns column i of the table into column i + 1 (the 0/1 rule) |
| `LinearSolver.ColumnNonDecreasing` | project/b_algoritmo_linear.py:6-7 | after each item, dp is non-decreasing in the capacity |
| `LinearSolver.Solve` | project/b_algoritmo_linear.py:1-25 | dp starts as L + 1 zeros; after items 1..i, `dp[w] == Opt(i, w)` for every w, entries above the scan position hold the new column and those at or below it the old one; the result `dp[L]` is the optimum |
| `LinearSolver.Example` | project/b_algoritmo_linear.py:39-53 | weights [2,3,4,1], utilities [2,4,5,1], L = 5 give 6 |
| `TabularSolver.Reversed` | project/c_prog_dinamica.py:72 | reversing puts element k at position n - 1 - k |
| `TabularSolver.FillTable` | project/c_prog_dinamica.py:9-56 | the table has L + 1 rows and n + 1 columns, and after the column-by-column, row-by-row fill every cell `UT[M][j]` equals `Opt(j, M)` |
| `TabularSolver.TableShape` | project/c_prog_dinamica.py:15-56 | row 0 and column 0 are 0, and every cell is at least its left neighbour |
| `TabularSolver.RecoverStep` | project/c_prog_dinamica.py:65-70 | one step of the walk back: item j is appended exactly when `Opt(j, M_atual)` differs from `Opt(j - 1, M_atual)`, its weight then fits in `M_atual`, and the full trace stays "trace still to walk" followed by the picked items |
| `TabularSolver.WalkBack` | project/c_prog_dinamica.py:61-70 | the loop from column n down to 1 keeps `M_atual` between 0 and L and ends with the picked items, latest first, forming the whole trace from (L, n) |
| `TabularSolver.WalkDone` | project/c_prog_dinamica.py:72 | once column 0 is reached, reversing the picked items yields the trace from (L, n) |
| `TabularSolver.Recover` | project/c_prog_dinamica.py:60-72 | the reversed list is `Trace(n, L)`: ascending distinct ids in 1..n, total weight at most L, total utility exactly `UT[L][n]` |
| `TabularSolver.Solve` | project/c_prog_dinamica.py:1-74 | returns `valor_otimo == UT[L][n] == Opt(n, L)`, the recovered items with weight ≤ L and utility `valor_otimo`, and the table |
| `TabularSolver.Example` | project/c_prog_dinamica.py:105-118 | weights [1,2,4,5], utilities [2,3,3,4], L = 6 give 6, with items [2, 3] |
| `Sorting.SortBy` | project/d_algoritmo_aproximado.py:42 | the in-place sort leaves the list a permutation of its input, with no element ranked strictly before one on its left |
| `Sorting.DistinctPermutation` | project/d_algoritmo_aproximado.py:59 | sorting a list of distinct ids keeps them distinct |
| `Sorting.StrictlySortedUnique` | project/d_algoritmo_aproximado.py:42 | two strictly sorted arrangements of the same items are equal, so the ranking is determined by the items |
| `GreedySolver.CrossIsDensityOrder` | project/d_algoritmo_aproximado.py:31 | the integer test `u_a * p_b - u_b * p_a` is positive, zero or negative exactly when the exact density `u_a / p_a` is above, equal to or below `u_b / p_b` |
| `GreedySolver.RanksBefore` | project/d_algoritmo_aproximado.py:31-42 | a is ranked before b exactly when `u_a * p_b > u_b * p_a` (a strictly higher density), or the densities are equal and a has the lower id, which is where the stable `sort(reverse=True)` leaves ties |
| `GreedySolver.Catalog` | project/d_algoritmo_aproximado.py:24-38 | `lista_itens` has one entry per item, entry i being item i + 1 with its own weight and utility |
| `GreedySolver.RanksBeforeIsStrictWeakOrder` | project/d_algoritmo_aproximado.py:31-42 | ranking by density with ties to the lower id is a strict weak order, so sorting by it is well defined |
| `GreedySolver.NotBeforeTransitive` | project/d_algoritmo_aproximado.py:31-42 | "not ranked before" is transitive: the cross-multiplied density comparison chains like the division it replaces |
| `GreedySolver.PermutedCatalog` | project/d_algoritmo_aproximado.py:24-42 | every entry of the sorted list is the (id, weight, utility) of one item, and no id occurs twice |
| `GreedySolver.SortedIsStrict` | project/d_algoritmo_aproximado.py:42 | after the sort each entry ranks strictly before every later one: higher density first, equal densities by ascending original id |
| `GreedySolver.Admit` | project/d_algoritmo_aproximado.py:44-56 | first fit over the ranked list: never more admitted ids than items, `peso_atual` never negative and within the capacity once anything is admitted, and zero exactly when nothing is |
| `GreedySolver.AdmitSound` | project/d_algoritmo_aproximado.py:44-56 | `peso_atual` is the weight of the admitted items and never exceeds the capacity, `valor_total` is their utility, and the admitted ids are distinct ids of ranked items |
| `GreedySolver.AdmitTotals` | project/d_algoritmo_aproximado.py:49-56 | by induction over the scan: `peso_atual` and `valor_total` are the total weight and utility of the admitted ids, and the weight stays within the capacity |
| `GreedySolver.AdmitDistinct` | project/d_algoritmo_aproximado.py:49-56 | every admitted id is the id of a scanned item, and no id is admitted twice when the scanned ids are distinct |
| `GreedySolver.AdmittedIff` | project/d_algoritmo_aproximado.py:49-56 | an item is admitted exactly when it fits on top of what was admitted before its turn; a skipped item is never reconsidered |
| `GreedySolver.BuildCatalog` | project/d_algoritmo_aproximado.py:24-38 | the list built before sorting holds item i + 1's (id, weight, utility) at index i |
| `GreedySolver.Scan` | project/d_algoritmo_aproximado.py:44-56 | the loop over the ranked list leaves `peso_atual`, `valor_total` and `itens_escolhidos` as first fit over that list defines them |
| `GreedySolver.GreedyFeasible` | project/d_algoritmo_aproximado.py:53-59 | the sorted admitted ids are ascending, distinct and in 1..n; their weight is at most L; their utility is `valor_total`, which is therefore at most the optimum |
| `GreedySolver.Solve` | project/d_algoritmo_aproximado.py:1-61 | items are scanned in strictly decreasing density order (ties by id), admitted by first fit; the returned ids are ascending, distinct, in 1..n, weigh at most L; the value is their utility and never exceeds `Opt(n, L)` |
| `GreedySolver.ExampleRanking` | project/d_algoritmo_aproximado.py:74-81 | on weights [1,2,4,5] and utilities [2,3,3,4] the only ranking is items 1, 2, 4, 3 |
| `GreedySolver.ExampleAdmission` | project/d_algoritmo_aproximado.py:74-81 | on that ranking with L = 6, items 1 and 2 are admitted (weight 3, value 5) and items 4 and 3 do not fit |
| `GreedySolver.Example` | project/d_algoritmo_aproximado.py:74-88 | the greedy solver returns value 5 with items [1, 2], below the optimum 6 |
| `Comparison.CompareSolvers` | project/g_analise_comparativa.py:53-76 | on every valid instance the linear and tabular optima are equal (so the consistency check at line 66 never fails), and the greedy value lies between 0 and that optimum |

## Left out

- `imprimir_tabela_formatada` (project/c_prog_dinamica.py:76-92): it only prints the table.
- The `__main__` blocks: their data appear only as the `Example` methods and lemmas; printing is not modelled.
- The comparative harness (project/g_analise_comparativa.py): random instance generation (numpy), wall-clock timing, plotting and saving figures are I/O. The float quality ratio at line 75 is left out; `Comparison.CompareSolvers` proves the greedy value lies between 0 and the optimum, so the ratio is at most 1.
- The stress test (project/b_teste_limites.py): timing loops, float growth of sizes and `MemoryError` handling are resource plumbing.
- Float densities (project/d_algoritmo_aproximado.py:31): replaced by exact integer cross-multiplication. Floating-point rounding could order two near-equal densities differently in the source.
- The `p > 0` guard on the density (project/d_algoritmo_aproximado.py:31): weights are required to be at least 1, so the zero-weight branch is never taken.
- Input validation: the source has none. Equal lengths, weights ≥ 1, utilities ≥ 0 and L ≥ 0 are preconditions (`ValidInstance`), not error results.
- Utilities are integers. The source accepts any Python number; non-integer utilities are not modelled.
- The tabular solver returns a Python list of lists; here it is a two-dimensional array.
