# nec-opt formulation, modelled in Dafny

`opt.py` builds a mixed-integer linear program for placing modifiers on an irregular board.
The board has 17 columns and 8 rows, and each row has its own set of active columns.
Each active cell may hold at most one of three modifiers: ADJ, ROW or COL.
A cell that holds none is *clear*.
A clear cell scores a *multiplier*:
- 1,
- plus 0.4 for each ADJ neighbour,
- plus 0.25 for each ROW cell in its horizontal run,
- plus 0.25 for each COL cell in its vertical run.

A *run* is the maximal stretch of active cells on either side of the cell along one axis.
The product "multiplier if clear, else 0" is linearised with a capped variable `w` and a big-M gate.

The Dafny project models this formulation as pure functions over a board (`seq<set<int>>`) and a total assignment `A : (column, row, modifier) -> {0, 1}`:

- `grid.dfy` (module `Grid`) holds the board `m`, the grid bounds and activity.
- `runs.dfy` (module `Runs`) holds the walk `connected` and the horizontal and vertical runs.
- `constraints.dfy` (module `Constraints`) holds eligibility and exclusivity, `non_mod` / `active_non_mod`, and the adjacency and run support constraints, as a checker for a given assignment.
- `objective.dfy` (module `Scoring`) holds the multiplier, the big-M constraints on `w`, the best `w` for a given assignment, and the objective.
- `bigm.dfy` (module `BigM`) compares the constant M = 2.8 with a bound on every multiplier (see Findings).
- `sums.dfy` (module `Sums`) holds sums and counts over sequences.

The weights 0.4 and 0.25 and M = 2.8 are exact Dafny `real`s.
The solver is not modelled.
For a fixed assignment, the model computes the largest objective that `w` can reach and proves that no feasible `w` does better.
Choosing the assignment is left to the solver.

Where the comments in `opt.py` and its code disagree, the model follows the code:
- the comment at line 27 asks for exactly one modifier, while line 49 allows at most one;
- the comment at lines 29-35 uses weights 1.4/1.25 and no base term 1, while lines 84-96 use 1 + 0.4/0.25.

## Model

| member | source | states |
|---|---|---|
| `Grid.LayoutIsValid` | opt.py:3-12 | the board has 8 rows, and every active column lies in 0..16 |
| `Runs.Connected` | opt.py:61-71 | element i of the walk is start ± i and lies in xs; the next index start ± length does not; so the walk is empty exactly when start is not in xs |
| `Runs.ConnectedIsTheMaximalWalk` | opt.py:61-71 | a sequence is the maximal walk from start through xs if and only if it equals `Connected`, so the walk is unique |
| `Runs.ConnectedMembers` | opt.py:61-71 | x is in the walk iff x lies ahead of start and every index from start to x is in xs |
| `Runs.ConnectedHorizontal` | opt.py:73-76 | the horizontal run never contains c, and every column in it is active in row r |
| `Runs.HorizontalRunMembers` | opt.py:73-76 | column x is in the run iff x differs from c and every column from c (exclusive) to x (inclusive) is active in row r: contiguity and maximality |
| `Runs.ConnectedVertical` | opt.py:78-82 | the vertical run never contains r, and every row y in it is a row of the board with c active |
| `Runs.VerticalRunMembers` | opt.py:78-82 | row y is in the run iff y differs from r and column c is active in every row from r (exclusive) to y (inclusive): the union of the up and down walks |
| `Runs.RunAroundEmpty` | opt.py:73-82 | a run is empty iff neither immediate neighbour on that axis is active |
| `Runs.RunAroundDistinct` | opt.py:73-82 | no column or row occurs twice in a run |
| `Runs.RunLengths` | opt.py:73-82 | on a valid board a horizontal run has at most 16 columns and a vertical run at most 7 rows |
| `Constraints.EligibleCell` | opt.py:47-51 | under eligibility an active cell holds at most one modifier, so `non_mod` is 0 or 1 there; an inactive cell holds none |
| `Constraints.ActiveNonModIsIndicator` | opt.py:101-105 | under eligibility `active_non_mod` is 1 exactly on active unmodified cells and 0 on off-grid, inactive or modified ones |
| `Constraints.SafeGetOffFootprint` | opt.py:53-59 | under eligibility `safe_get` reads 0 on every off-grid or inactive cell |
| `Constraints.AdjSupportIff` | opt.py:108-109 | the adjacency constraint holds iff, when the cell is ADJ, no two of its four neighbours are blocked, i.e. at least 3 of 4 are active and unmodified |
| `Constraints.AdjacencyNeedsThreeOpenNeighbours` | opt.py:108-109 | in a feasible assignment an ADJ cell has at least three active unmodified neighbours |
| `Constraints.RowSupportIff` | opt.py:113 | the row-run constraint holds iff, when the cell is ROW, at least 5 cells of its horizontal run are active and unmodified |
| `Constraints.ColSupportIff` | opt.py:114 | the column-run constraint holds iff, when the cell is COL, at least 5 cells of its vertical run are active and unmodified |
| `Constraints.ShortRunsForbidRunModifiers` | opt.py:111-114 | in a feasible assignment a run shorter than 5 forbids ROW (horizontal) or COL (vertical) at its centre |
| `Constraints.ClearCellIsSupported` | opt.py:107-114 | under eligibility all three support constraints of a clear cell hold, whatever its neighbours hold |
| `Scoring.Multiplier` | opt.py:84-96 | the multiplier is at least 1 and at most 1 + 0.4·4 + 0.25·(horizontal run length) + 0.25·(vertical run length) |
| `Scoring.MultiplierIsOneIff` | opt.py:84-96 | the multiplier is exactly 1 iff no neighbour holds ADJ, no cell of the horizontal run holds ROW and no cell of the vertical run holds COL (so an isolated clear cell scores 1) |
| `Scoring.GateForcesZero` | opt.py:120-122 | a cell holding a modifier admits only w = 0 |
| `Scoring.GateWhenClear` | opt.py:120-122 | at a clear cell w satisfies the constraints iff 0 ≤ w ≤ min(multiplier, M) |
| `Scoring.BestW` | opt.py:118-122 | the best w satisfies the constraints at an eligible cell, and no w that satisfies them is larger |
| `Scoring.BestWIsFeasible` | opt.py:118-122 | for an eligible assignment the best w of every active cell satisfies its big-M constraints |
| `Scoring.BestWIsOptimal` | opt.py:124-127 | no w that satisfies the big-M constraints reaches a larger objective than the best w |
| `Scoring.ModifiedCellScoresZero` | opt.py:120-122 | in any w that satisfies the constraints, a modified active cell contributes 0 |
| `Scoring.ModifiersAtMostActiveCells` | opt.py:47-51 | under eligibility the number of modifiers placed on active cells is at most the number of active cells |
| `Scoring.ObjectiveMono` | opt.py:124-127 | the objective sums w over active cells: raising w on active cells never lowers it, and raising it strictly on one active cell raises it strictly |
| `Scoring.LinearisationExact` | opt.py:116-127 | the big-M optimum never exceeds the bilinear objective (multiplier times clear indicator), and equals it iff M is at least every clear active cell's multiplier |
| `BigM.MultiplierBelowSafeBigM` | opt.py:84-96 | on a valid board every multiplier is at most SafeBigM = 1 + 0.4·4 + 0.25·16 + 0.25·7 |
| `BigM.SafeBigMIsExact` | opt.py:116-122 | with M = SafeBigM the big-M optimum of every eligible assignment is its bilinear objective |
| `BigM.FormulationValue` | opt.py:116-127 | with M = SafeBigM the best w satisfies the constraints, and no such w gives a larger objective, which equals the bilinear objective |
| `BigM.SourceBigMUndervaluesExample` | opt.py:117-122 | with M = 2.8 there is a feasible assignment on the board `m` whose clear cell (15, 4) has multiplier 2.85 but is capped at 2.8, so the big-M optimum is below the bilinear objective |

## Left out

- The Pyomo model objects, `SolverFactory("cbc")`, `solver.solve` and `model.pprint()` (opt.py:37-39, 129-131) are not modelled. They are an external solver. The model checks and scores a given assignment and does not search for the best one.
- The debug `print` calls in `row` and `col` (opt.py:88, 92) are left out because they are output only. So is the text rendering of the solved grid (opt.py:135-150).
- Floating point is not modelled. The weights 0.4 and 0.25 and M = 2.8 are exact reals.
- The grid size stays 17 × 8 as in the source. The board contents are a parameter, and `Layout` is the board `m`.
- Python's negative indexing of `m[r]` is not modelled. `ConnectedHorizontal` requires 0 ≤ r < |board|, and the source only calls it with rows 0..7.
- The source gives `w` a non-negative domain on all 136 cells. `WFeasible` constrains `w` only on active cells, because inactive cells never enter the objective.
- Pyomo's `A` exists only on grid cells. The model's assignment is total. Every off-grid read goes through `SafeGet` or `active_non_mod`, and a run only names active cells, so off-grid values are never used.
- `Scoring.Multiplier`: its contract gives bounds (at least 1, at most the fully-modified value), not the exact formula. The exact value on a concrete case is shown by `BigM.CappedExampleMultiplier`.

## Findings

| source | as written | input that shows it | evidently intended | confidence | as-written member | corrected member |
|---|---|---|---|---|---|---|
| opt.py:117-122 | M = 2.8, so the gate `w <= M * (1 - sum A)` also caps clear cells at 2.8 | board `m`; ADJ on (14,4), (16,4), (15,3), (15,5); COL on (15,0); every other cell clear. This is feasible, and the clear cell (15,4) has multiplier 1 + 4·0.4 + 0.25 = 2.85, but its w can reach only 2.8 | M at least every attainable multiplier (for example 8.35 = 1 + 0.4·4 + 0.25·16 + 0.25·7), so the gate only switches modified cells off and the objective is the sum of multipliers of clear cells | medium; not executed | `BigM.SourceBigMUndervaluesExample` | `BigM.SafeBigMIsExact` |
