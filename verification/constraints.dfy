/** The binary decision variables A[c, r, k] and the constraints that make an assignment feasible:
    eligibility/exclusivity, adjacency support and run support. */
module Constraints {
  import opened Grid
  import opened Runs
  import opened Sums

  /** The three modifier states (ADJ = 0, ROW = 1, COL = 2). A cell holding none is "clear". */
  datatype Mod = Adj | Row | Col

  /** The value of a binary variable. */
  type Bit = x: int | 0 <= x <= 1

  /** A value for every variable A[c, r, k]; only on-grid values are ever read. */
  type Assignment = (int, int, Mod) -> Bit

  /** The number of modifiers that (c, r) holds. */
  function ModSum(A: Assignment, c: int, r: int): int
  {
    A(c, r, Adj) + A(c, r, Row) + A(c, r, Col)
  }

  /** Eligibility for one cell: an active cell holds at most one modifier, any other cell none. */
  predicate EligibleAt(g: Board, A: Assignment, c: int, r: int)
  {
    if IsActive(g, c, r) then ModSum(A, c, r) <= 1 else ModSum(A, c, r) == 0
  }

  /** Eligibility for every cell of the grid. */
  predicate Eligible(g: Board, A: Assignment)
  {
    forall c, r | 0 <= c < Width && 0 <= r < Height :: EligibleAt(g, A, c, r)
  }

  /** A[c, r, k] where (c, r) is on the grid, 0 elsewhere. */
  function SafeGet(A: Assignment, c: int, r: int, k: Mod): Bit
  {
    if InBounds(c, r) then A(c, r, k) else 0
  }

  /** One minus the number of modifiers at (c, r). */
  function NonMod(A: Assignment, c: int, r: int): int
  {
    1 - ModSum(A, c, r)
  }

  /** NonMod for an active cell, 0 for an off-grid or inactive one. */
  function ActiveNonMod(g: Board, A: Assignment, c: int, r: int): int
  {
    if IsActive(g, c, r) then NonMod(A, c, r) else 0
  }

  /** (c, r) is active and holds no modifier. */
  predicate IsOpen(g: Board, A: Assignment, c: int, r: int)
  {
    IsActive(g, c, r) && ModSum(A, c, r) == 0
  }

  /** Under eligibility an active cell holds at most one modifier, so NonMod is 0 or 1,
      and an inactive on-grid cell holds none. */
  lemma EligibleCell(g: Board, A: Assignment, c: int, r: int)
    requires Eligible(g, A)
    requires InBounds(c, r)
    ensures IsActive(g, c, r) ==> NonMod(A, c, r) == 0 || NonMod(A, c, r) == 1
    ensures IsActive(g, c, r) ==> forall k, k' :: k != k' && A(c, r, k) == 1 ==> A(c, r, k') == 0
    ensures !IsActive(g, c, r) ==> forall k :: A(c, r, k) == 0
  {
    assert EligibleAt(g, A, c, r);
    if !IsActive(g, c, r) {
      forall k
        ensures A(c, r, k) == 0
      {
        assert k == Adj || k == Row || k == Col;
      }
    }
  }

  /** Under eligibility ActiveNonMod is the indicator of an open cell: off-grid, inactive and
      modified cells contribute nothing to a support sum, open cells 1. */
  lemma ActiveNonModIsIndicator(g: Board, A: Assignment, c: int, r: int)
    requires Eligible(g, A)
    ensures ActiveNonMod(g, A, c, r) == (if IsOpen(g, A, c, r) then 1 else 0)
  {
    if InBounds(c, r) {
      EligibleCell(g, A, c, r);
    }
  }

  /** Under eligibility SafeGet reads 0 on every off-grid or inactive cell, so such a
      neighbour never adds to a multiplier. */
  lemma SafeGetOffFootprint(g: Board, A: Assignment, c: int, r: int, k: Mod)
    requires Eligible(g, A)
    requires !IsActive(g, c, r)
    ensures SafeGet(A, c, r, k) == 0
  {
    if InBounds(c, r) {
      EligibleCell(g, A, c, r);
    }
  }

  /** The four orthogonal neighbours of (c, r): left, right, up, down. */
  function Neighbours(c: int, r: int): seq<(int, int)>
  {
    [(c - 1, r), (c + 1, r), (c, r - 1), (c, r + 1)]
  }

  /** The left-hand side of the adjacency-support constraint. */
  function NeighbourSupport(g: Board, A: Assignment, c: int, r: int): int
  {
    ActiveNonMod(g, A, c - 1, r) + ActiveNonMod(g, A, c + 1, r)
    + ActiveNonMod(g, A, c, r - 1) + ActiveNonMod(g, A, c, r + 1)
  }

  /** Adjacency support: an ADJ cell needs 3 unmodified active neighbours. */
  predicate AdjSupportAt(g: Board, A: Assignment, c: int, r: int)
  {
    NeighbourSupport(g, A, c, r) >= 3 * A(c, r, Adj)
  }

  /** Column x of row r, weighted by ActiveNonMod. */
  function RowNonMod(g: Board, A: Assignment, r: int): int -> int
  {
    x => ActiveNonMod(g, A, x, r)
  }

  /** Row y of column c, weighted by ActiveNonMod. */
  function ColNonMod(g: Board, A: Assignment, c: int): int -> int
  {
    y => ActiveNonMod(g, A, c, y)
  }

  /** Row-run support: a ROW cell needs 5 unmodified active cells in its horizontal run. */
  predicate RowSupportAt(g: Board, A: Assignment, c: int, r: int)
    requires 0 <= r < |g|
  {
    SumInt(ConnectedHorizontal(g, c, r), RowNonMod(g, A, r)) >= 5 * A(c, r, Row)
  }

  /** Column-run support: a COL cell needs 5 unmodified active cells in its vertical run. */
  predicate ColSupportAt(g: Board, A: Assignment, c: int, r: int)
  {
    SumInt(ConnectedVertical(g, c, r), ColNonMod(g, A, c)) >= 5 * A(c, r, Col)
  }

  /** The whole constraint system on A. */
  predicate Feasible(g: Board, A: Assignment)
  {
    && Eligible(g, A)
    && forall c, r | 0 <= c < Width && 0 <= r < Height && IsActive(g, c, r) ::
         AdjSupportAt(g, A, c, r) && RowSupportAt(g, A, c, r) && ColSupportAt(g, A, c, r)
  }

  /** Open cells of row r, as a predicate on columns. */
  function RowOpen(g: Board, A: Assignment, r: int): int -> bool
  {
    x => IsOpen(g, A, x, r)
  }

  /** Open cells of column c, as a predicate on rows. */
  function ColOpen(g: Board, A: Assignment, c: int): int -> bool
  {
    y => IsOpen(g, A, c, y)
  }

  /** Neighbour i of (c, r) is open. */
  predicate NeighbourOpen(g: Board, A: Assignment, c: int, r: int, i: int)
    requires 0 <= i < 4
  {
    IsOpen(g, A, Neighbours(c, r)[i].0, Neighbours(c, r)[i].1)
  }

  /** The adjacency constraint holds at (c, r) exactly when, if (c, r) is ADJ, no two of its
      four neighbours are blocked (off-grid, inactive or modified): at least 3 of 4 are open. */
  lemma AdjSupportIff(g: Board, A: Assignment, c: int, r: int)
    requires Eligible(g, A)
    ensures AdjSupportAt(g, A, c, r) <==>
      (A(c, r, Adj) == 1 ==>
         forall i, j :: 0 <= i < j < 4 ==> NeighbourOpen(g, A, c, r, i) || NeighbourOpen(g, A, c, r, j))
  {
    ActiveNonModIsIndicator(g, A, c - 1, r);
    ActiveNonModIsIndicator(g, A, c + 1, r);
    ActiveNonModIsIndicator(g, A, c, r - 1);
    ActiveNonModIsIndicator(g, A, c, r + 1);
    assert NeighbourOpen(g, A, c, r, 0) == IsOpen(g, A, c - 1, r);
    assert NeighbourOpen(g, A, c, r, 1) == IsOpen(g, A, c + 1, r);
    assert NeighbourOpen(g, A, c, r, 2) == IsOpen(g, A, c, r - 1);
    assert NeighbourOpen(g, A, c, r, 3) == IsOpen(g, A, c, r + 1);
  }

  /** Summing ActiveNonMod over a row segment counts its open cells. */
  lemma RowSumCountsOpen(g: Board, A: Assignment, r: int, xs: seq<int>)
    requires Eligible(g, A)
    ensures SumInt(xs, RowNonMod(g, A, r)) == Count(xs, RowOpen(g, A, r))
  {
    forall i | 0 <= i < |xs|
      ensures RowNonMod(g, A, r)(xs[i]) == (if RowOpen(g, A, r)(xs[i]) then 1 else 0)
    {
      ActiveNonModIsIndicator(g, A, xs[i], r);
    }
    SumOfIndicator(xs, RowNonMod(g, A, r), RowOpen(g, A, r));
  }

  /** Summing ActiveNonMod over a column segment counts its open cells. */
  lemma ColSumCountsOpen(g: Board, A: Assignment, c: int, ys: seq<int>)
    requires Eligible(g, A)
    ensures SumInt(ys, ColNonMod(g, A, c)) == Count(ys, ColOpen(g, A, c))
  {
    forall i | 0 <= i < |ys|
      ensures ColNonMod(g, A, c)(ys[i]) == (if ColOpen(g, A, c)(ys[i]) then 1 else 0)
    {
      ActiveNonModIsIndicator(g, A, c, ys[i]);
    }
    SumOfIndicator(ys, ColNonMod(g, A, c), ColOpen(g, A, c));
  }

  /** The row-run constraint holds exactly when, if (c, r) is ROW, its horizontal run
      has at least 5 open cells. */
  lemma RowSupportIff(g: Board, A: Assignment, c: int, r: int)
    requires Eligible(g, A)
    requires 0 <= r < |g|
    ensures RowSupportAt(g, A, c, r) <==>
      (A(c, r, Row) == 1 ==> Count(ConnectedHorizontal(g, c, r), RowOpen(g, A, r)) >= 5)
  {
    RowSumCountsOpen(g, A, r, ConnectedHorizontal(g, c, r));
  }

  /** The column-run constraint holds exactly when, if (c, r) is COL, its vertical run
      has at least 5 open cells. */
  lemma ColSupportIff(g: Board, A: Assignment, c: int, r: int)
    requires Eligible(g, A)
    ensures ColSupportAt(g, A, c, r) <==>
      (A(c, r, Col) == 1 ==> Count(ConnectedVertical(g, c, r), ColOpen(g, A, c)) >= 5)
  {
    ColSumCountsOpen(g, A, c, ConnectedVertical(g, c, r));
  }

  /** In a feasible assignment, an ADJ cell has at least 3 open neighbours. */
  lemma AdjacencyNeedsThreeOpenNeighbours(g: Board, A: Assignment, c: int, r: int)
    requires Feasible(g, A)
    requires IsActive(g, c, r)
    requires A(c, r, Adj) == 1
    ensures forall i, j :: 0 <= i < j < 4 ==> NeighbourOpen(g, A, c, r, i) || NeighbourOpen(g, A, c, r, j)
  {
    AdjSupportIff(g, A, c, r);
  }

  /** In a feasible assignment, a run with fewer than 5 cells forbids ROW (horizontal run)
      or COL (vertical run) at its centre. */
  lemma ShortRunsForbidRunModifiers(g: Board, A: Assignment, c: int, r: int)
    requires Feasible(g, A)
    requires IsActive(g, c, r)
    ensures |ConnectedHorizontal(g, c, r)| < 5 ==> A(c, r, Row) == 0
    ensures |ConnectedVertical(g, c, r)| < 5 ==> A(c, r, Col) == 0
  {
    RowSupportIff(g, A, c, r);
    ColSupportIff(g, A, c, r);
  }

  /** Under eligibility the support constraints of a clear cell always hold: only modified
      cells can make an assignment infeasible. */
  lemma ClearCellIsSupported(g: Board, A: Assignment, c: int, r: int)
    requires Eligible(g, A)
    requires 0 <= r < |g|
    requires ModSum(A, c, r) == 0
    ensures AdjSupportAt(g, A, c, r) && RowSupportAt(g, A, c, r) && ColSupportAt(g, A, c, r)
  {
    ActiveNonModIsIndicator(g, A, c - 1, r);
    ActiveNonModIsIndicator(g, A, c + 1, r);
    ActiveNonModIsIndicator(g, A, c, r - 1);
    ActiveNonModIsIndicator(g, A, c, r + 1);
    RowSupportIff(g, A, c, r);
    ColSupportIff(g, A, c, r);
  }
}
