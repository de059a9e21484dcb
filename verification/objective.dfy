/** The per-cell multiplier, the big-M linearisation of "multiplier if clear, else 0", and the
    objective that sums the linearised contributions over the active cells. */
module Scoring {
  import opened Grid
  import opened Runs
  import opened Sums
  import opened Constraints

  /** Weight of each ADJ neighbour and of each ROW/COL cell in a run. */
  const AdjWeight: real := 0.4
  const RunWeight: real := 0.25

  /** A non-negative real: the domain of a big-M constant. */
  type NonNegReal = x: real | 0.0 <= x

  /** ADJ modifiers on the four neighbours; off-grid neighbours read as 0. */
  function AdjCount(A: Assignment, c: int, r: int): int
  {
    SafeGet(A, c - 1, r, Adj) + SafeGet(A, c + 1, r, Adj) + SafeGet(A, c, r - 1, Adj) + SafeGet(A, c, r + 1, Adj)
  }

  /** The ROW variable of column x in row r. */
  function RowMods(A: Assignment, r: int): int -> int
  {
    x => A(x, r, Row)
  }

  /** The COL variable of row y in column c. */
  function ColMods(A: Assignment, c: int): int -> int
  {
    y => A(c, y, Col)
  }

  /** ROW modifiers in the horizontal run of (c, r). */
  function RowCount(g: Board, A: Assignment, c: int, r: int): int
    requires 0 <= r < |g|
  {
    SumInt(ConnectedHorizontal(g, c, r), RowMods(A, r))
  }

  /** COL modifiers in the vertical run of (c, r). */
  function ColCount(g: Board, A: Assignment, c: int, r: int): int
  {
    SumInt(ConnectedVertical(g, c, r), ColMods(A, c))
  }

  /** The multiplier of (c, r): 1 + 0.4 per ADJ neighbour + 0.25 per ROW cell in its
      horizontal run + 0.25 per COL cell in its vertical run. It is at least 1 and at most
      what a fully modified neighbourhood and fully modified runs would give. */
  function Multiplier(g: Board, A: Assignment, c: int, r: int): (m: real)
    requires 0 <= r < |g|
    ensures 1.0 <= m
    ensures m <= 1.0 + AdjWeight * 4.0
                 + RunWeight * (|ConnectedHorizontal(g, c, r)| as real)
                 + RunWeight * (|ConnectedVertical(g, c, r)| as real)
  {
    SumOfBits(ConnectedHorizontal(g, c, r), RowMods(A, r));
    SumOfBits(ConnectedVertical(g, c, r), ColMods(A, c));
    1.0 + AdjWeight * (AdjCount(A, c, r) as real)
        + RunWeight * (RowCount(g, A, c, r) as real)
        + RunWeight * (ColCount(g, A, c, r) as real)
  }

  /** The multiplier is its base value 1 exactly when no neighbour holds ADJ, no cell of the
      horizontal run holds ROW and no cell of the vertical run holds COL. */
  lemma MultiplierIsOneIff(g: Board, A: Assignment, c: int, r: int)
    requires 0 <= r < |g|
    ensures Multiplier(g, A, c, r) == 1.0 <==>
      && SafeGet(A, c - 1, r, Adj) == 0 && SafeGet(A, c + 1, r, Adj) == 0
      && SafeGet(A, c, r - 1, Adj) == 0 && SafeGet(A, c, r + 1, Adj) == 0
      && (forall x :: x in ConnectedHorizontal(g, c, r) ==> A(x, r, Row) == 0)
      && (forall y :: y in ConnectedVertical(g, c, r) ==> A(c, y, Col) == 0)
  {
    var hrun := ConnectedHorizontal(g, c, r);
    var vrun := ConnectedVertical(g, c, r);
    SumOfBits(hrun, RowMods(A, r));
    SumOfBits(vrun, ColMods(A, c));
    SumOfNonNegZero(hrun, RowMods(A, r));
    SumOfNonNegZero(vrun, ColMods(A, c));
    assert (forall x :: x in hrun ==> A(x, r, Row) == 0) <==> (forall i :: 0 <= i < |hrun| ==> RowMods(A, r)(hrun[i]) == 0);
    assert (forall y :: y in vrun ==> A(c, y, Col) == 0) <==> (forall i :: 0 <= i < |vrun| ==> ColMods(A, c)(vrun[i]) == 0);
  }

  /** The constraints on w at a cell with multiplier mult that holds s modifiers:
      w >= 0, w <= mult and w <= M * (1 - s). */
  predicate GateHolds(M: real, mult: real, s: int, w: real)
  {
    0.0 <= w && w <= mult && w <= M * ((1 - s) as real)
  }

  function Min(a: real, b: real): real
  {
    if a <= b then a else b
  }

  /** A cell that holds a modifier can only take w = 0. */
  lemma GateForcesZero(M: NonNegReal, mult: real, s: int, w: real)
    requires s >= 1
    requires GateHolds(M, mult, s, w)
    ensures w == 0.0
  {
    var k := (s - 1) as real;
    assert M * ((1 - s) as real) == -(M * k);
    assert 0.0 <= M * k;
  }

  /** At a clear cell the feasible w are exactly 0 .. min(mult, M): the largest is min(mult, M). */
  lemma GateWhenClear(M: NonNegReal, mult: real, w: real)
    requires 0.0 <= mult
    ensures GateHolds(M, mult, 0, w) <==> 0.0 <= w <= Min(mult, M)
  {
  }

  /** The largest w the constraints allow at (c, r): it satisfies them whenever the cell is
      eligible, and no w that satisfies them is larger. */
  function BestW(g: Board, A: Assignment, M: NonNegReal, c: int, r: int): (v: real)
    requires 0 <= r < |g|
    ensures ModSum(A, c, r) <= 1 ==> GateHolds(M, Multiplier(g, A, c, r), ModSum(A, c, r), v)
    ensures forall w :: GateHolds(M, Multiplier(g, A, c, r), ModSum(A, c, r), w) ==> w <= v
  {
    var mult := Multiplier(g, A, c, r);
    if ModSum(A, c, r) == 0 then
      GateWhenClear(M, mult, Min(mult, M));
      assert forall w :: GateHolds(M, mult, 0, w) ==> w <= Min(mult, M) by {
        forall w | GateHolds(M, mult, 0, w)
          ensures w <= Min(mult, M)
        {
          GateWhenClear(M, mult, w);
        }
      }
      Min(mult, M)
    else
      assert forall w :: GateHolds(M, mult, ModSum(A, c, r), w) ==> w <= 0.0 by {
        forall w | GateHolds(M, mult, ModSum(A, c, r), w)
          ensures w <= 0.0
        {
          GateForcesZero(M, mult, ModSum(A, c, r), w);
        }
      }
      assert ModSum(A, c, r) == 1 ==> GateHolds(M, mult, ModSum(A, c, r), 0.0) by {
        if ModSum(A, c, r) == 1 {
          assert ((1 - ModSum(A, c, r)) as real) == 0.0;
        }
      }
      0.0
  }

  /** The best w at every active cell, 0 elsewhere. */
  function BestWOf(g: Board, A: Assignment, M: NonNegReal): (int, int) -> real
  {
    (c, r) => if IsActive(g, c, r) then BestW(g, A, M, c, r) else 0.0
  }

  /** w satisfies the big-M constraints at every active cell. */
  predicate WFeasible(g: Board, A: Assignment, M: real, w: (int, int) -> real)
  {
    forall c, r | 0 <= c < Width && 0 <= r < Height && IsActive(g, c, r) ::
      GateHolds(M, Multiplier(g, A, c, r), ModSum(A, c, r), w(c, r))
  }

  /** Sum of w over the active cells of row r from column c on. */
  function ColsFrom(g: Board, w: (int, int) -> real, r: int, c: int): real
    decreases Width - c
  {
    if c >= Width then 0.0
    else (if IsActive(g, c, r) then w(c, r) else 0.0) + ColsFrom(g, w, r, c + 1)
  }

  /** Sum of w over the active cells of rows r .. Height - 1. */
  function RowsFrom(g: Board, w: (int, int) -> real, r: int): real
    decreases Height - r
  {
    if r >= Height then 0.0 else ColsFrom(g, w, r, 0) + RowsFrom(g, w, r + 1)
  }

  /** The sum of a per-cell quantity over the active cells. */
  function ActiveSum(g: Board, w: (int, int) -> real): real
  {
    RowsFrom(g, w, 0)
  }

  /** The objective: the sum of the big-M variables w over the active cells. */
  function Objective(g: Board, w: (int, int) -> real): real
  {
    ActiveSum(g, w)
  }

  /** w1 <= w2 on the active cells of a row implies the same for their sums. */
  lemma {:induction false} ColsFromMono(g: Board, w1: (int, int) -> real, w2: (int, int) -> real, r: int, c: int)
    requires forall x :: IsActive(g, x, r) ==> w1(x, r) <= w2(x, r)
    ensures ColsFrom(g, w1, r, c) <= ColsFrom(g, w2, r, c)
    decreases Width - c
  {
    if c < Width {
      ColsFromMono(g, w1, w2, r, c + 1);
    }
  }

  /** ... and strictly, when the active cell x at or after c is strictly smaller. */
  lemma {:induction false} ColsFromStrict(g: Board, w1: (int, int) -> real, w2: (int, int) -> real, r: int, c: int, x: int)
    requires forall x :: IsActive(g, x, r) ==> w1(x, r) <= w2(x, r)
    requires c <= x && IsActive(g, x, r) && w1(x, r) < w2(x, r)
    ensures ColsFrom(g, w1, r, c) < ColsFrom(g, w2, r, c)
    decreases Width - c
  {
    if x == c {
      ColsFromMono(g, w1, w2, r, c + 1);
    } else {
      ColsFromStrict(g, w1, w2, r, c + 1, x);
    }
  }

  /** w1 is at most w2 on every active cell. */
  ghost predicate Below(g: Board, w1: (int, int) -> real, w2: (int, int) -> real)
  {
    forall x, y :: IsActive(g, x, y) ==> w1(x, y) <= w2(x, y)
  }

  /** Row-by-row form of ObjectiveMono. */
  lemma {:induction false} RowsFromMono(g: Board, w1: (int, int) -> real, w2: (int, int) -> real, r: int)
    requires Below(g, w1, w2)
    ensures RowsFrom(g, w1, r) <= RowsFrom(g, w2, r)
    decreases Height - r
  {
    if r < Height {
      ColsFromMono(g, w1, w2, r, 0);
      RowsFromMono(g, w1, w2, r + 1);
    }
  }

  /** ... and strictly, when the active cell (x, y) with y at or after r is strictly smaller. */
  lemma {:induction false} RowsFromStrict(g: Board, w1: (int, int) -> real, w2: (int, int) -> real, r: int, x: int, y: int)
    requires Below(g, w1, w2)
    requires r <= y && IsActive(g, x, y) && w1(x, y) < w2(x, y)
    ensures RowsFrom(g, w1, r) < RowsFrom(g, w2, r)
    decreases Height - r
  {
    var here1, rest1 := ColsFrom(g, w1, r, 0), RowsFrom(g, w1, r + 1);
    var here2, rest2 := ColsFrom(g, w2, r, 0), RowsFrom(g, w2, r + 1);
    assert RowsFrom(g, w1, r) == here1 + rest1 && RowsFrom(g, w2, r) == here2 + rest2;
    if y == r {
      assert here1 < here2 && rest1 <= rest2 by {
        ColsFromStrict(g, w1, w2, r, 0, x);
        RowsFromMono(g, w1, w2, r + 1);
      }
    } else {
      assert here1 <= here2 && rest1 < rest2 by {
        ColsFromMono(g, w1, w2, r, 0);
        RowsFromStrict(g, w1, w2, r + 1, x, y);
      }
    }
  }

  /** Raising w on active cells never lowers the objective; raising it strictly on one active
      cell raises the objective strictly. */
  lemma ObjectiveMono(g: Board, w1: (int, int) -> real, w2: (int, int) -> real)
    requires forall x, y :: IsActive(g, x, y) ==> w1(x, y) <= w2(x, y)
    ensures Objective(g, w1) <= Objective(g, w2)
    ensures (exists x, y :: IsActive(g, x, y) && w1(x, y) < w2(x, y)) ==> Objective(g, w1) < Objective(g, w2)
  {
    RowsFromMono(g, w1, w2, 0);
    if exists x, y :: IsActive(g, x, y) && w1(x, y) < w2(x, y) {
      var x, y :| IsActive(g, x, y) && w1(x, y) < w2(x, y);
      RowsFromStrict(g, w1, w2, 0, x, y);
    }
  }

  /** The objective only reads w on active cells. */
  lemma ObjectiveExt(g: Board, w1: (int, int) -> real, w2: (int, int) -> real)
    requires forall x, y :: IsActive(g, x, y) ==> w1(x, y) == w2(x, y)
    ensures Objective(g, w1) == Objective(g, w2)
  {
    ObjectiveMono(g, w1, w2);
    ObjectiveMono(g, w2, w1);
  }

  /** For an eligible assignment the best w of every cell satisfies the big-M constraints. */
  lemma BestWIsFeasible(g: Board, A: Assignment, M: NonNegReal)
    requires Eligible(g, A)
    ensures WFeasible(g, A, M, BestWOf(g, A, M))
  {
    forall c, r | 0 <= c < Width && 0 <= r < Height && IsActive(g, c, r)
      ensures GateHolds(M, Multiplier(g, A, c, r), ModSum(A, c, r), BestWOf(g, A, M)(c, r))
    {
      assert EligibleAt(g, A, c, r);
    }
  }

  /** No w that satisfies the big-M constraints beats the best w: for a fixed assignment the
      linear program's optimum over w is Objective(g, BestWOf(g, A, M)). */
  lemma BestWIsOptimal(g: Board, A: Assignment, M: NonNegReal, w: (int, int) -> real)
    requires WFeasible(g, A, M, w)
    ensures Objective(g, w) <= Objective(g, BestWOf(g, A, M))
  {
    forall x, y | IsActive(g, x, y)
      ensures w(x, y) <= BestWOf(g, A, M)(x, y)
    {
      assert GateHolds(M, Multiplier(g, A, x, y), ModSum(A, x, y), w(x, y));
    }
    ObjectiveMono(g, w, BestWOf(g, A, M));
  }

  /** In a solution of the big-M constraints a cell holding a modifier scores nothing. */
  lemma ModifiedCellScoresZero(g: Board, A: Assignment, M: NonNegReal, w: (int, int) -> real, c: int, r: int)
    requires WFeasible(g, A, M, w)
    requires IsActive(g, c, r)
    requires ModSum(A, c, r) >= 1
    ensures w(c, r) == 0.0
  {
    assert GateHolds(M, Multiplier(g, A, c, r), ModSum(A, c, r), w(c, r));
    GateForcesZero(M, Multiplier(g, A, c, r), ModSum(A, c, r), w(c, r));
  }

  /** The number of modifiers each cell holds. */
  function ModMass(A: Assignment): (int, int) -> real
  {
    (c, r) => ModSum(A, c, r) as real
  }

  /** One per cell. */
  function Ones(): (int, int) -> real
  {
    (c, r) => 1.0
  }

  /** Under eligibility the modifiers placed on active cells number at most the active cells
      (and inactive cells hold none, by EligibleCell). */
  lemma ModifiersAtMostActiveCells(g: Board, A: Assignment)
    requires Eligible(g, A)
    ensures ActiveSum(g, ModMass(A)) <= ActiveSum(g, Ones())
  {
    forall x, y | IsActive(g, x, y)
      ensures ModMass(A)(x, y) <= Ones()(x, y)
    {
      assert EligibleAt(g, A, x, y);
    }
    ObjectiveMono(g, ModMass(A), Ones());
  }

  /** The bilinear contribution: the multiplier times the "clear" indicator NonMod. */
  function BilinearTerm(g: Board, A: Assignment): (int, int) -> real
  {
    (c, r) => if IsActive(g, c, r) then Multiplier(g, A, c, r) * (NonMod(A, c, r) as real) else 0.0
  }

  /** The objective the linearisation stands for: the multiplier of every clear active cell. */
  function BilinearObjective(g: Board, A: Assignment): real
  {
    Objective(g, BilinearTerm(g, A))
  }

  /** The big-M optimum never exceeds the bilinear objective, and it equals it exactly when M
      is at least the multiplier of every clear active cell. */
  lemma LinearisationExact(g: Board, A: Assignment, M: NonNegReal)
    requires Eligible(g, A)
    ensures Objective(g, BestWOf(g, A, M)) <= BilinearObjective(g, A)
    ensures Objective(g, BestWOf(g, A, M)) == BilinearObjective(g, A) <==>
      forall c, r :: IsOpen(g, A, c, r) ==> Multiplier(g, A, c, r) <= M
  {
    var lin := BestWOf(g, A, M);
    var bil := BilinearTerm(g, A);
    forall x, y | IsActive(g, x, y)
      ensures lin(x, y) <= bil(x, y)
      ensures IsOpen(g, A, x, y) && M < Multiplier(g, A, x, y) ==> lin(x, y) < bil(x, y)
      ensures !(IsOpen(g, A, x, y) && M < Multiplier(g, A, x, y)) ==> lin(x, y) == bil(x, y)
    {
      EligibleCell(g, A, x, y);
      if NonMod(A, x, y) == 1 {
        assert bil(x, y) == Multiplier(g, A, x, y);
      } else {
        assert bil(x, y) == 0.0;
      }
    }
    ObjectiveMono(g, lin, bil);
    if forall c, r :: IsOpen(g, A, c, r) ==> Multiplier(g, A, c, r) <= M {
      ObjectiveExt(g, lin, bil);
    } else {
      var c, r :| IsOpen(g, A, c, r) && M < Multiplier(g, A, c, r);
      assert IsActive(g, c, r) && lin(c, r) < bil(c, r);
    }
  }
}
