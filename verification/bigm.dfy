/** The size of the big-M constant. The formulation uses M = 2.8, which is smaller than
    multipliers that feasible assignments reach on the source layout; SafeBigM bounds every
    multiplier on any valid board, so with it the linearisation is exact. */
module BigM {
  import opened Grid
  import opened Runs
  import opened Sums
  import opened Constraints
  import opened Scoring

  /** The constant the formulation uses. */
  const SourceBigM: NonNegReal := 2.8

  /** One more than the weights of four ADJ neighbours and of the longest possible runs. */
  const SafeBigM: NonNegReal :=
    1.0 + AdjWeight * 4.0 + RunWeight * ((Width - 1) as real) + RunWeight * ((Height - 1) as real)

  /** On a valid board no cell's multiplier exceeds SafeBigM, whatever the assignment. */
  lemma MultiplierBelowSafeBigM(g: Board, A: Assignment, c: int, r: int)
    requires ValidBoard(g)
    requires InBounds(c, r)
    ensures Multiplier(g, A, c, r) <= SafeBigM
  {
    RunLengths(g, c, r);
  }

  /** With SafeBigM the best linearised objective of an eligible assignment is its bilinear
      objective: the gate w <= M * (1 - sum A) only ever switches a modified cell off. */
  lemma SafeBigMIsExact(g: Board, A: Assignment)
    requires ValidBoard(g)
    requires Eligible(g, A)
    ensures Objective(g, BestWOf(g, A, SafeBigM)) == BilinearObjective(g, A)
  {
    forall c, r | IsActive(g, c, r)
      ensures Multiplier(g, A, c, r) <= SafeBigM
    {
      MultiplierBelowSafeBigM(g, A, c, r);
    }
    LinearisationExact(g, A, SafeBigM);
  }

  /** The value the corrected formulation gives an eligible assignment: the largest objective
      over all w that satisfy the big-M constraints with SafeBigM, which is its bilinear objective. */
  function FormulationValue(g: Board, A: Assignment): (v: real)
    requires ValidBoard(g)
    requires Eligible(g, A)
    ensures v == BilinearObjective(g, A)
    ensures WFeasible(g, A, SafeBigM, BestWOf(g, A, SafeBigM))
    ensures forall w :: WFeasible(g, A, SafeBigM, w) ==> Objective(g, w) <= v
  {
    SafeBigMIsExact(g, A);
    BestWIsFeasible(g, A, SafeBigM);
    assert forall w :: WFeasible(g, A, SafeBigM, w) ==> Objective(g, w) <= Objective(g, BestWOf(g, A, SafeBigM)) by {
      forall w | WFeasible(g, A, SafeBigM, w)
        ensures Objective(g, w) <= Objective(g, BestWOf(g, A, SafeBigM))
      {
        BestWIsOptimal(g, A, SafeBigM, w);
      }
    }
    Objective(g, BestWOf(g, A, SafeBigM))
  }

  /** ADJ on the four neighbours of (15, 4) and COL on (15, 0); every other cell clear. */
  function CappedExample(): Assignment
  {
    (c, r, k) =>
      if k == Adj && ((c == 14 && r == 4) || (c == 16 && r == 4) || (c == 15 && r == 3) || (c == 15 && r == 5)) then 1
      else if k == Col && c == 15 && r == 0 then 1
      else 0
  }

  /** Column 15 is active in every row of the layout. */
  lemma Column15IsFull()
    ensures forall y :: y in RowsContaining(Layout, 15) <==> 0 <= y < Height
  {
  }

  /** In a column whose active rows are exactly 0 .. 7, the walks from row 0 are [] upwards
      and 1 .. 7 downwards. */
  lemma FullColumnWalksFromTop(rows: set<int>)
    requires forall y :: y in rows <==> 0 <= y < Height
    ensures Connected(rows, -1, Down) == []
    ensures Connected(rows, 1, Up) == [1, 2, 3, 4, 5, 6, 7]
  {
    ConnectedIsTheMaximalWalk(rows, -1, Down, []);
    ConnectedIsTheMaximalWalk(rows, 1, Up, [1, 2, 3, 4, 5, 6, 7]);
  }

  /** In such a column the walks from row 4 are 3, 2, 1, 0 and 5, 6, 7. */
  lemma FullColumnWalksFromCentre(rows: set<int>)
    requires forall y :: y in rows <==> 0 <= y < Height
    ensures Connected(rows, 3, Down) == [3, 2, 1, 0]
    ensures Connected(rows, 5, Up) == [5, 6, 7]
  {
    ConnectedIsTheMaximalWalk(rows, 3, Down, [3, 2, 1, 0]);
    ConnectedIsTheMaximalWalk(rows, 5, Up, [5, 6, 7]);
  }

  /** The vertical run of (15, 0) is rows 1 .. 7. */
  lemma Column15RunFromTop()
    ensures ConnectedVertical(Layout, 15, 0) == [1, 2, 3, 4, 5, 6, 7]
  {
    Column15IsFull();
    FullColumnWalksFromTop(RowsContaining(Layout, 15));
  }

  /** The vertical run of (15, 4) is 3, 2, 1, 0, then 5, 6, 7. */
  lemma Column15RunFromCentre()
    ensures ConnectedVertical(Layout, 15, 4) == [3, 2, 1, 0, 5, 6, 7]
  {
    Column15IsFull();
    FullColumnWalksFromCentre(RowsContaining(Layout, 15));
  }

  /** Both vertical runs of column 15 that the example uses. */
  lemma Column15Runs()
    ensures ConnectedVertical(Layout, 15, 0) == [1, 2, 3, 4, 5, 6, 7]
    ensures ConnectedVertical(Layout, 15, 4) == [3, 2, 1, 0, 5, 6, 7]
  {
    Column15RunFromTop();
    Column15RunFromCentre();
  }

  /** The example holds at most one modifier per cell, and only on active cells. */
  lemma CappedExampleIsEligible()
    ensures Eligible(Layout, CappedExample())
  {
    var A := CappedExample();
    assert 14 in Layout[4] && 16 in Layout[4] && 15 in Layout[3] && 15 in Layout[5] && 15 in Layout[0];
    forall c, r | 0 <= c < Width && 0 <= r < Height
      ensures EligibleAt(Layout, A, c, r)
    {
      if ModSum(A, c, r) != 0 {
        assert (c, r) in {(14, 4), (16, 4), (15, 3), (15, 5), (15, 0)};
      }
    }
  }

  /** Each ADJ cell of the example has at least three open neighbours. */
  lemma CappedExampleAdjSupport()
    ensures AdjSupportAt(Layout, CappedExample(), 14, 4)
    ensures AdjSupportAt(Layout, CappedExample(), 16, 4)
    ensures AdjSupportAt(Layout, CappedExample(), 15, 3)
    ensures AdjSupportAt(Layout, CappedExample(), 15, 5)
  {
    assert 13 in Layout[4] && 15 in Layout[4] && 14 in Layout[3] && 14 !in Layout[5];
    assert 16 in Layout[3] && 16 in Layout[5];
    assert 15 in Layout[2] && 16 in Layout[3] && 14 in Layout[3] && 15 in Layout[6];
  }

  /** ActiveNonMod along column 15 of the example: 0 on the ADJ cells (15, 3) and (15, 5), 1 elsewhere. */
  lemma ColumnValues()
    ensures var f := ColNonMod(Layout, CappedExample(), 15);
      f(1) == 1 && f(2) == 1 && f(3) == 0 && f(4) == 1 && f(5) == 0 && f(6) == 1 && f(7) == 1
  {
    assert 15 in Layout[1] && 15 in Layout[2] && 15 in Layout[3] && 15 in Layout[4];
    assert 15 in Layout[5] && 15 in Layout[6] && 15 in Layout[7];
  }

  /** A sum over rows 1 .. 7 with two vanishing terms. */
  lemma SumOverRows1To7(f: int -> int)
    requires f(1) == 1 && f(2) == 1 && f(3) == 0 && f(4) == 1 && f(5) == 0 && f(6) == 1 && f(7) == 1
    ensures SumInt([1, 2, 3, 4, 5, 6, 7], f) == 5
  {
    var col := [1, 2, 3, 4, 5, 6, 7];
    assert SumInt(col[6..], f) == 1;
    assert SumInt(col[5..], f) == 2;
    assert SumInt(col[4..], f) == 2;
    assert SumInt(col[3..], f) == 3;
    assert SumInt(col[2..], f) == 3;
    assert SumInt(col[1..], f) == 4;
  }

  /** The COL cell (15, 0) has five open cells in its vertical run. */
  lemma CappedExampleColSupport()
    ensures ColSupportAt(Layout, CappedExample(), 15, 0)
  {
    Column15Runs();
    ColumnValues();
    SumOverRows1To7(ColNonMod(Layout, CappedExample(), 15));
  }

  /** The constraints of a clear cell of the example hold. */
  lemma CappedExampleClearCell(c: int, r: int)
    requires 0 <= r < |Layout|
    requires ModSum(CappedExample(), c, r) == 0
    ensures AdjSupportAt(Layout, CappedExample(), c, r)
    ensures RowSupportAt(Layout, CappedExample(), c, r)
    ensures ColSupportAt(Layout, CappedExample(), c, r)
  {
    CappedExampleIsEligible();
    ClearCellIsSupported(Layout, CappedExample(), c, r);
  }

  /** The run constraints of a modified cell of the example hold: it holds no ROW, and only
      (15, 0) holds COL. */
  lemma CappedExampleRunSupport(c: int, r: int)
    requires 0 <= r < |Layout|
    ensures RowSupportAt(Layout, CappedExample(), c, r)
    ensures (c, r) != (15, 0) ==> ColSupportAt(Layout, CappedExample(), c, r)
    ensures ModSum(CappedExample(), c, r) != 0 && (c, r) != (15, 0) ==>
      (c == 14 && r == 4) || (c == 16 && r == 4) || (c == 15 && r == 3) || (c == 15 && r == 5)
  {
    CappedExampleIsEligible();
    RowSupportIff(Layout, CappedExample(), c, r);
    ColSupportIff(Layout, CappedExample(), c, r);
  }

  /** No cell of the example holds more than one modifier, so none has a negative NonMod. */
  lemma CappedExampleNonModNonNeg(c: int, r: int)
    ensures 0 <= ActiveNonMod(Layout, CappedExample(), c, r)
  {
  }

  /** Every constraint of one active cell holds in the example. */
  lemma CappedExampleSupportAt(c: int, r: int)
    requires 0 <= r < |Layout|
    ensures AdjSupportAt(Layout, CappedExample(), c, r)
    ensures RowSupportAt(Layout, CappedExample(), c, r)
    ensures ColSupportAt(Layout, CappedExample(), c, r)
  {
    if ModSum(CappedExample(), c, r) == 0 {
      CappedExampleClearCell(c, r);
    } else if (c, r) == (15, 0) {
      CappedExampleRunSupport(c, r);
      CappedExampleColSupport();
      CappedExampleNonModNonNeg(14, 0);
      CappedExampleNonModNonNeg(16, 0);
      CappedExampleNonModNonNeg(15, -1);
      CappedExampleNonModNonNeg(15, 1);
      assert CappedExample()(15, 0, Adj) == 0;
    } else {
      CappedExampleRunSupport(c, r);
      CappedExampleAdjSupport();
    }
  }

  /** The example satisfies every constraint of the formulation. */
  lemma CappedExampleIsFeasible()
    ensures Feasible(Layout, CappedExample())
  {
    CappedExampleIsEligible();
    forall c, r | 0 <= c < Width && 0 <= r < Height && IsActive(Layout, c, r)
      ensures AdjSupportAt(Layout, CappedExample(), c, r)
      ensures RowSupportAt(Layout, CappedExample(), c, r)
      ensures ColSupportAt(Layout, CappedExample(), c, r)
    {
      CappedExampleSupportAt(c, r);
    }
  }

  /** A sum over rows 3, 2, 1, 0, 5, 6, 7 in which only row 0 counts. */
  lemma SumOverColumn15Run(f: int -> int)
    requires f(0) == 1 && f(1) == 0 && f(2) == 0 && f(3) == 0 && f(5) == 0 && f(6) == 0 && f(7) == 0
    ensures SumInt([3, 2, 1, 0, 5, 6, 7], f) == 1
  {
    var col := [3, 2, 1, 0, 5, 6, 7];
    assert SumInt(col[6..], f) == 0;
    assert SumInt(col[5..], f) == 0;
    assert SumInt(col[4..], f) == 0;
    assert SumInt(col[3..], f) == 1;
    assert SumInt(col[2..], f) == 1;
    assert SumInt(col[1..], f) == 1;
  }

  /** (15, 4) has four ADJ neighbours in the example. */
  lemma CappedExampleAdjCount()
    ensures AdjCount(CappedExample(), 15, 4) == 4
  {
  }

  /** The example holds no ROW modifier, so no run of it contains one. */
  lemma CappedExampleRowCount(xs: seq<int>, r: int)
    ensures SumInt(xs, RowMods(CappedExample(), r)) == 0
  {
    SumOfZeros(xs, RowMods(CappedExample(), r));
  }

  /** The vertical run of (15, 4) holds one COL cell, (15, 0). */
  lemma CappedExampleColCount()
    ensures ColCount(Layout, CappedExample(), 15, 4) == 1
  {
    Column15Runs();
    SumOverColumn15Run(ColMods(CappedExample(), 15));
  }

  /** The example's counts at (15, 4): four ADJ neighbours, no ROW cell in its horizontal run
      and one COL cell in its vertical run. */
  lemma CappedExampleCounts()
    ensures AdjCount(CappedExample(), 15, 4) == 4
    ensures RowCount(Layout, CappedExample(), 15, 4) == 0
    ensures ColCount(Layout, CappedExample(), 15, 4) == 1
  {
    CappedExampleAdjCount();
    CappedExampleRowCount(ConnectedHorizontal(Layout, 15, 4), 4);
    CappedExampleColCount();
  }

  /** The clear cell (15, 4) of the example has multiplier 1 + 4 * 0.4 + 0.25 = 2.85. */
  lemma CappedExampleMultiplier()
    ensures Multiplier(Layout, CappedExample(), 15, 4) == 2.85
  {
    CappedExampleCounts();
  }

  /** In the example (15, 4) is clear, and M = 2.8 caps its best w below its multiplier. */
  lemma CappedExampleCell()
    ensures IsOpen(Layout, CappedExample(), 15, 4)
    ensures BestW(Layout, CappedExample(), SourceBigM, 15, 4) == 2.8 < Multiplier(Layout, CappedExample(), 15, 4)
  {
    var A := CappedExample();
    assert ModSum(A, 15, 4) == 0;
    assert IsActive(Layout, 15, 4) by {
      assert 15 in Layout[4];
    }
    CappedExampleMultiplier();
    assert BestW(Layout, A, SourceBigM, 15, 4) == Min(Multiplier(Layout, A, 15, 4), SourceBigM);
  }

  /** With M = 2.8 the example's best linearised objective falls short of its bilinear
      objective: the gate caps the clear cell (15, 4) at 2.8 instead of 2.85. */
  lemma SourceBigMUndervaluesExample()
    ensures Feasible(Layout, CappedExample())
    ensures IsOpen(Layout, CappedExample(), 15, 4)
    ensures BestW(Layout, CappedExample(), SourceBigM, 15, 4) == 2.8 < Multiplier(Layout, CappedExample(), 15, 4)
    ensures Objective(Layout, BestWOf(Layout, CappedExample(), SourceBigM)) < BilinearObjective(Layout, CappedExample())
  {
    CappedExampleIsFeasible();
    CappedExampleCell();
    LinearisationExact(Layout, CappedExample(), SourceBigM);
  }
}
