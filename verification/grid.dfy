/** The irregular board: for each row, the set of columns that are part of the footprint. */
module Grid {

  /** Columns are 0 .. Width-1 and rows 0 .. Height-1 (the ranges COLUMNS and ROWS). */
  const Width: int := 17
  const Height: int := 8

  /** Row r of a board is the set of its active columns. */
  type Board = seq<set<int>>

  /** A board has one entry per row and only names columns inside the grid. */
  predicate ValidBoard(g: Board)
  {
    && |g| == Height
    && forall r :: 0 <= r < |g| ==> forall c :: c in g[r] ==> 0 <= c < Width
  }

  /** The board shape the formulation is built for. */
  const Layout: Board := [
    {0, 1, 2, 15, 16},
    {0, 1, 2, 3, 4, 16, 15, 14, 13, 12, 11, 10},
    {3, 4, 5, 6, 11, 15, 14},
    {0, 1, 2, 3, 4, 5, 6, 11, 14, 15, 16},
    {0, 1, 2, 3, 5, 6, 7, 11, 12, 13, 14, 15, 16},
    {0, 1, 2, 6, 7, 8, 9, 10, 11, 12, 15, 16},
    {0, 1, 2, 3, 6, 7, 8, 9, 10, 11, 12, 15, 16},
    {0, 1, 2, 3, 4, 5, 6, 7, 10, 11, 12, 13, 14, 15, 16}
  ]

  /** (c, r) is a cell of the Width x Height grid. */
  predicate InBounds(c: int, r: int)
  {
    0 <= c < Width && 0 <= r < Height
  }

  /** (c, r) is on the grid and part of the footprint. */
  predicate IsActive(g: Board, c: int, r: int)
  {
    InBounds(c, r) && r < |g| && c in g[r]
  }

  /** The rows whose active set contains column c. */
  function RowsContaining(g: Board, c: int): set<int>
  {
    set y | 0 <= y < |g| && c in g[y]
  }

  /** The source board is well formed. */
  lemma LayoutIsValid()
    ensures ValidBoard(Layout)
  {
    forall r | 0 <= r < |Layout|
      ensures forall c :: c in Layout[r] ==> 0 <= c < Width
    {
    }
  }
}
