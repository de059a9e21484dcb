/** Maximal contiguous runs of active cells along a row or a column. */
module Runs {
  import opened Grid

  /** The direction of a walk along one axis: towards smaller or larger indices. */
  datatype Dir = Down | Up

  /** The index i steps away from start in direction d. */
  function At(start: int, d: Dir, i: int): int
  {
    if d == Up then start + i else start - i
  }

  /** How many steps in direction d lead from start to x (negative when x lies behind start). */
  function Dist(start: int, d: Dir, x: int): int
  {
    if d == Up then x - start else start - x
  }

  /** The members of xs at or beyond start in direction d. */
  ghost function Ahead(xs: set<int>, start: int, d: Dir): set<int>
  {
    set x | x in xs && Dist(start, d, x) >= 0
  }

  /** One step forward leaves one fewer member of xs ahead of the walk. */
  lemma AheadShrinks(xs: set<int>, start: int, d: Dir)
    requires start in xs
    ensures |Ahead(xs, At(start, d, 1), d)| < |Ahead(xs, start, d)|
  {
    assert Ahead(xs, At(start, d, 1), d) == Ahead(xs, start, d) - {start};
  }

  /** The walk from start in steps of one in direction d through xs: start, start+step, ...,
      ending just before the first index that is not in xs. */
  function Connected(xs: set<int>, start: int, d: Dir): (run: seq<int>)
    ensures forall i :: 0 <= i < |run| ==> run[i] == At(start, d, i) && run[i] in xs
    ensures At(start, d, |run|) !in xs
    decreases |Ahead(xs, start, d)|
  {
    if start !in xs then []
    else
      AheadShrinks(xs, start, d);
      [start] + Connected(xs, At(start, d, 1), d)
  }

  /** s is the walk from start in direction d whose members are all in xs and which
      stops just before the first index that is not. */
  predicate IsMaximalWalk(xs: set<int>, start: int, d: Dir, s: seq<int>)
  {
    && (forall i :: 0 <= i < |s| ==> s[i] == At(start, d, i) && s[i] in xs)
    && At(start, d, |s|) !in xs
  }

  /** Connected computes exactly the maximal walk, and nothing else is one. */
  lemma ConnectedIsTheMaximalWalk(xs: set<int>, start: int, d: Dir, s: seq<int>)
    ensures IsMaximalWalk(xs, start, d, s) <==> s == Connected(xs, start, d)
  {
    var run := Connected(xs, start, d);
    if IsMaximalWalk(xs, start, d, s) {
      if |s| < |run| {
        assert false;
      }
      if |run| < |s| {
        assert false;
      }
      assert forall i :: 0 <= i < |s| ==> s[i] == run[i];
    }
  }

  /** x can be reached from start in direction d without leaving xs. */
  predicate Reaches(xs: set<int>, start: int, d: Dir, x: int)
  {
    && Dist(start, d, x) >= 0
    && forall k :: 0 <= k <= Dist(start, d, x) ==> At(start, d, k) in xs
  }

  /** The members of the walk are exactly the indices reachable from start. */
  lemma ConnectedMembers(xs: set<int>, start: int, d: Dir, x: int)
    ensures x in Connected(xs, start, d) <==> Reaches(xs, start, d, x)
  {
    var run := Connected(xs, start, d);
    if x in run {
      var i :| 0 <= i < |run| && run[i] == x;
      assert Dist(start, d, x) == i;
      forall k | 0 <= k <= i
        ensures At(start, d, k) in xs
      {
        assert run[k] == At(start, d, k);
      }
    }
    if Reaches(xs, start, d, x) {
      var n := Dist(start, d, x);
      if |run| <= n {
        assert false;
      }
      assert run[n] == At(start, d, n) == x;
    }
  }

  /** x lies on one side of c and every index from c (exclusive) to x (inclusive) is in xs. */
  predicate Span(xs: set<int>, c: int, x: int)
  {
    || (x < c && forall y :: x <= y < c ==> y in xs)
    || (c < x && forall y :: c < y <= x ==> y in xs)
  }

  /** Both walks out of c: first away from c downwards, then upwards. */
  function RunAround(xs: set<int>, c: int): (run: seq<int>)
    ensures c !in run
    ensures forall i :: 0 <= i < |run| ==> run[i] in xs
  {
    Connected(xs, c - 1, Down) + Connected(xs, c + 1, Up)
  }

  /** The run around c consists exactly of the indices joined to c through xs. */
  lemma RunAroundMembers(xs: set<int>, c: int, x: int)
    ensures x in RunAround(xs, c) <==> Span(xs, c, x)
  {
    ConnectedMembers(xs, c - 1, Down, x);
    ConnectedMembers(xs, c + 1, Up, x);
    if x < c {
      if Reaches(xs, c - 1, Down, x) {
        forall y | x <= y < c
          ensures y in xs
        {
          assert y == At(c - 1, Down, c - 1 - y);
        }
      }
      if forall y :: x <= y < c ==> y in xs {
        forall k {:trigger At(c - 1, Down, k)} | 0 <= k <= Dist(c - 1, Down, x)
          ensures At(c - 1, Down, k) in xs
        {
          assert x <= At(c - 1, Down, k) < c;
        }
      }
    } else if c < x {
      if Reaches(xs, c + 1, Up, x) {
        forall y | c < y <= x
          ensures y in xs
        {
          assert y == At(c + 1, Up, y - c - 1);
        }
      }
      if forall y :: c < y <= x ==> y in xs {
        forall k {:trigger At(c + 1, Up, k)} | 0 <= k <= Dist(c + 1, Up, x)
          ensures At(c + 1, Up, k) in xs
        {
          assert c < At(c + 1, Up, k) <= x;
        }
      }
    }
  }

  /** The run around c is empty exactly when neither neighbour of c is in xs. */
  lemma RunAroundEmpty(xs: set<int>, c: int)
    ensures RunAround(xs, c) == [] <==> c - 1 !in xs && c + 1 !in xs
  {
    if c - 1 in xs {
      RunAroundMembers(xs, c, c - 1);
    }
    if c + 1 in xs {
      RunAroundMembers(xs, c, c + 1);
    }
  }

  /** No index occurs twice in the run around c. */
  lemma RunAroundDistinct(xs: set<int>, c: int)
    ensures forall i, j :: 0 <= i < j < |RunAround(xs, c)| ==> RunAround(xs, c)[i] != RunAround(xs, c)[j]
  {
    var left := Connected(xs, c - 1, Down);
    var right := Connected(xs, c + 1, Up);
    var run := RunAround(xs, c);
    forall i, j | 0 <= i < j < |run|
      ensures run[i] != run[j]
    {
      if j < |left| {
        assert run[i] == c - 1 - i && run[j] == c - 1 - j;
      } else if i < |left| {
        assert run[i] < c < run[j];
      } else {
        assert run[i] == c + 1 + (i - |left|) && run[j] == c + 1 + (j - |left|);
      }
    }
  }

  /** If every member of xs lies in [0, n) and c does too, the run around c has at most n - 1 members. */
  lemma RunAroundLength(xs: set<int>, c: int, n: int)
    requires forall x :: x in xs ==> 0 <= x < n
    requires 0 <= c < n
    ensures |RunAround(xs, c)| <= n - 1
  {
    var left := Connected(xs, c - 1, Down);
    var right := Connected(xs, c + 1, Up);
    if left != [] {
      assert left[|left| - 1] == c - |left|;
    }
    if right != [] {
      assert right[|right| - 1] == c + |right|;
    }
  }

  /** The horizontal run of (c, r): active columns joined to c along row r, c excluded. */
  function ConnectedHorizontal(g: Board, c: int, r: int): (run: seq<int>)
    requires 0 <= r < |g|
    ensures c !in run
    ensures forall i :: 0 <= i < |run| ==> run[i] in g[r]
  {
    RunAround(g[r], c)
  }

  /** The vertical run of (c, r): rows joined to r along column c, r excluded. */
  function ConnectedVertical(g: Board, c: int, r: int): (run: seq<int>)
    ensures r !in run
    ensures forall i :: 0 <= i < |run| ==> 0 <= run[i] < |g| && c in g[run[i]]
  {
    RunAround(RowsContaining(g, c), r)
  }

  /** Membership in the horizontal run is contiguity along row r. */
  lemma HorizontalRunMembers(g: Board, c: int, r: int, x: int)
    requires 0 <= r < |g|
    ensures x in ConnectedHorizontal(g, c, r) <==> Span(g[r], c, x)
  {
    RunAroundMembers(g[r], c, x);
  }

  /** Membership in the vertical run is contiguity along column c. */
  lemma VerticalRunMembers(g: Board, c: int, r: int, y: int)
    ensures y in ConnectedVertical(g, c, r) <==> Span(RowsContaining(g, c), r, y)
  {
    RunAroundMembers(RowsContaining(g, c), r, y);
  }

  /** On a valid board a horizontal run has at most Width - 1 columns and a vertical one at most Height - 1 rows. */
  lemma RunLengths(g: Board, c: int, r: int)
    requires ValidBoard(g)
    requires InBounds(c, r)
    ensures |ConnectedHorizontal(g, c, r)| <= Width - 1
    ensures |ConnectedVertical(g, c, r)| <= Height - 1
  {
    RunAroundLength(g[r], c, Width);
    RunAroundLength(RowsContaining(g, c), r, Height);
  }
}
