/** Finite sums and counts over sequences of grid indices. */
module Sums {

  /** The sum of f over the elements of xs, in order. */
  function SumInt(xs: seq<int>, f: int -> int): int
    decreases |xs|
  {
    if xs == [] then 0 else f(xs[0]) + SumInt(xs[1..], f)
  }

  /** The number of positions of xs whose element satisfies p. */
  function Count(xs: seq<int>, p: int -> bool): (n: nat)
    ensures n <= |xs|
    decreases |xs|
  {
    if xs == [] then 0 else (if p(xs[0]) then 1 else 0) + Count(xs[1..], p)
  }

  /** A sum of 0/1 terms lies between 0 and the number of terms. */
  lemma {:induction false} SumOfBits(xs: seq<int>, f: int -> int)
    requires forall i :: 0 <= i < |xs| ==> 0 <= f(xs[i]) <= 1
    ensures 0 <= SumInt(xs, f) <= |xs|
    decreases |xs|
  {
    if xs != [] {
      SumOfBits(xs[1..], f);
    }
  }

  /** Summing an indicator of p counts the elements that satisfy p. */
  lemma {:induction false} SumOfIndicator(xs: seq<int>, f: int -> int, p: int -> bool)
    requires forall i :: 0 <= i < |xs| ==> f(xs[i]) == (if p(xs[i]) then 1 else 0)
    ensures SumInt(xs, f) == Count(xs, p)
    decreases |xs|
  {
    if xs != [] {
      SumOfIndicator(xs[1..], f, p);
    }
  }

  /** A sum of terms that all vanish is zero. */
  lemma {:induction false} SumOfZeros(xs: seq<int>, f: int -> int)
    requires forall i :: 0 <= i < |xs| ==> f(xs[i]) == 0
    ensures SumInt(xs, f) == 0
    decreases |xs|
  {
    if xs != [] {
      SumOfZeros(xs[1..], f);
    }
  }

  /** Sums split over concatenation. */
  lemma {:induction false} SumAppend(a: seq<int>, b: seq<int>, f: int -> int)
    ensures SumInt(a + b, f) == SumInt(a, f) + SumInt(b, f)
    decreases |a|
  {
    if a != [] {
      assert (a + b)[1..] == a[1..] + b;
      SumAppend(a[1..], b, f);
    } else {
      assert a + b == b;
    }
  }

  /** A sum of non-negative terms is zero exactly when every term is. */
  lemma {:induction false} SumOfNonNegZero(xs: seq<int>, f: int -> int)
    requires forall i :: 0 <= i < |xs| ==> 0 <= f(xs[i])
    ensures SumInt(xs, f) == 0 <==> forall i :: 0 <= i < |xs| ==> f(xs[i]) == 0
    decreases |xs|
  {
    if xs != [] {
      SumOfNonNegZero(xs[1..], f);
      SumOfNonNeg(xs[1..], f);
      if SumInt(xs, f) == 0 {
        forall i | 0 <= i < |xs|
          ensures f(xs[i]) == 0
        {
          if i > 0 {
            assert xs[i] == xs[1..][i - 1];
          }
        }
      }
      if forall i :: 0 <= i < |xs| ==> f(xs[i]) == 0 {
        assert forall i :: 0 <= i < |xs[1..]| ==> f(xs[1..][i]) == 0 by {
          forall i | 0 <= i < |xs[1..]|
            ensures f(xs[1..][i]) == 0
          {
            assert xs[1..][i] == xs[i + 1];
          }
        }
      }
    }
  }

  /** A sum of non-negative terms is non-negative. */
  lemma {:induction false} SumOfNonNeg(xs: seq<int>, f: int -> int)
    requires forall i :: 0 <= i < |xs| ==> 0 <= f(xs[i])
    ensures 0 <= SumInt(xs, f)
    decreases |xs|
  {
    if xs != [] {
      SumOfNonNeg(xs[1..], f);
    }
  }
}
