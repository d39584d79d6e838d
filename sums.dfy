/** Finite sums over an index range [0, n), the arithmetic every cost in the
    search engine is built from (a running `int` accumulator over vertices). */
module Sums {

  /** The sum f(0) + f(1) + ... + f(n - 1). */
  function Sum(n: nat, f: nat -> int): int
  {
    if n == 0 then 0 else Sum(n - 1, f) + f(n - 1)
  }

  /** A sum of non-negative terms is non-negative. */
  lemma {:induction false} SumNonNegative(n: nat, f: nat -> int)
    requires forall i: nat :: i < n ==> f(i) >= 0
    ensures Sum(n, f) >= 0
  {
    if n > 0 {
      SumNonNegative(n - 1, f);
    }
  }

  /** Sums are monotone in their terms. */
  lemma {:induction false} SumLe(n: nat, f: nat -> int, g: nat -> int)
    requires forall i: nat :: i < n ==> f(i) <= g(i)
    ensures Sum(n, f) <= Sum(n, g)
  {
    if n > 0 {
      SumLe(n - 1, f, g);
    }
  }

  /** Sums depend only on the terms inside the range. */
  lemma {:induction false} SumEq(n: nat, f: nat -> int, g: nat -> int)
    requires forall i: nat :: i < n ==> f(i) == g(i)
    ensures Sum(n, f) == Sum(n, g)
  {
    if n > 0 {
      SumEq(n - 1, f, g);
    }
  }

  /** The sum of a pointwise sum is the sum of the sums. */
  lemma {:induction false} SumAdd(n: nat, f: nat -> int, g: nat -> int, h: nat -> int)
    requires forall i: nat :: i < n ==> h(i) == f(i) + g(i)
    ensures Sum(n, h) == Sum(n, f) + Sum(n, g)
  {
    if n > 0 {
      SumAdd(n - 1, f, g, h);
    }
  }

  /** A sum whose terms all vanish is zero. */
  lemma {:induction false} SumZero(n: nat, f: nat -> int)
    requires forall i: nat :: i < n ==> f(i) == 0
    ensures Sum(n, f) == 0
  {
    if n > 0 {
      SumZero(n - 1, f);
    }
  }

  /** A sum whose terms vanish everywhere except at k is its k-th term. */
  lemma {:induction false} SumSingle(n: nat, f: nat -> int, k: nat)
    requires k < n
    requires forall i: nat :: i < n && i != k ==> f(i) == 0
    ensures Sum(n, f) == f(k)
  {
    if n - 1 == k {
      SumZero(n - 1, f);
    } else {
      SumSingle(n - 1, f, k);
    }
  }

  /** A sum of n equal terms c is n * c. */
  lemma {:induction false} SumConstant(n: nat, f: nat -> int, c: int)
    requires forall i: nat :: i < n ==> f(i) == c
    ensures Sum(n, f) == n * c
  {
    if n > 0 {
      SumConstant(n - 1, f, c);
      assert (n - 1) * c + c == n * c;
    }
  }

  /** Row i of a two-argument term. */
  function Row(f: (nat, nat) -> int, i: nat): nat -> int
  {
    (j: nat) => f(i, j)
  }

  /** Column j of a two-argument term. */
  function Column(f: (nat, nat) -> int, j: nat): nat -> int
  {
    (i: nat) => f(i, j)
  }

  /** Exchanging the order of a double sum over [0, n) x [0, p). */
  lemma {:induction false} SumSwap(n: nat, p: nat, f: (nat, nat) -> int, rows: nat -> int, cols: nat -> int)
    requires forall i: nat :: i < n ==> rows(i) == Sum(p, Row(f, i))
    requires forall j: nat :: j < p ==> cols(j) == Sum(n, Column(f, j))
    ensures Sum(n, rows) == Sum(p, cols)
  {
    if n == 0 {
      SumZero(p, cols);
    } else {
      var shorter: nat -> int := (j: nat) => Sum(n - 1, Column(f, j));
      SumSwap(n - 1, p, f, rows, shorter);
      forall j: nat | j < p
        ensures cols(j) == shorter(j) + Row(f, n - 1)(j)
      {
      }
      SumAdd(p, shorter, Row(f, n - 1), cols);
    }
  }

  /** A sum that differs from another only by c at index k. */
  lemma {:induction false} SumPlusPoint(n: nat, f: nat -> int, g: nat -> int, k: nat, c: int)
    requires k < n
    requires forall i: nat :: i < n ==> g(i) == f(i) + (if i == k then c else 0)
    ensures Sum(n, g) == Sum(n, f) + c
  {
    if n - 1 == k {
      SumEq(n - 1, f, g);
    } else {
      SumPlusPoint(n - 1, f, g, k, c);
    }
  }

  /** The row sums of a two-argument term over [0, n) x [0, n). */
  function RowSums(n: nat, f: (nat, nat) -> int): nat -> int
  {
    (i: nat) => Sum(n, Row(f, i))
  }

  /** The sum of f(i, j) over [0, n) x [0, n), row by row. */
  function DoubleSum(n: nat, f: (nat, nat) -> int): int
  {
    Sum(n, RowSums(n, f))
  }

  /** Double sums are monotone in their terms. */
  lemma DoubleSumLe(n: nat, f: (nat, nat) -> int, g: (nat, nat) -> int)
    requires forall i: nat, j: nat :: i < n && j < n ==> f(i, j) <= g(i, j)
    ensures DoubleSum(n, f) <= DoubleSum(n, g)
  {
    forall i: nat | i < n
      ensures RowSums(n, f)(i) <= RowSums(n, g)(i)
    {
      SumLe(n, Row(f, i), Row(g, i));
    }
    SumLe(n, RowSums(n, f), RowSums(n, g));
  }

  /** The double sum of a pointwise sum is the sum of the double sums. */
  lemma DoubleSumAdd(n: nat, f: (nat, nat) -> int, g: (nat, nat) -> int, h: (nat, nat) -> int)
    requires forall i: nat, j: nat :: i < n && j < n ==> h(i, j) == f(i, j) + g(i, j)
    ensures DoubleSum(n, h) == DoubleSum(n, f) + DoubleSum(n, g)
  {
    forall i: nat | i < n
      ensures RowSums(n, h)(i) == RowSums(n, f)(i) + RowSums(n, g)(i)
    {
      SumAdd(n, Row(f, i), Row(g, i), Row(h, i));
    }
    SumAdd(n, RowSums(n, f), RowSums(n, g), RowSums(n, h));
  }

  /** A double sum of non-negative terms is non-negative. */
  lemma DoubleSumNonNegative(n: nat, f: (nat, nat) -> int)
    requires forall i: nat, j: nat :: i < n && j < n ==> f(i, j) >= 0
    ensures DoubleSum(n, f) >= 0
  {
    forall i: nat | i < n
      ensures RowSums(n, f)(i) >= 0
    {
      SumNonNegative(n, Row(f, i));
    }
    SumNonNegative(n, RowSums(n, f));
  }
}
