/** Finite sums of reals over `0..n`. */
module Sums {
  ghost function Sum(n: nat, f: nat -> real): real {
    if n == 0 then 0.0 else Sum(n - 1, f) + f(n - 1)
  }

  lemma {:induction false} SumCong(n: nat, f: nat -> real, g: nat -> real)
    requires forall i: nat :: i < n ==> f(i) == g(i)
    ensures Sum(n, f) == Sum(n, g)
  {
    if n > 0 { SumCong(n - 1, f, g); }
  }

  lemma {:induction false} SumZero(n: nat, f: nat -> real)
    requires forall i: nat :: i < n ==> f(i) == 0.0
    ensures Sum(n, f) == 0.0
  {
    if n > 0 { SumZero(n - 1, f); }
  }

  /** Changing one term changes the sum by the difference. */
  lemma {:induction false} SumPoint(n: nat, f: nat -> real, g: nat -> real, k: nat)
    requires k < n && forall i: nat :: i < n && i != k ==> f(i) == g(i)
    ensures Sum(n, g) == Sum(n, f) - f(k) + g(k)
  {
    if k == n - 1 {
      SumCong(n - 1, f, g);
    } else {
      SumPoint(n - 1, f, g, k);
    }
  }

  lemma {:induction false} SumAdd(n: nat, f: nat -> real, g: nat -> real, h: nat -> real)
    requires forall i: nat :: i < n ==> h(i) == f(i) + g(i)
    ensures Sum(n, h) == Sum(n, f) + Sum(n, g)
  {
    if n > 0 { SumAdd(n - 1, f, g, h); }
  }

  ghost function Times(c: real, x: real): real { c * x }

  ghost predicate Scaled(h: nat -> real, c: real, f: nat -> real, i: nat) {
    h(i) == c * f(i)
  }

  lemma {:induction false} SumScale(n: nat, c: real, f: nat -> real, h: nat -> real)
    requires forall i: nat :: i < n ==> Scaled(h, c, f, i)
    ensures Sum(n, h) == c * Sum(n, f)
  {
    if n > 0 {
      SumScale(n - 1, c, f, h);
      assert Scaled(h, c, f, n - 1);
    }
  }

  ghost function Row(f: (nat, nat) -> real, i: nat): nat -> real { (j: nat) => f(i, j) }

  ghost function Column(f: (nat, nat) -> real, j: nat): nat -> real { (i: nat) => f(i, j) }

  ghost predicate RowPoint(f: (nat, nat) -> real, i: nat, c: real, g: nat -> real, j: nat) {
    f(i, j) == c * g(j)
  }

  lemma RowScale(n: nat, f: (nat, nat) -> real, i: nat, c: real, g: nat -> real)
    requires forall j: nat :: j < n ==> RowPoint(f, i, c, g, j)
    ensures Sum(n, Row(f, i)) == Times(c, Sum(n, g))
  {
    forall j: nat | j < n ensures Scaled(Row(f, i), c, g, j) {
      assert RowPoint(f, i, c, g, j);
    }
    SumScale(n, c, g, Row(f, i));
  }

  ghost predicate ColumnPoint(f: (nat, nat) -> real, j: nat, c: real, g: nat -> real, i: nat) {
    f(i, j) == c * g(i)
  }

  lemma ColumnScale(n: nat, f: (nat, nat) -> real, j: nat, c: real, g: nat -> real)
    requires forall i: nat :: i < n ==> ColumnPoint(f, j, c, g, i)
    ensures Sum(n, Column(f, j)) == Times(c, Sum(n, g))
  {
    forall i: nat | i < n ensures Scaled(Column(f, j), c, g, i) {
      assert ColumnPoint(f, j, c, g, i);
    }
    SumScale(n, c, g, Column(f, j));
  }

  /** Sums of sums may be exchanged: `rows` and `columns` are the two inner sums. */
  lemma {:induction false} SumSwap(n: nat, m: nat, f: (nat, nat) -> real, rows: nat -> real, columns: nat -> real)
    requires forall i: nat :: i < n ==> rows(i) == Sum(m, Row(f, i))
    requires forall j: nat :: j < m ==> columns(j) == Sum(n, Column(f, j))
    ensures Sum(n, rows) == Sum(m, columns)
  {
    if n == 0 {
      SumZero(m, columns);
    } else {
      var fewer := (j: nat) => Sum(n - 1, Column(f, j));
      SumSwap(n - 1, m, f, rows, fewer);
      SumAdd(m, fewer, Row(f, n - 1), columns);
    }
  }
}
