/** Finite sums of integer-valued functions, exactly and up to congruence. */
module Sums {
  import opened Arith

  ghost function Sum(f: int -> int, n: nat): int {
    if n == 0 then 0 else Sum(f, n - 1) + f(n - 1)
  }

  lemma {:induction false} SumEq(f: int -> int, g: int -> int, n: nat)
    requires forall i :: 0 <= i < n ==> f(i) == g(i)
    ensures Sum(f, n) == Sum(g, n)
  {
    if n > 0 { SumEq(f, g, n - 1); }
  }

  lemma {:induction false} SumAdd(f: int -> int, g: int -> int, h: int -> int, n: nat)
    requires forall i :: 0 <= i < n ==> h(i) == f(i) + g(i)
    ensures Sum(h, n) == Sum(f, n) + Sum(g, n)
  {
    if n > 0 { SumAdd(f, g, h, n - 1); }
  }

  lemma {:induction false} SumScale(f: int -> int, c: int, g: int -> int, n: nat)
    requires forall i :: 0 <= i < n ==> g(i) == Mul(c, f(i))
    ensures Sum(g, n) == Mul(c, Sum(f, n))
  {
    if n > 0 {
      SumScale(f, c, g, n - 1);
      assert c * (Sum(f, n - 1) + f(n - 1)) == c * Sum(f, n - 1) + c * f(n - 1);
    }
  }

  ghost function Scaled(f: int -> int, c: int): int -> int { i => Mul(c, f(i)) }

  lemma SumScaled(f: int -> int, c: int, n: nat)
    ensures Sum(Scaled(f, c), n) == Mul(c, Sum(f, n))
  {
    SumScale(f, c, Scaled(f, c), n);
  }

  lemma {:induction false} SumZero(f: int -> int, n: nat)
    requires forall i :: 0 <= i < n ==> f(i) == 0
    ensures Sum(f, n) == 0
  {
    if n > 0 { SumZero(f, n - 1); }
  }

  lemma {:induction false} SumConst(f: int -> int, c: int, n: nat)
    requires forall i :: 0 <= i < n ==> f(i) == c
    ensures Sum(f, n) == Mul(n, c)
  {
    if n > 0 { SumConst(f, c, n - 1); }
  }

  /** A sum over n + k indices is the sum of its first n and its last k terms. */
  lemma {:induction false} SumConcat(f: int -> int, g: int -> int, h: int -> int, n: nat, k: nat)
    requires forall i :: 0 <= i < n ==> h(i) == f(i)
    requires forall i :: 0 <= i < k ==> h(n + i) == g(i)
    ensures Sum(h, n + k) == Sum(f, n) + Sum(g, k)
  {
    if k == 0 {
      SumEq(f, h, n);
    } else {
      SumConcat(f, g, h, n, k - 1);
    }
  }

  /** A sum whose only nonzero term is at index t. */
  lemma SumSingle(f: int -> int, t: nat, n: nat)
    requires t < n
    requires forall i :: 0 <= i < n && i != t ==> f(i) == 0
    ensures Sum(f, n) == f(t)
  {
    var g := (i: int) => f(t + 1 + i);
    SumBlock(f, t + 1, g, n - t - 1);
    SumZero(g, n - t - 1);
    SumZero(f, t);
  }

  ghost function Row(F: (int, int) -> int, i: int): int -> int { j => F(i, j) }
  ghost function Rows(F: (int, int) -> int, k: nat): int -> int { i => Sum(Row(F, i), k) }
  ghost function Flip(F: (int, int) -> int): (int, int) -> int { (i, j) => F(j, i) }

  /** The order of two finite summations can be exchanged. */
  lemma {:induction false} SumSwap(F: (int, int) -> int, n: nat, k: nat)
    ensures Sum(Rows(F, k), n) == Sum(Rows(Flip(F), n), k)
  {
    if n == 0 {
      SumZero(Rows(Flip(F), 0), k);
    } else {
      SumSwap(F, n - 1, k);
      SumAdd(Rows(Flip(F), n - 1), Row(F, n - 1), Rows(Flip(F), n), k);
    }
  }

  ghost function Flat(h: int -> int, k: int): (int, int) -> int { (i, j) => h(i * k + j) }

  /** Summing over a flat index i * k + j is summing over i and then over j. */
  lemma {:induction false} SumFlatten(h: int -> int, n: nat, k: nat)
    ensures 0 <= n * k
    ensures Sum(h, n * k) == Sum(Rows(Flat(h, k), k), n)
  {
    MulNonNeg(n, k);
    if n > 0 {
      SumFlatten(h, n - 1, k);
      SumBlock(h, (n - 1) * k, Row(Flat(h, k), n - 1), k);
      assert n * k == (n - 1) * k + k;
    }
  }

  lemma SumBlock(h: int -> int, o: nat, g: int -> int, k: nat)
    requires forall j :: 0 <= j < k ==> g(j) == h(o + j)
    ensures Sum(h, o + k) == Sum(h, o) + Sum(g, k)
  {
    SumConcat(h, g, h, o, k);
  }

  lemma {:induction false} SumCong(f: int -> int, g: int -> int, n: nat, m: int)
    requires m > 0
    requires forall i :: 0 <= i < n ==> Cong(f(i), g(i), m)
    ensures Cong(Sum(f, n), Sum(g, n), m)
  {
    hide Cong;
    if n == 0 {
      CongRefl(0, m);
    } else {
      SumCong(f, g, n - 1, m);
      CongAdd(Sum(f, n - 1), Sum(g, n - 1), f(n - 1), g(n - 1), m);
    }
  }

  /** Rotating the summation index of a full period changes nothing. */
  lemma SumRotate(g: int -> int, h: int -> int, r: nat, n: nat)
    requires r <= n
    requires forall i :: 0 <= i < r ==> h(i) == g(n - r + i)
    requires forall i :: 0 <= i < n - r ==> g(i) == h(r + i)
    ensures Sum(h, n) == Sum(g, n)
  {
    hide Sum;
    SumBlock(g, n - r, h, r);
    SumBlock(h, r, g, n - r);
  }

  lemma {:induction false} SumBounds(f: int -> int, c: int, n: nat)
    requires forall i :: 0 <= i < n ==> 0 <= f(i) <= c
    ensures 0 <= Sum(f, n) <= n * c
  {
    if n > 0 { SumBounds(f, c, n - 1); }
  }
}
