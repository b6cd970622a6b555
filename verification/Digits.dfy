/** Positional digits of a number, evaluation of a coefficient sequence, and why an
    acyclic convolution of digits evaluates to the product. */
module Digits {
  import opened Arith
  import opened Sums
  import opened Fourier

  /** The sum of c_t X^t. */
  ghost function Eval(c: seq<int>, X: int): int { Dft(c, X, 1) }

  /** The sum of the first i terms. */
  ghost function EvalTo(c: seq<int>, X: int, i: nat): int { Sum(DftTerm(c, X, 1), i) }

  lemma EvalStep(c: seq<int>, X: int, i: nat)
    requires i < |c|
    ensures EvalTo(c, X, 0) == 0
    ensures EvalTo(c, X, i + 1) == EvalTo(c, X, i) + Mul(c[i], Pow(X, i))
  {
    DftTermAt(c, X, 1, i);
    TwUnit(X, i);
  }

  lemma TwUnit(X: int, i: int)
    ensures Tw(X, i, 1) == Pow(X, i)
  {
    assert i * 1 == i;
  }

  ghost function Digit(V: int, X: int, i: nat): int
    requires X > 0
  {
    PowPos(X, i);
    (V / Pow(X, i)) % X
  }

  ghost function DigitsOf(V: int, X: int, n: nat): (r: seq<int>)
    requires X > 0
    ensures |r| == n
  {
    seq(n, i requires i >= 0 => Digit(V, X, i))
  }

  /** x mod yz from x mod y and the next digit. */
  lemma ModSplit(x: int, y: int, z: int)
    requires y > 0 && z > 0
    ensures y * z > 0 && x % (y * z) == x % y + y * ((x / y) % z)
  {
    MulLe(1, z, y);
    var q, r, s, t := x / y, x % y, (x / y) / z, (x / y) % z;
    assert x == y * q + r && q == z * s + t;
    ModSplitCore(x, y, z, q, r, s, t);
  }

  lemma ModSplitCore(x: int, y: int, z: int, q: int, r: int, s: int, t: int)
    requires y > 0 && z > 0 && y * z > 0 && x == y * q + r && 0 <= r < y && q == z * s + t && 0 <= t < z
    ensures x % (y * z) == r + y * t
  {
    assert y * (z * s + t) == y * (z * s) + y * t;
    assert y * (z * s) == (y * z) * s;
    MulNonNeg(y, t);
    MulLe(t + 1, z, y);
    assert y * (t + 1) == y * t + y;
    DivModUnique(x, y * z, s, r + y * t);
  }

  /** The first i digits evaluate to the number modulo X^i. */
  lemma {:induction false} DigitsEval(V: int, X: int, n: nat, i: nat)
    requires X > 0 && i <= n
    ensures Pow(X, i) > 0 && EvalTo(DigitsOf(V, X, n), X, i) == V % Pow(X, i)
  {
    hide Sum, DftTerm, Mul;
    PowPos(X, i);
    if i == 0 {
      PowZero(X);
      DivModUnique(V, 1, V, 0);
      EvalZero(DigitsOf(V, X, n), X);
    } else {
      var j := i - 1;
      DigitsEval(V, X, n, j);
      EvalStep(DigitsOf(V, X, n), X, j);
      ModSplit(V, Pow(X, j), X);
      PowLast(X, j);
      MulSwapArgs(Digit(V, X, j), Pow(X, j));
    }
  }

  lemma EvalZero(c: seq<int>, X: int)
    ensures EvalTo(c, X, 0) == 0
  {}

  lemma PowLast(X: int, j: nat)
    ensures Pow(X, j + 1) == Pow(X, j) * X
  {
    assert Pow(X, j + 1) == X * Pow(X, j);
  }

  lemma MulSwapArgs(a: int, b: int)
    ensures Mul(a, b) == b * a
  {}

  lemma DigitsTotal(V: int, X: int, n: nat)
    requires X > 0 && 0 <= V < Pow(X, n)
    ensures Eval(DigitsOf(V, X, n), X) == V
  {
    DigitsEval(V, X, n, n);
    DivModUnique(V, Pow(X, n), 0, V);
  }

  lemma DigitRange(V: int, X: int, i: nat)
    requires X > 0
    ensures 0 <= Digit(V, X, i) < X
  {
    PowPos(X, i);
  }

  /** Digits beyond the size of the number are zero. */
  lemma DigitZero(V: int, X: int, k: nat, i: nat)
    requires X > 0 && 0 <= V < Pow(X, k) && k <= i
    ensures Digit(V, X, i) == 0
  {
    PowPos(X, i);
    PowMono(X, k, i);
    DivModUnique(V, Pow(X, i), 0, V);
    DivModUnique(0, X, 0, 0);
  }

  // ----- evaluation of a convolution -----

  /** x vanishes from index nx on, y from ny on, and the product fits without wrap-around. */
  ghost predicate Acyclic(x: seq<int>, y: seq<int>, nx: nat, ny: nat) {
    && |x| == |y| && nx + ny <= |x| + 1
    && (forall i :: nx <= i < |x| ==> x[i] == 0)
    && (forall i :: ny <= i < |y| ==> y[i] == 0)
  }

  lemma ExactEntry(x: seq<int>, y: seq<int>, X: int, nx: nat, ny: nat, i: nat, t: nat)
    requires Acyclic(x, y, nx, ny) && i < |x| && t < |x|
    ensures ConvDftTerm(x, y, X, 1)(t, i) == Mul(DftTerm(x, X, 1)(i), Rotated(y, X, 1, i)(t))
  {
    hide Mul, Tw, Pow, ConvTerm, ConvDftTerm, DftTerm, Rotated;
    var s := Wrap(t - i, |y|);
    var a, b, p, q := At(x, i), At(y, s), Tw(X, i, 1), Tw(X, s, 1);
    ConvDftTermAt(x, y, X, 1, t, i);
    DftTermAt(x, X, 1, i);
    RotatedAt(y, X, 1, i, t);
    if t >= i {
      TwAdd(X, i, s, t, 1);
      MulSwap(a, b, p, q);
    } else {
      assert a == 0 || b == 0;
      ZeroProducts(a, b, Tw(X, t, 1), p, q);
    }
  }

  lemma ZeroProducts(a: int, b: int, c: int, p: int, q: int)
    requires a == 0 || b == 0
    ensures Mul(Mul(a, b), c) == Mul(Mul(a, p), Mul(b, q))
  {
    assert a * b == 0;
    if a == 0 { assert a * p == 0; } else { assert b * q == 0; }
  }

  lemma ExactColumn(x: seq<int>, y: seq<int>, X: int, nx: nat, ny: nat, i: nat)
    requires Acyclic(x, y, nx, ny) && i < |x|
    ensures Rows(Flip(ConvDftTerm(x, y, X, 1)), |x|)(i) == Mul(Dft(y, X, 1), DftTerm(x, X, 1)(i))
  {
    hide Sum, Pow, Dft, Mul, DftTerm, ConvDftTerm, Rotated;
    var n := |x|;
    var c := DftTerm(x, X, 1)(i);
    var r := Rotated(y, X, 1, i);
    var col := Row(Flip(ConvDftTerm(x, y, X, 1)), i);
    forall t | 0 <= t < n ensures col(t) == Scaled(r, c)(t) {
      ExactEntry(x, y, X, nx, ny, i, t);
    }
    SumEq(col, Scaled(r, c), n);
    SumScaled(r, c, n);
    RotatedSum(y, X, 1, i);
    MulComm(c, Dft(y, X, 1));
  }

  /** Without wrap-around the cyclic convolution evaluates to the product. */
  lemma ConvEval(x: seq<int>, y: seq<int>, X: int, nx: nat, ny: nat)
    requires Acyclic(x, y, nx, ny)
    ensures Eval(ConvSeq(x, y), X) == Mul(Eval(y, X), Eval(x, X))
  {
    hide Sum, Pow, Mul, DftTerm, ConvDftTerm;
    var n := |x|;
    var z := ConvSeq(x, y);
    var F := ConvDftTerm(x, y, X, 1);
    forall t | 0 <= t < n ensures DftTerm(z, X, 1)(t) == Rows(F, n)(t) {
      ConvRow(x, y, X, 1, t);
    }
    SumEq(DftTerm(z, X, 1), Rows(F, n), n);
    SumSwap(F, n, n);
    var h := Scaled(DftTerm(x, X, 1), Dft(y, X, 1));
    forall i | 0 <= i < n ensures Rows(Flip(F), n)(i) == h(i) {
      ExactColumn(x, y, X, nx, ny, i);
    }
    SumEq(Rows(Flip(F), n), h, n);
    SumScaled(DftTerm(x, X, 1), Dft(y, X, 1), n);
  }

  /** Coefficients of the convolution of digit sequences are small. */
  lemma ConvRange(x: seq<int>, y: seq<int>, X: int, t: int)
    requires X >= 1 && 0 <= t < |x| == |y|
    requires (forall i :: 0 <= i < |x| ==> 0 <= x[i] < X) && (forall i :: 0 <= i < |y| ==> 0 <= y[i] < X)
    ensures 0 <= Conv(x, y, t) <= |x| * ((X - 1) * (X - 1))
  {
    hide Sum;
    forall i | 0 <= i < |x| ensures 0 <= ConvTerm(x, y, t)(i) <= (X - 1) * (X - 1) {
      var a, b := At(x, i), At(y, Wrap(t - i, |y|));
      MulNonNeg(a, b);
      MulLe(a, X - 1, b);
      MulLe(b, X - 1, X - 1);
    }
    SumBounds(ConvTerm(x, y, t), (X - 1) * (X - 1), |x|);
  }

  lemma ConvCong(x: seq<int>, y: seq<int>, x': seq<int>, y': seq<int>, t: int, m: int)
    requires m > 0 && SeqCong(x, x', m) && SeqCong(y, y', m) && 0 <= t < |x| == |y|
    ensures Cong(Conv(x, y, t), Conv(x', y', t), m)
  {
    hide Cong, Sum, Mul;
    forall i | 0 <= i < |x| ensures Cong(ConvTerm(x, y, t)(i), ConvTerm(x', y', t)(i), m) {
      var s := Wrap(t - i, |y|);
      MulCong2(x[i], x'[i], y[s], y'[s], m);
    }
    SumCong(ConvTerm(x, y, t), ConvTerm(x', y', t), |x|, m);
  }
}
