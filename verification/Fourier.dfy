/** The discrete Fourier transform over the integers modulo m, stated on ordinary
    integers and congruences: inversion, the convolution theorem, injectivity. */
module Fourier {
  import opened Arith
  import opened Sums

  function At(x: seq<int>, i: int): int {
    if 0 <= i < |x| then x[i] else 0
  }

  /** The twiddle factor w^(if). */
  ghost function Tw(w: int, i: int, f: int): int { Pow(w, i * f) }

  ghost function DftTerm(x: seq<int>, w: int, f: int): int -> int {
    i => Mul(At(x, i), Tw(w, i, f))
  }

  lemma DftTermAt(x: seq<int>, w: int, f: int, i: int)
    ensures DftTerm(x, w, f)(i) == Mul(At(x, i), Tw(w, i, f))
  {}

  /** Coefficient f of the transform of x with root w. */
  ghost function Dft(x: seq<int>, w: int, f: int): int {
    Sum(DftTerm(x, w, f), |x|)
  }

  ghost predicate SeqCong(x: seq<int>, y: seq<int>, m: int)
    requires m > 0
  {
    |x| == |y| && forall i :: 0 <= i < |x| ==> Cong(x[i], y[i], m)
  }

  /** X is, modulo m, the transform of x. */
  ghost predicate IsDft(X: seq<int>, x: seq<int>, w: int, m: int)
    requires m > 0
  {
    |X| == |x| && forall f :: 0 <= f < |x| ==> Cong(X[f], Dft(x, w, f), m)
  }

  // ----- roots of unity of order 2^k -----

  ghost predicate Root(w: int, k: nat, m: int)
    requires m > 0
  {
    if k == 0 then Cong(w, 1, m) else Cong(Pow(w, Pow(2, k - 1)), -1, m)
  }

  lemma RootCong(w: int, v: int, k: nat, m: int)
    requires m > 0 && Root(w, k, m) && Cong(v, w, m)
    ensures Root(v, k, m)
  {
    hide Cong;
    if k == 0 {
      CongTrans(v, w, 1, m);
    } else {
      var e := Pow(2, k - 1);
      CongPow(v, w, e, m);
      CongTrans(Pow(v, e), Pow(w, e), -1, m);
    }
  }

  lemma PowSquare(w: int, e: nat)
    ensures Pow(w * w, e) == Pow(w, 2 * e)
  {
    PowMulBase(w, w, w * w, e);
    PowAdd(w, e, e);
  }

  lemma RootSquare(w: int, k: nat, m: int)
    requires m > 0 && k >= 1 && Root(w, k, m)
    ensures Root(w * w, k - 1, m)
  {
    hide Cong;
    if k == 1 {
      assert Pow(2, 0) == 1 && Pow(w, 1) == w * Pow(w, 0) == w;
      CongMul(w, -1, w, -1, m);
    } else {
      PowPos(2, k - 2);
      PowSquare(w, Pow(2, k - 2));
    }
  }

  lemma RootPeriod(w: int, k: nat, m: int)
    requires m > 0 && Root(w, k, m)
    ensures Cong(Pow(w, Pow(2, k)), 1, m)
  {
    hide Cong;
    if k == 0 {
      assert Pow(2, 0) == 1 && Pow(w, 1) == w * Pow(w, 0) == w;
    } else {
      var e := Pow(2, k - 1);
      PowPos(2, k - 1);
      PowAdd(w, e, e);
      CongMul(Pow(w, e), -1, Pow(w, e), -1, m);
    }
  }

  lemma {:induction false} RootPow(w: int, k: nat, s: nat, m: int)
    requires m > 0 && s <= k && Root(w, k, m)
    ensures Root(Pow(w, Pow(2, s)), k - s, m)
    decreases s
  {
    hide Cong;
    if s == 0 {
      assert Pow(w, 1) == w * Pow(w, 0) == w;
    } else {
      RootSquare(w, k, m);
      RootPow(w * w, k - 1, s - 1, m);
      PowPos(2, s - 1);
      PowSquare(w, Pow(2, s - 1));
    }
  }

  /** The inverse of a root is a root of the same order. */
  lemma RootInverse(w: int, v: int, k: nat, m: int)
    requires m > 0 && Root(w, k, m) && Cong(w * v, 1, m)
    ensures Root(v, k, m)
  {
    hide Cong;
    if k == 0 {
      CongScale(w, 1, v, m);
      CongSym(w * v, v, m);
      CongTrans(v, w * v, 1, m);
    } else {
      var e := Pow(2, k - 1);
      CongPow(w * v, 1, e, m);
      PowMulBase(w, v, w * v, e);
      PowOne(e);
      var p, q := Pow(w, e), Pow(v, e);
      CongScale(p, -1, q, m);
      CongSym(p * q, -1 * q, m);
      CongTrans(-q, p * q, 1, m);
      CongScale(-q, 1, -1, m);
    }
  }

  // ----- the geometric sum of a root vanishes -----

  ghost function Geo(z: int): int -> int { i => Pow(z, i) }

  lemma GeoDouble(z: int, k: nat)
    ensures Pow(2, k) > 0
    ensures Sum(Geo(z), Pow(2, k + 1)) == Mul(1 + Pow(z, Pow(2, k)), Sum(Geo(z), Pow(2, k)))
  {
    hide Sum;
    PowPos(2, k);
    var n := Pow(2, k);
    GeoShift(z, n);
    SumBlock(Geo(z), n, Scaled(Geo(z), Pow(z, n)), n);
    SumScaled(Geo(z), Pow(z, n), n);
  }

  lemma GeoShift(z: int, n: nat)
    ensures forall i :: 0 <= i < n ==> Scaled(Geo(z), Pow(z, n))(i) == Geo(z)(n + i)
  {
    hide Mul, Pow;
    forall i | 0 <= i < n ensures Scaled(Geo(z), Pow(z, n))(i) == Geo(z)(n + i) {
      PowSplit(z, n, i, n + i);
    }
  }

  lemma {:induction false} MinusOnePow(d: nat)
    ensures Pow(-1, d) == if d % 2 == 0 then 1 else -1
  {
    if d > 0 { MinusOnePow(d - 1); }
  }

  /** For 0 < d < 2^k the powers of w^d sum to zero over a full period. */
  lemma {:induction false} GeoVanishes(w: int, k: nat, d: nat, m: int)
    requires m > 0 && Root(w, k, m) && 0 < d < Pow(2, k)
    ensures Cong(Sum(Geo(Pow(w, d)), Pow(2, k)), 0, m)
    decreases k
  {
    hide Cong, Sum, Mul;
    PowPos(2, k - 1);
    assert k > 0;
    var n := Pow(2, k - 1);
    var z, S := Pow(w, d), Sum(Geo(Pow(w, d)), n);
    GeoDouble(z, k - 1);
    if d % 2 == 0 {
      RootSquare(w, k, m);
      PowSquare(w, d / 2);
      GeoVanishes(w * w, k - 1, d / 2, m);
      MulCong(S, 0, 1 + Pow(z, n), m);
      MulOne(1 + Pow(z, n));
    } else {
      OddPower(w, n, d, m);
      CongRefl(1, m);
      CongAdd(1, 1, Pow(z, n), -1, m);
      MulCong(1 + Pow(z, n), 0, S, m);
      MulOne(S);
    }
  }

  lemma OddPower(w: int, n: nat, d: nat, m: int)
    requires m > 0 && Cong(Pow(w, n), -1, m) && d % 2 == 1
    ensures Cong(Pow(Pow(w, d), n), -1, m)
  {
    hide Cong, Pow;
    PowPow(w, d, n);
    PowPow(w, n, d);
    CongPow(Pow(w, n), -1, d, m);
    MinusOnePow(d);
  }

  // ----- congruence of transforms -----

  lemma TwCong(w: int, v: int, i: nat, f: nat, m: int)
    requires m > 0 && Cong(w, v, m)
    ensures Cong(Tw(w, i, f), Tw(v, i, f), m)
  {
    CongPow(w, v, i * f, m);
  }

  lemma DftCong(x: seq<int>, y: seq<int>, w: int, v: int, f: nat, m: int)
    requires m > 0 && SeqCong(x, y, m) && Cong(w, v, m)
    ensures Cong(Dft(x, w, f), Dft(y, v, f), m)
  {
    hide Cong, Mul, Tw, Sum;
    forall i | 0 <= i < |x|
      ensures Cong(DftTerm(x, w, f)(i), DftTerm(y, v, f)(i), m)
    {
      TwCong(w, v, i, f, m);
      MulCong2(x[i], y[i], Tw(w, i, f), Tw(v, i, f), m);
    }
    SumCong(DftTerm(x, w, f), DftTerm(y, v, f), |x|, m);
  }

  // ----- inversion -----

  ghost function PairTerm(w: int, v: int, i: int, t: int): int -> int {
    f => Mul(Tw(w, i, f), Tw(v, f, t))
  }

  /** The term x_i w^(if) v^(ft) of the double sum behind the inversion theorem. */
  ghost function InvTerm(x: seq<int>, w: int, v: int, t: int): (int, int) -> int {
    (f, i) => Mul(At(x, i), PairTerm(w, v, i, t)(f))
  }

  /** w^(if) v^(f(i+d)) = (v^d)^f when w v = 1. */
  lemma PairCancels(w: int, v: int, i: nat, t: nat, f: nat, m: int)
    requires m > 0 && Cong(w * v, 1, m) && i <= t
    ensures Cong(PairTerm(w, v, i, t)(f), Geo(Pow(v, t - i))(f), m)
  {
    hide Cong;
    var d := t - i;
    MulNonNeg(i, f);
    MulNonNeg(d, f);
    var a, b := i * f, d * f;
    assert f * t == a + b;
    PowAdd(v, a, b);
    PowMulBase(w, v, w * v, a);
    CongPow(w * v, 1, a, m);
    PowOne(a);
    PowPow(v, d, f);
    var c := Pow(v, b);
    MulAssoc(Pow(w, a), Pow(v, a), c, Pow(v, a + b));
    CongScale(Pow(w * v, a), 1, c, m);
  }

  lemma OrthogonalRight(w: int, v: int, k: nat, i: nat, t: nat, m: int)
    requires m > 0 && Root(v, k, m) && Cong(w * v, 1, m) && i < t < Pow(2, k)
    ensures Cong(Sum(PairTerm(w, v, i, t), Pow(2, k)), 0, m)
  {
    hide Cong, Sum, Pow, Root, Mul, Tw, PairTerm, Geo;
    var n := Pow(2, k);
    var z := Pow(v, t - i);
    forall f | 0 <= f < n ensures Cong(PairTerm(w, v, i, t)(f), Geo(z)(f), m) {
      PairCancels(w, v, i, t, f, m);
    }
    SumCong(PairTerm(w, v, i, t), Geo(z), n, m);
    GeoVanishes(v, k, t - i, m);
    CongTrans(Sum(PairTerm(w, v, i, t), n), Sum(Geo(z), n), 0, m);
  }

  /** Orthogonality: the sum over f of w^(if) v^(ft) is 2^k when i = t and 0 otherwise. */
  lemma Orthogonal(w: int, v: int, k: nat, i: nat, t: nat, m: int)
    requires m > 0 && Root(w, k, m) && Cong(w * v, 1, m)
    requires i < Pow(2, k) && t < Pow(2, k)
    ensures Pow(2, k) > 0
    ensures Cong(Sum(PairTerm(w, v, i, t), Pow(2, k)), if i == t then Pow(2, k) else 0, m)
  {
    hide Cong, Sum, Pow, Root, Mul;
    PowPos(2, k);
    var n := Pow(2, k);
    if i < t {
      RootInverse(w, v, k, m);
      OrthogonalRight(w, v, k, i, t, m);
    } else if i > t {
      forall f | 0 <= f < n ensures PairTerm(w, v, i, t)(f) == PairTerm(v, w, t, i)(f) {
        TwComm(w, i, f);
        TwComm(v, f, t);
        MulComm(Tw(w, i, f), Tw(v, f, t));
      }
      SumEq(PairTerm(w, v, i, t), PairTerm(v, w, t, i), n);
      OrthogonalRight(v, w, k, t, i, m);
    } else {
      OrthogonalSame(w, v, k, i, m);
    }
  }

  lemma TwComm(w: int, i: int, f: int)
    ensures Tw(w, i, f) == Tw(w, f, i)
  {
    assert i * f == f * i;
  }

  lemma OrthogonalSame(w: int, v: int, k: nat, i: nat, m: int)
    requires m > 0 && Cong(w * v, 1, m)
    ensures Pow(2, k) > 0
    ensures Cong(Sum(PairTerm(w, v, i, i), Pow(2, k)), Pow(2, k), m)
  {
    hide Cong, Sum, Mul, Tw, PairTerm;
    PowPos(2, k);
    var n := Pow(2, k);
    var one := (f: int) => 1;
    forall f | 0 <= f < n ensures Cong(PairTerm(w, v, i, i)(f), one(f), m) {
      PairCancels(w, v, i, i, f, m);
      assert Pow(v, 0) == 1;
      PowOne(f);
    }
    SumCong(PairTerm(w, v, i, i), one, n, m);
    SumConst(one, 1, n);
    MulOne(n);
  }

  lemma InversionRow(x: seq<int>, X: seq<int>, w: int, v: int, f: nat, t: nat, m: int)
    requires m > 0 && IsDft(X, x, w, m) && t < |x| && f < |x|
    ensures Cong(DftTerm(X, v, t)(f), Rows(InvTerm(x, w, v, t), |x|)(f), m)
  {
    hide Cong, Sum, Mul, Tw;
    var c := Tw(v, f, t);
    var row := Row(InvTerm(x, w, v, t), f);
    forall i | 0 <= i < |x| ensures row(i) == Mul(c, DftTerm(x, w, f)(i)) {
      assert PairTerm(w, v, i, t)(f) == Mul(Tw(w, i, f), c);
      MulShift(At(x, i), Tw(w, i, f), c);
      MulComm(c, Mul(At(x, i), Tw(w, i, f)));
    }
    SumScale(DftTerm(x, w, f), c, row, |x|);
    MulComm(c, Dft(x, w, f));
    MulCong(X[f], Dft(x, w, f), c, m);
  }

  lemma InversionColumn(x: seq<int>, w: int, v: int, k: nat, i: nat, t: nat, m: int)
    requires m > 0 && Root(w, k, m) && Cong(w * v, 1, m)
    requires |x| == Pow(2, k) && i < |x| && t < |x|
    ensures Cong(Rows(Flip(InvTerm(x, w, v, t)), |x|)(i), Mul(At(x, i), if i == t then |x| else 0), m)
  {
    hide Cong, Sum, Mul, Pow, Root, PairTerm;
    var n := |x|;
    SumScale(PairTerm(w, v, i, t), At(x, i), Row(Flip(InvTerm(x, w, v, t)), i), n);
    Orthogonal(w, v, k, i, t, m);
    MulCong(Sum(PairTerm(w, v, i, t), n), if i == t then n else 0, At(x, i), m);
  }

  /** Inversion theorem: transforming back with the inverse root multiplies by 2^k. */
  lemma Inversion(x: seq<int>, X: seq<int>, w: int, v: int, k: nat, t: nat, m: int)
    requires m > 0 && Root(w, k, m) && Cong(w * v, 1, m)
    requires |x| == Pow(2, k) && IsDft(X, x, w, m) && t < |x|
    ensures Cong(Dft(X, v, t), Mul(x[t], Pow(2, k)), m)
  {
    hide Cong, Sum, Mul, Pow, Root, InvTerm, DftTerm;
    var n := |x|;
    var F := InvTerm(x, w, v, t);
    forall f | 0 <= f < n ensures Cong(DftTerm(X, v, t)(f), Rows(F, n)(f), m) {
      InversionRow(x, X, w, v, f, t, m);
    }
    SumCong(DftTerm(X, v, t), Rows(F, n), n, m);
    SumSwap(F, n, n);
    var G := Rows(Flip(F), n);
    var h := (i: int) => Mul(At(x, i), if i == t then n else 0);
    forall i | 0 <= i < n ensures Cong(G(i), h(i), m) {
      InversionColumn(x, w, v, k, i, t, m);
    }
    SumCong(G, h, n, m);
    forall i | 0 <= i < n && i != t ensures h(i) == 0 { MulOne(At(x, i)); }
    SumSingle(h, t, n);
    CongTrans(Dft(X, v, t), Sum(G, n), h(t), m);
  }

  /** Two sequences with the same transform agree, when 2 is invertible modulo m. */
  lemma DftInjective(x: seq<int>, y: seq<int>, X: seq<int>, w: int, v: int, k: nat, u: int, m: int)
    requires m > 0 && Root(w, k, m) && Cong(w * v, 1, m) && Cong(u * Pow(2, k), 1, m)
    requires |x| == |y| == Pow(2, k) && IsDft(X, x, w, m) && IsDft(X, y, w, m)
    ensures SeqCong(x, y, m)
  {
    hide Cong, Dft, Root, Mul;
    var n := Pow(2, k);
    forall t | 0 <= t < |x| ensures Cong(x[t], y[t], m) {
      Inversion(x, X, w, v, k, t, m);
      Inversion(y, X, w, v, k, t, m);
      CongSym(Dft(X, v, t), Mul(x[t], n), m);
      CongTrans(Mul(x[t], n), Dft(X, v, t), Mul(y[t], n), m);
      Cancel(n, x[t], y[t], u, m);
    }
  }

  lemma Cancel(n: int, a: int, b: int, u: int, m: int)
    requires m > 0 && Cong(u * n, 1, m) && Cong(Mul(a, n), Mul(b, n), m)
    ensures Cong(a, b, m)
  {
    hide Cong;
    CongScale(a * n, b * n, u, m);
    CongScale(u * n, 1, a, m);
    CongScale(u * n, 1, b, m);
    assert u * (a * n) == (u * n) * a;
    assert u * (b * n) == (u * n) * b;
    CongSym((u * n) * a, a, m);
    CongTrans(a, u * (a * n), u * (b * n), m);
    CongTrans(a, u * (b * n), b, m);
  }

  // ----- convolution -----

  /** Index d reduced modulo n, for -n <= d < n. */
  function Wrap(d: int, n: int): int { if d < 0 then d + n else d }

  ghost function ConvTerm(x: seq<int>, y: seq<int>, t: int): int -> int {
    i => Mul(At(x, i), At(y, Wrap(t - i, |y|)))
  }

  /** Coefficient t of the cyclic convolution of x and y. */
  ghost function Conv(x: seq<int>, y: seq<int>, t: int): int {
    Sum(ConvTerm(x, y, t), |x|)
  }

  ghost function ConvSeq(x: seq<int>, y: seq<int>): (z: seq<int>)
    ensures |z| == |x|
  {
    seq(|x|, t => Conv(x, y, t))
  }

  /** x_i y_(t-i) w^(tf), the term of the double sum behind the convolution theorem. */
  ghost function ConvDftTerm(x: seq<int>, y: seq<int>, w: int, f: int): (int, int) -> int {
    (t, i) => Mul(ConvTerm(x, y, t)(i), Tw(w, t, f))
  }

  lemma ConvRow(x: seq<int>, y: seq<int>, w: int, f: int, t: nat)
    requires t < |x| == |y|
    ensures DftTerm(ConvSeq(x, y), w, f)(t) == Rows(ConvDftTerm(x, y, w, f), |x|)(t)
  {
    hide Sum, Mul, Tw, ConvTerm;
    var c := Tw(w, t, f);
    var row := Row(ConvDftTerm(x, y, w, f), t);
    forall i | 0 <= i < |x| ensures row(i) == Mul(c, ConvTerm(x, y, t)(i)) {
      MulComm(c, ConvTerm(x, y, t)(i));
    }
    SumScale(ConvTerm(x, y, t), c, row, |x|);
    MulComm(c, Conv(x, y, t));
  }

  ghost function Rotated(y: seq<int>, w: int, f: int, i: int): int -> int
  {
    t => DftTerm(y, w, f)(Wrap(t - i, |y|))
  }

  lemma ConvEntry(x: seq<int>, y: seq<int>, w: int, k: nat, f: nat, i: nat, t: nat, m: int)
    requires m > 0 && Root(w, k, m) && |x| == |y| == Pow(2, k) && i < |x| && t < |x|
    ensures Cong(ConvDftTerm(x, y, w, f)(t, i), Mul(DftTerm(x, w, f)(i), Rotated(y, w, f, i)(t)), m)
  {
    hide Cong, Pow, Root, Mul, Tw, At, Wrap, ConvTerm, ConvDftTerm, DftTerm, Rotated;
    var s := Wrap(t - i, |y|);
    var a, b, p, q := At(x, i), At(y, s), Tw(w, i, f), Tw(w, s, f);
    TwiddleShift(w, k, f, i, t, m);
    EntryAlgebra(a, b, Tw(w, t, f), p, q, m);
    ConvDftTermAt(x, y, w, f, t, i);
    DftTermAt(x, w, f, i);
    RotatedAt(y, w, f, i, t);
  }

  lemma ConvDftTermAt(x: seq<int>, y: seq<int>, w: int, f: int, t: int, i: int)
    ensures ConvDftTerm(x, y, w, f)(t, i) == Mul(Mul(At(x, i), At(y, Wrap(t - i, |y|))), Tw(w, t, f))
  {
    hide Mul, Tw, At, Wrap;
    assert ConvTerm(x, y, t)(i) == Mul(At(x, i), At(y, Wrap(t - i, |y|)));
  }

  lemma RotatedAt(y: seq<int>, w: int, f: int, i: int, t: int)
    ensures Rotated(y, w, f, i)(t) == Mul(At(y, Wrap(t - i, |y|)), Tw(w, Wrap(t - i, |y|), f))
  {
    hide Mul, Tw, At, Wrap, DftTerm;
    DftTermAt(y, w, f, Wrap(t - i, |y|));
  }

  lemma EntryAlgebra(a: int, b: int, c: int, p: int, q: int, m: int)
    requires m > 0 && Cong(c, Mul(p, q), m)
    ensures Cong(Mul(Mul(a, b), c), Mul(Mul(a, p), Mul(b, q)), m)
  {
    hide Cong, Mul;
    MulCong(c, Mul(p, q), Mul(a, b), m);
    MulSwap(a, b, p, q);
  }

  lemma RotatedSum(y: seq<int>, w: int, f: nat, i: nat)
    requires i < |y|
    ensures Sum(Rotated(y, w, f, i), |y|) == Dft(y, w, f)
  {
    hide Sum, Mul, Tw, DftTerm;
    var n := |y|;
    var g, r := DftTerm(y, w, f), Rotated(y, w, f, i);
    forall t | 0 <= t < i ensures r(t) == g(n - i + t) { assert Wrap(t - i, n) == n - i + t; }
    forall t | 0 <= t < n - i ensures g(t) == r(i + t) {
      var u := i + t;
      assert Wrap(u - i, n) == t;
      assert r(u) == g(Wrap(u - i, n));
    }
    SumRotate(g, r, i, n);
  }

  lemma ConvColumn(x: seq<int>, y: seq<int>, w: int, k: nat, f: nat, i: nat, m: int)
    requires m > 0 && Root(w, k, m) && |x| == |y| == Pow(2, k) > i
    ensures Cong(Rows(Flip(ConvDftTerm(x, y, w, f)), |x|)(i), Mul(Dft(y, w, f), DftTerm(x, w, f)(i)), m)
  {
    hide Cong, Sum, Pow, Root, Dft, Mul, DftTerm, ConvDftTerm, Rotated;
    var n := |x|;
    var c := DftTerm(x, w, f)(i);
    var r := Rotated(y, w, f, i);
    var col := Row(Flip(ConvDftTerm(x, y, w, f)), i);
    forall t | 0 <= t < n ensures Cong(col(t), Scaled(r, c)(t), m) {
      ConvEntry(x, y, w, k, f, i, t, m);
    }
    SumCong(col, Scaled(r, c), n, m);
    SumScaled(r, c, n);
    RotatedSum(y, w, f, i);
    MulComm(c, Dft(y, w, f));
  }

  /** The transform of a cyclic convolution is the pointwise product of the transforms. */
  lemma ConvTheorem(x: seq<int>, y: seq<int>, w: int, k: nat, f: nat, m: int)
    requires m > 0 && Root(w, k, m) && |x| == |y| == Pow(2, k) > 0
    ensures Cong(Dft(ConvSeq(x, y), w, f), Mul(Dft(y, w, f), Dft(x, w, f)), m)
  {
    hide Cong, Sum, Pow, Root, Mul, DftTerm, ConvDftTerm;
    var n := |x|;
    var z := ConvSeq(x, y);
    var F := ConvDftTerm(x, y, w, f);
    forall t | 0 <= t < n ensures DftTerm(z, w, f)(t) == Rows(F, n)(t) {
      ConvRow(x, y, w, f, t);
    }
    SumEq(DftTerm(z, w, f), Rows(F, n), n);
    SumSwap(F, n, n);
    var h := Scaled(DftTerm(x, w, f), Dft(y, w, f));
    forall i | 0 <= i < n ensures Cong(Rows(Flip(F), n)(i), h(i), m) {
      ConvColumn(x, y, w, k, f, i, m);
    }
    SumCong(Rows(Flip(F), n), h, n, m);
    SumScaled(DftTerm(x, w, f), Dft(y, w, f), n);
  }

  /** w^(tf) = w^(if) w^(sf) where s = (t - i) mod 2^k. */
  lemma TwiddleShift(w: int, k: nat, f: nat, i: nat, t: nat, m: int)
    requires m > 0 && Root(w, k, m) && i < Pow(2, k) && t < Pow(2, k)
    ensures Cong(Tw(w, t, f), Mul(Tw(w, i, f), Tw(w, Wrap(t - i, Pow(2, k)), f)), m)
  {
    hide Cong, Root, Pow, Tw, Mul;
    var n := Pow(2, k);
    var s := Wrap(t - i, n);
    if t >= i {
      TwAdd(w, i, s, t, f);
      CongRefl(Tw(w, t, f), m);
    } else {
      TwAdd(w, i, s, t + n, f);
      TwAdd(w, t, n, t + n, f);
      TwPeriod(w, k, f, m);
      MulCong(Tw(w, n, f), 1, Tw(w, t, f), m);
      MulOne(Tw(w, t, f));
      CongSym(Mul(Tw(w, t, f), Tw(w, n, f)), Tw(w, t, f), m);
    }
  }

  lemma TwAdd(w: int, i: nat, s: nat, t: nat, f: nat)
    requires t == i + s
    ensures Tw(w, t, f) == Mul(Tw(w, i, f), Tw(w, s, f))
  {
    MulNonNeg(i, f);
    MulNonNeg(s, f);
    assert t * f == i * f + s * f;
    PowAdd(w, i * f, s * f);
  }

  lemma TwPeriod(w: int, k: nat, f: nat, m: int)
    requires m > 0 && Root(w, k, m)
    ensures Cong(Tw(w, Pow(2, k), f), 1, m)
  {
    hide Cong;
    PowPos(2, k);
    RootPeriod(w, k, m);
    PowPow(w, Pow(2, k), f);
    CongPow(Pow(w, Pow(2, k)), 1, f, m);
    PowOne(f);
  }
}
