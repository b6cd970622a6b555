/** The four-step split of a long transform, and why convolving row by row in the
    split domain convolves the whole sequences. */
module FourStep {
  import opened Arith
  import opened Sums
  import opened Fourier
  import opened Stockham

  ghost function ScaleSeq(x: seq<int>, c: int): (r: seq<int>)
    ensures |r| == |x|
  {
    seq(|x|, i requires 0 <= i < |x| => Mul(c, x[i]))
  }

  lemma DftScale(x: seq<int>, c: int, w: int, f: int)
    ensures Dft(ScaleSeq(x, c), w, f) == Mul(c, Dft(x, w, f))
  {
    hide Sum, Mul, Tw, DftTerm;
    forall i | 0 <= i < |x| ensures DftTerm(ScaleSeq(x, c), w, f)(i) == Mul(c, DftTerm(x, w, f)(i)) {
      DftTermAt(x, w, f, i);
      DftTermAt(ScaleSeq(x, c), w, f, i);
      MulShift(c, x[i], Tw(w, i, f));
    }
    SumScale(DftTerm(x, w, f), c, DftTerm(ScaleSeq(x, c), w, f), |x|);
  }

  // ----- scaled convolutions -----

  /** r is, modulo m, the cyclic convolution of x and y scaled by c. */
  ghost predicate IsConv(r: seq<int>, x: seq<int>, y: seq<int>, c: int, m: int)
    requires m > 0
  {
    |r| == |x| == |y| && forall t :: 0 <= t < |x| ==> Cong(r[t], Mul(c, Conv(x, y, t)), m)
  }

  lemma IsDftConv(x: seq<int>, y: seq<int>, X: seq<int>, Y: seq<int>, Z: seq<int>, w: int, k: nat, c: int, m: int)
    requires m > 0 && Root(w, k, m) && |x| == |y| == |Z| == Pow(2, k) > 0
    requires IsDft(X, x, w, m) && IsDft(Y, y, w, m)
    requires forall f :: 0 <= f < |x| ==> Cong(Z[f], Mul(c, Mul(X[f], Y[f])), m)
    ensures IsDft(Z, ScaleSeq(ConvSeq(x, y), c), w, m)
  {
    hide Cong, Mul, Dft, Root, Pow;
    forall f | 0 <= f < |x| ensures Cong(Z[f], Dft(ScaleSeq(ConvSeq(x, y), c), w, f), m) {
      var p, q, d := Dft(x, w, f), Dft(y, w, f), Dft(ConvSeq(x, y), w, f);
      MulCong2(X[f], p, Y[f], q, m);
      MulComm(p, q);
      ConvTheorem(x, y, w, k, f, m);
      CongSym(d, Mul(q, p), m);
      CongTrans(Mul(X[f], Y[f]), Mul(p, q), d, m);
      MulCong(Mul(X[f], Y[f]), d, c, m);
      CongTrans(Z[f], Mul(c, Mul(X[f], Y[f])), Mul(c, d), m);
      DftScale(ConvSeq(x, y), c, w, f);
    }
  }

  /** Transform, multiply pointwise with a factor c, transform back. */
  lemma ConvByDft(x: seq<int>, y: seq<int>, X: seq<int>, Y: seq<int>, Z: seq<int>, r: seq<int>,
                  w: int, v: int, k: nat, c: int, m: int)
    requires m > 0 && Root(w, k, m) && Cong(w * v, 1, m) && |x| == |y| == |Z| == Pow(2, k) > 0
    requires IsDft(X, x, w, m) && IsDft(Y, y, w, m) && IsDft(r, Z, v, m)
    requires forall f :: 0 <= f < |x| ==> Cong(Z[f], Mul(c, Mul(X[f], Y[f])), m)
    ensures IsConv(r, x, y, Mul(c, Pow(2, k)), m)
  {
    hide Cong, Mul, Dft, Root, Pow, Conv;
    IsDftConv(x, y, X, Y, Z, w, k, c, m);
    var s := ScaleSeq(ConvSeq(x, y), c);
    forall t | 0 <= t < |x| ensures Cong(r[t], Mul(Mul(c, Pow(2, k)), Conv(x, y, t)), m) {
      Inversion(s, Z, w, v, k, t, m);
      CongTrans(r[t], Dft(Z, v, t), Mul(s[t], Pow(2, k)), m);
      MulRotate(c, Conv(x, y, t), Pow(2, k));
    }
  }

  lemma MulRotate(a: int, b: int, c: int)
    ensures Mul(Mul(a, b), c) == Mul(Mul(a, c), b)
  {
    assert (a * b) * c == (a * c) * b;
  }

  // ----- the split -----

  ghost predicate PartialOk(y: seq<int>, x: seq<int>, n1: nat, n2: nat, w: int, m: int, f: int, j: int)
    requires m > 0
  {
    Cong(At(y, f * n2 + j), Mul(Dft(Strand(x, n2, n1, j), Pow(w, n2), f), Tw(w, j, f)), m)
  }

  /** Every column of x (stride n2) transformed, entry f of column j multiplied by w^(jf). */
  ghost predicate IsPartial(y: seq<int>, x: seq<int>, n1: nat, n2: nat, w: int, m: int)
    requires m > 0
  {
    && |y| == |x|
    && forall f, j :: 0 <= f < n1 && 0 <= j < n2 ==> PartialOk(y, x, n1, n2, w, m, f, j)
  }

  ghost function RowOf(y: seq<int>, n2: nat, f: int): (r: seq<int>)
    ensures |r| == n2
  {
    seq(n2, j => At(y, f * n2 + j))
  }

  lemma SplitIndex(i: nat, n1: nat, n2: nat, j: nat, f1: nat, f2: nat)
    ensures 0 <= i * f1 && 0 <= i * f2 && 0 <= j * f1 && 0 <= j * f2 && 0 <= n2 * (i * f1) && 0 <= n1 * (j * f2)
    ensures 0 <= n1 * n2 && 0 <= n1 * n2 * (i * f2)
    ensures (i * n2 + j) * (f1 + n1 * f2) == ((n2 * (i * f1) + n1 * n2 * (i * f2)) + j * f1) + n1 * (j * f2)
  {
    MulNonNeg(i, f1); MulNonNeg(i, f2); MulNonNeg(j, f1); MulNonNeg(j, f2);
    MulNonNeg(n2, i * f1); MulNonNeg(n1, j * f2); MulNonNeg(n1, n2); MulNonNeg(n1 * n2, i * f2);
    assert (i * n2 + j) * (f1 + n1 * f2) == i * n2 * f1 + i * n2 * (n1 * f2) + j * f1 + j * (n1 * f2);
    assert i * n2 * f1 == n2 * (i * f1);
    assert i * n2 * (n1 * f2) == n1 * n2 * (i * f2);
    assert j * (n1 * f2) == n1 * (j * f2);
  }

  lemma TwPow(w: int, n: nat, i: nat, f: nat)
    ensures 0 <= i * f && 0 <= n * (i * f)
    ensures Tw(Pow(w, n), i, f) == Pow(w, n * (i * f))
  {
    MulNonNeg(i, f);
    PowPow(w, n, i * f);
  }

  /** w^((i n2 + j)(f1 + n1 f2)) factors into a column twiddle, a correction and a row twiddle. */
  lemma TwSplit(w: int, k: nat, n1: nat, n2: nat, i: nat, j: nat, f1: nat, f2: nat, m: int)
    requires m > 0 && Root(w, k, m) && n1 * n2 == Pow(2, k)
    ensures Cong(Tw(w, i * n2 + j, f1 + n1 * f2),
                 Mul(Tw(Pow(w, n2), i, f1), Mul(Tw(w, j, f1), Tw(Pow(w, n1), j, f2))), m)
  {
    hide Cong, Mul, Pow, Root;
    SplitIndex(i, n1, n2, j, f1, f2);
    var a, b, c, d := n2 * (i * f1), n1 * n2 * (i * f2), j * f1, n1 * (j * f2);
    TwPow(w, n2, i, f1);
    TwPow(w, n1, j, f2);
    PowSplit(w, (a + b) + c, d, (a + b) + c + d);
    PowSplit(w, a + b, c, (a + b) + c);
    PowSplit(w, a, b, a + b);
    TwPeriod(w, k, i * f2, m);
    SplitAlgebra(Pow(w, a), Pow(w, b), Pow(w, c), Pow(w, d), m);
  }

  lemma SplitAlgebra(a: int, b: int, c: int, d: int, m: int)
    requires m > 0 && Cong(b, 1, m)
    ensures Cong(Mul(Mul(Mul(a, b), c), d), Mul(a, Mul(c, d)), m)
  {
    hide Cong;
    CongScale(b, 1, a * (c * d), m);
    assert ((a * b) * c) * d == b * (a * (c * d));
  }

  ghost function ColumnTerm(x: seq<int>, n2: nat, w: int, F: int, j: int): int -> int {
    i => Mul(At(x, i * n2 + j), Tw(w, i * n2 + j, F))
  }

  lemma ColumnSum(x: seq<int>, k: nat, n1: nat, n2: nat, w: int, f1: nat, f2: nat, j: nat, m: int)
    requires m > 0 && Root(w, k, m) && n1 * n2 == Pow(2, k)
    ensures Cong(Sum(ColumnTerm(x, n2, w, f1 + n1 * f2, j), n1),
                 Mul(Mul(Dft(Strand(x, n2, n1, j), Pow(w, n2), f1), Tw(w, j, f1)), Tw(Pow(w, n1), j, f2)), m)
  {
    hide Cong, Mul, Pow, Root, Sum, At, Tw;
    var col, W2 := Strand(x, n2, n1, j), Pow(w, n2);
    var p, q := Tw(w, j, f1), Tw(Pow(w, n1), j, f2);
    var g := Scaled(DftTerm(col, W2, f1), Mul(p, q));
    forall i | 0 <= i < n1 ensures Cong(ColumnTerm(x, n2, w, f1 + n1 * f2, j)(i), g(i), m) {
      TwSplit(w, k, n1, n2, i, j, f1, f2, m);
      DftTermAt(col, W2, f1, i);
      assert At(col, i) == At(x, i * n2 + j) by { StrandAt(x, n2, n1, j, i); }
      var a, t := At(x, i * n2 + j), Tw(W2, i, f1);
      MulCong(Tw(w, i * n2 + j, f1 + n1 * f2), Mul(t, Mul(p, q)), a, m);
      MulShift(a, t, Mul(p, q));
      MulComm(Mul(p, q), Mul(a, t));
    }
    SumCong(ColumnTerm(x, n2, w, f1 + n1 * f2, j), g, n1, m);
    SumScaled(DftTerm(col, W2, f1), Mul(p, q), n1);
    MulComm(Mul(p, q), Dft(col, W2, f1));
    MulShift(Dft(col, W2, f1), p, q);
  }

  lemma StrandAt(x: seq<int>, s: nat, len: nat, j: int, i: nat)
    requires i < len
    ensures At(Strand(x, s, len, j), i) == At(x, i * s + j)
  {}

  /** Row f1 of the split array, transformed with root w^n1, gives the frequencies f1 + n1 f2 of x. */
  lemma RowDft(y: seq<int>, x: seq<int>, k: nat, n1: nat, n2: nat, w: int, f1: nat, f2: nat, m: int)
    requires m > 0 && Root(w, k, m) && n1 * n2 == Pow(2, k) == |x| && IsPartial(y, x, n1, n2, w, m) && f1 < n1
    ensures Cong(Dft(RowOf(y, n2, f1), Pow(w, n1), f2), Dft(x, w, f1 + n1 * f2), m)
  {
    hide Cong, Mul, Pow, Root, Sum, At, Tw, DftTerm, ColumnTerm;
    var row, W1, F := RowOf(y, n2, f1), Pow(w, n1), f1 + n1 * f2;
    var h := DftTerm(x, w, F);
    SumFlatten(h, n1, n2);
    SumSwap(Flat(h, n2), n1, n2);
    var cols := Rows(Flip(Flat(h, n2)), n1);
    forall j | 0 <= j < n2 ensures Cong(DftTerm(row, W1, f2)(j), cols(j), m) {
      RowTerm(y, x, k, n1, n2, w, f1, f2, j, m);
    }
    SumCong(DftTerm(row, W1, f2), cols, n2, m);
  }

  lemma RowTerm(y: seq<int>, x: seq<int>, k: nat, n1: nat, n2: nat, w: int, f1: nat, f2: nat, j: nat, m: int)
    requires m > 0 && Root(w, k, m) && n1 * n2 == Pow(2, k) == |x| && IsPartial(y, x, n1, n2, w, m)
    requires f1 < n1 && j < n2
    ensures Cong(DftTerm(RowOf(y, n2, f1), Pow(w, n1), f2)(j),
                 Rows(Flip(Flat(DftTerm(x, w, f1 + n1 * f2), n2)), n1)(j), m)
  {
    hide Cong, Mul, Pow, Root, Sum, At, Tw, Dft;
    var row, W1, F := RowOf(y, n2, f1), Pow(w, n1), f1 + n1 * f2;
    var col := Row(Flip(Flat(DftTerm(x, w, F), n2)), j);
    forall i | 0 <= i < n1 ensures col(i) == ColumnTerm(x, n2, w, F, j)(i) {
      assert col(i) == DftTerm(x, w, F)(i * n2 + j);
      DftTermAt(x, w, F, i * n2 + j);
    }
    SumEq(col, ColumnTerm(x, n2, w, F, j), n1);
    ColumnSum(x, k, n1, n2, w, f1, f2, j, m);
    DftTermAt(row, W1, f2, j);
    RowAt(y, n2, f1, j);
    var e := Mul(Dft(Strand(x, n2, n1, j), Pow(w, n2), f1), Tw(w, j, f1));
    assert PartialOk(y, x, n1, n2, w, m, f1, j);
    MulCong(At(y, f1 * n2 + j), e, Tw(W1, j, f2), m);
    CongSym(Sum(ColumnTerm(x, n2, w, F, j), n1), Mul(e, Tw(W1, j, f2)), m);
    CongTrans(Mul(At(y, f1 * n2 + j), Tw(W1, j, f2)), Mul(e, Tw(W1, j, f2)), Sum(ColumnTerm(x, n2, w, F, j), n1), m);
  }

  lemma RowAt(y: seq<int>, n2: nat, f: int, j: nat)
    requires j < n2
    ensures At(RowOf(y, n2, f), j) == At(y, f * n2 + j)
  {}

  // ----- undoing the split -----

  ghost predicate UntwistOk(z: seq<int>, n2: nat, v: int, j: int, Z: seq<int>, m: int)
    requires m > 0
  {
    forall f :: 0 <= f < |Z| ==> Cong(Z[f], Mul(At(z, f * n2 + j), Tw(v, j, f)), m)
  }

  /** If z is c times the split form of t, undoing the twiddles of column j and
      transforming it back yields c n1 times column j of t. */
  lemma UnsplitColumn(z: seq<int>, y: seq<int>, t: seq<int>, Z: seq<int>, k1: nat, n2: nat, w: int, v: int, W2: int, c: int, i: nat, j: nat, m: int)
    requires m > 0 && W2 == Pow(w, n2) && Root(W2, k1, m) && Cong(w * v, 1, m)
    requires |Z| == Pow(2, k1) && IsPartial(y, t, |Z|, n2, w, m) && i < |Z| && j < n2
    requires forall f :: 0 <= f < |Z| ==> Cong(At(z, f * n2 + j), Mul(c, At(y, f * n2 + j)), m)
    requires UntwistOk(z, n2, v, j, Z, m)
    ensures Cong(Dft(Z, Pow(v, n2), i), Mul(Mul(c, Pow(2, k1)), At(t, i * n2 + j)), m)
  {
    hide Cong, Mul, Pow, Root, At, Tw, Dft, UntwistOk, IsPartial;
    var n1 := |Z|;
    var col := Strand(t, n2, n1, j);
    forall f | 0 <= f < n1 ensures Cong(Z[f], Dft(ScaleSeq(col, c), W2, f), m) {
      UntwistTerm(z, y, t, Z, n1, n2, w, v, c, f, j, m);
    }
    assert IsDft(Z, ScaleSeq(col, c), W2, m);
    InversePow(w, v, n2, m);
    Inversion(ScaleSeq(col, c), Z, W2, Pow(v, n2), k1, i, m);
    assert col[i] == At(t, i * n2 + j);
    MulRotate(c, At(t, i * n2 + j), n1);
  }

  lemma InversePow(w: int, v: int, n: nat, m: int)
    requires m > 0 && Cong(w * v, 1, m)
    ensures Cong(Pow(w, n) * Pow(v, n), 1, m)
  {
    hide Cong;
    PowMulBase(w, v, w * v, n);
    CongPow(w * v, 1, n, m);
    PowOne(n);
  }

  lemma UntwistTerm(z: seq<int>, y: seq<int>, t: seq<int>, Z: seq<int>, n1: nat, n2: nat, w: int, v: int, c: int, f: nat, j: nat, m: int)
    requires m > 0 && Cong(w * v, 1, m)
    requires IsPartial(y, t, n1, n2, w, m) && |Z| == n1 && f < n1 && j < n2
    requires Cong(At(z, f * n2 + j), Mul(c, At(y, f * n2 + j)), m)
    requires UntwistOk(z, n2, v, j, Z, m)
    ensures Cong(Z[f], Dft(ScaleSeq(Strand(t, n2, n1, j), c), Pow(w, n2), f), m)
  {
    hide Cong, Mul, Pow, At, Tw, Dft;
    var d := Dft(Strand(t, n2, n1, j), Pow(w, n2), f);
    assert PartialOk(y, t, n1, n2, w, m, f, j);
    TwInverse(w, v, j, f, m);
    UntwistAlgebra(Z[f], At(z, f * n2 + j), At(y, f * n2 + j), d, Tw(w, j, f), Tw(v, j, f), c, m);
    DftScale(Strand(t, n2, n1, j), c, Pow(w, n2), f);
  }

  lemma TwInverse(w: int, v: int, j: nat, f: nat, m: int)
    requires m > 0 && Cong(w * v, 1, m)
    ensures Cong(Mul(Tw(w, j, f), Tw(v, j, f)), 1, m)
  {
    MulNonNeg(j, f);
    InversePow(w, v, j * f, m);
  }

  lemma UntwistAlgebra(Z: int, z: int, y: int, d: int, p: int, q: int, c: int, m: int)
    requires m > 0 && Cong(Z, Mul(z, q), m) && Cong(z, Mul(c, y), m) && Cong(y, Mul(d, p), m) && Cong(Mul(p, q), 1, m)
    ensures Cong(Z, Mul(c, d), m)
  {
    hide Cong;
    CongScale(y, d * p, c, m);
    CongTrans(z, c * y, c * (d * p), m);
    CongScale(z, c * (d * p), q, m);
    CongTrans(Z, z * q, (c * (d * p)) * q, m);
    CongScale(p * q, 1, c * d, m);
    assert (c * (d * p)) * q == (c * d) * (p * q);
    CongTrans(Z, (c * (d * p)) * q, c * d, m);
  }

  // ----- the convolution in the split domain -----

  /** The split form of x with exact entries. */
  ghost function Partial(x: seq<int>, n1: nat, n2: nat, w: int): (y: seq<int>)
    requires n2 > 0
    ensures |y| == |x|
  {
    seq(|x|, t requires t >= 0 =>
      DivNonNeg(t, n2);
      Mul(Dft(Strand(x, n2, n1, t % n2), Pow(w, n2), t / n2), Tw(w, t % n2, t / n2)))
  }

  lemma PartialIs(x: seq<int>, n1: nat, n2: nat, w: int, m: int)
    requires m > 0 && n2 > 0 && |x| == n1 * n2
    ensures IsPartial(Partial(x, n1, n2, w), x, n1, n2, w, m)
  {
    hide Cong, Mul, Dft, Tw, Pow;
    var y := Partial(x, n1, n2, w);
    forall f, j | 0 <= f < n1 && 0 <= j < n2 ensures PartialOk(y, x, n1, n2, w, m, f, j) {
      FlatIndex(f, j, n1, n2);
      DivModUnique(f * n2 + j, n2, f, j);
      CongRefl(y[f * n2 + j], m);
    }
  }

  lemma FlatIndex(f: nat, j: nat, n1: nat, n2: nat)
    requires f < n1 && j < n2
    ensures 0 <= f * n2 + j < n1 * n2
  {
    MulNonNeg(f, n2);
    MulLe(f + 1, n1, n2);
  }

  /** Row f of the row-wise convolutions is a multiple of row f of the split convolution. */
  lemma RowConv(x: seq<int>, y: seq<int>, X: seq<int>, Y: seq<int>, T: seq<int>, z: seq<int>,
                k1: nat, k2: nat, w: int, v: int, u: int, c: int, f: nat, m: int)
    requires m > 0 && Root(w, k1 + k2, m) && Root(Pow(w, Pow(2, k1)), k2, m) && Cong(w * v, 1, m)
    requires Cong(u * Pow(2, k2), 1, m)
    requires Pow(2, k1) * Pow(2, k2) == Pow(2, k1 + k2) == |x| == |y| && Pow(2, k2) > 0 && Pow(2, k1 + k2) > 0
    requires IsPartial(X, x, Pow(2, k1), Pow(2, k2), w, m) && IsPartial(Y, y, Pow(2, k1), Pow(2, k2), w, m)
    requires IsPartial(T, ConvSeq(x, y), Pow(2, k1), Pow(2, k2), w, m)
    requires 0 <= f < Pow(2, k1)
    requires IsConv(RowOf(z, Pow(2, k2), f), RowOf(X, Pow(2, k2), f), RowOf(Y, Pow(2, k2), f), c, m)
    ensures SeqCong(RowOf(z, Pow(2, k2), f), ScaleSeq(RowOf(T, Pow(2, k2), f), c), m)
  {
    hide Cong, Mul, Dft, Tw, Pow, Root, IsPartial, Conv;
    var n1, n2 := Pow(2, k1), Pow(2, k2);
    var W1, V1 := Pow(w, n1), Pow(v, n1);
    var rx, ry, rt, rz := RowOf(X, n2, f), RowOf(Y, n2, f), RowOf(T, n2, f), RowOf(z, n2, f);
    var D := seq(n2, g requires 0 <= g < n2 => Dft(rz, W1, g));
    forall g | 0 <= g < n2 ensures Cong(D[g], Dft(rz, W1, g), m) { CongRefl(D[g], m); }
    forall g | 0 <= g < n2 ensures Cong(D[g], Dft(ScaleSeq(rt, c), W1, g), m) {
      RowDft(X, x, k1 + k2, n1, n2, w, f, g, m);
      RowDft(Y, y, k1 + k2, n1, n2, w, f, g, m);
      RowDft(T, ConvSeq(x, y), k1 + k2, n1, n2, w, f, g, m);
      MulNonNeg(n1, g);
      var F := f + n1 * g;
      ConvTheorem(x, y, w, k1 + k2, F, m);
      RowSpectrum(rz, rx, ry, W1, k2, c, g, m);
      DftScale(rt, c, W1, g);
      SpectrumAlgebra(D[g], Dft(rx, W1, g), Dft(ry, W1, g), Dft(rt, W1, g), Dft(x, w, F), Dft(y, w, F),
                      Dft(ConvSeq(x, y), w, F), c, m);
    }
    InversePow(w, v, n1, m);
    DftInjective(rz, ScaleSeq(rt, c), D, W1, V1, k2, u, m);
  }

  lemma SpectrumAlgebra(d: int, a: int, b: int, t: int, A: int, E: int, C: int, c: int, m: int)
    requires m > 0 && Cong(d, Mul(c, Mul(b, a)), m) && Cong(a, A, m) && Cong(b, E, m)
    requires Cong(C, Mul(E, A), m) && Cong(t, C, m)
    ensures Cong(d, Mul(c, t), m)
  {
    hide Cong, Mul;
    MulCong2(b, E, a, A, m);
    CongTrans(t, C, Mul(E, A), m);
    CongSym(t, Mul(E, A), m);
    CongTrans(Mul(b, a), Mul(E, A), t, m);
    MulCong(Mul(b, a), t, c, m);
    CongTrans(d, Mul(c, Mul(b, a)), Mul(c, t), m);
  }

  lemma RowSpectrum(z: seq<int>, x: seq<int>, y: seq<int>, w: int, k: nat, c: int, g: nat, m: int)
    requires m > 0 && Root(w, k, m) && |x| == |y| == Pow(2, k) > 0 && IsConv(z, x, y, c, m)
    ensures Cong(Dft(z, w, g), Mul(c, Mul(Dft(y, w, g), Dft(x, w, g))), m)
  {
    hide Cong, Mul, Dft, Root, Pow, Conv;
    var s := ConvSeq(x, y);
    CongRefl(w, m);
    DftCong(z, ScaleSeq(s, c), w, w, g, m);
    DftScale(s, c, w, g);
    ConvTheorem(x, y, w, k, g, m);
    MulCong(Dft(s, w, g), Mul(Dft(y, w, g), Dft(x, w, g)), c, m);
    CongTrans(Dft(z, w, g), Mul(c, Dft(s, w, g)), Mul(c, Mul(Dft(y, w, g), Dft(x, w, g))), m);
  }

  // ----- the whole split convolution -----

  /** Column j of r is column j of z with its twiddles undone and transformed back. */
  ghost predicate Unsplit(r: seq<int>, z: seq<int>, n1: nat, n2: nat, v: int, m: int)
    requires m > 0
  {
    |r| == |z| && forall i, j :: 0 <= i < n1 && 0 <= j < n2 ==> UnsplitOk(r, z, n1, n2, v, m, i, j)
  }

  ghost function Untwisted(z: seq<int>, n1: nat, n2: nat, v: int, j: int): (r: seq<int>)
    ensures |r| == n1
  {
    seq(n1, f => Mul(At(z, f * n2 + j), Tw(v, j, f)))
  }

  ghost predicate UnsplitOk(r: seq<int>, z: seq<int>, n1: nat, n2: nat, v: int, m: int, i: int, j: int)
    requires m > 0
  {
    Cong(At(r, i * n2 + j), Dft(Untwisted(z, n1, n2, v, j), Pow(v, n2), i), m)
  }

  lemma RowsScaled(z: seq<int>, T: seq<int>, c: int, n2: nat, f: nat, j: nat, m: int)
    requires m > 0 && j < n2 && SeqCong(RowOf(z, n2, f), ScaleSeq(RowOf(T, n2, f), c), m)
    ensures Cong(At(z, f * n2 + j), Mul(c, At(T, f * n2 + j)), m)
  {
    hide Cong, Mul, At;
    assert Cong(RowOf(z, n2, f)[j], ScaleSeq(RowOf(T, n2, f), c)[j], m);
  }

  lemma UntwistedOk(z: seq<int>, n1: nat, n2: nat, v: int, j: int, m: int)
    requires m > 0
    ensures UntwistOk(z, n2, v, j, Untwisted(z, n1, n2, v, j), m)
  {
    hide Cong, Mul, At, Tw;
    var Z := Untwisted(z, n1, n2, v, j);
    forall f | 0 <= f < |Z| ensures Cong(Z[f], Mul(At(z, f * n2 + j), Tw(v, j, f)), m) {
      CongRefl(Z[f], m);
    }
  }

  /** Convolving row by row in the split domain and undoing the split convolves the sequences. */
  lemma SplitConv(x: seq<int>, y: seq<int>, X: seq<int>, Y: seq<int>, z: seq<int>, r: seq<int>,
                  k1: nat, k2: nat, w: int, v: int, u: int, c: int, m: int)
    requires m > 0 && Root(w, k1 + k2, m) && Root(Pow(w, Pow(2, k1)), k2, m) && Root(Pow(w, Pow(2, k2)), k1, m)
    requires Cong(w * v, 1, m) && Cong(u * Pow(2, k2), 1, m)
    requires Pow(2, k1) > 0 && Pow(2, k2) > 0 && Pow(2, k1 + k2) > 0
    requires Pow(2, k1) * Pow(2, k2) == Pow(2, k1 + k2) == |x| == |y| == |z|
    requires IsPartial(X, x, Pow(2, k1), Pow(2, k2), w, m) && IsPartial(Y, y, Pow(2, k1), Pow(2, k2), w, m)
    requires forall f :: 0 <= f < Pow(2, k1) ==>
      IsConv(RowOf(z, Pow(2, k2), f), RowOf(X, Pow(2, k2), f), RowOf(Y, Pow(2, k2), f), c, m)
    requires Unsplit(r, z, Pow(2, k1), Pow(2, k2), v, m)
    ensures IsConv(r, x, y, Mul(c, Pow(2, k1)), m)
  {
    hide Cong, Mul, Dft, Tw, Pow, Root, IsPartial, Conv, IsConv, SeqCong, RowOf, At, UntwistOk;
    var n1, n2, t := Pow(2, k1), Pow(2, k2), ConvSeq(x, y);
    var T := Partial(t, n1, n2, w);
    PartialIs(t, n1, n2, w, m);
    forall f | 0 <= f < n1 ensures SeqCong(RowOf(z, n2, f), ScaleSeq(RowOf(T, n2, f), c), m) {
      RowConv(x, y, X, Y, T, z, k1, k2, w, v, u, c, f, m);
    }
    var e := Mul(c, n1);
    forall i, j | 0 <= i < n1 && 0 <= j < n2 ensures CellCong(r, t, e, n2, i, j, m) {
      SplitCell(z, T, t, r, k1, n2, w, v, c, i, j, m);
    }
    CellsConv(r, x, y, e, n1, n2, m);
  }

  ghost predicate CellCong(r: seq<int>, t: seq<int>, e: int, n2: nat, i: nat, j: nat, m: int)
    requires m > 0
  {
    Cong(At(r, i * n2 + j), Mul(e, At(t, i * n2 + j)), m)
  }

  lemma SplitCell(z: seq<int>, T: seq<int>, t: seq<int>, r: seq<int>, k1: nat, n2: nat, w: int, v: int, c: int, i: nat, j: nat, m: int)
    requires m > 0 && Root(Pow(w, n2), k1, m) && Cong(w * v, 1, m)
    requires Pow(2, k1) > 0 && i < Pow(2, k1) && j < n2
    requires IsPartial(T, t, Pow(2, k1), n2, w, m)
    requires forall f :: 0 <= f < Pow(2, k1) ==> SeqCong(RowOf(z, n2, f), ScaleSeq(RowOf(T, n2, f), c), m)
    requires Unsplit(r, z, Pow(2, k1), n2, v, m)
    ensures CellCong(r, t, Mul(c, Pow(2, k1)), n2, i, j, m)
  {
    hide Cong, Mul, Dft, Tw, Pow, Root, IsPartial, SeqCong, RowOf, At, UntwistOk;
    var n1 := Pow(2, k1);
    var Z := Untwisted(z, n1, n2, v, j);
    UntwistedOk(z, n1, n2, v, j, m);
    forall f | 0 <= f < |Z| ensures Cong(At(z, f * n2 + j), Mul(c, At(T, f * n2 + j)), m) {
      RowsScaled(z, T, c, n2, f, j, m);
    }
    UnsplitColumn(z, T, t, Z, k1, n2, w, v, Pow(w, n2), c, i, j, m);
    assert UnsplitOk(r, z, n1, n2, v, m, i, j);
    CongTrans(At(r, i * n2 + j), Dft(Z, Pow(v, n2), i), Mul(Mul(c, n1), At(t, i * n2 + j)), m);
  }

  lemma CellsConv(r: seq<int>, x: seq<int>, y: seq<int>, e: int, n1: nat, n2: nat, m: int)
    requires m > 0 && n2 > 0 && |r| == |x| == |y| == n1 * n2
    requires forall i, j :: 0 <= i < n1 && 0 <= j < n2 ==> CellCong(r, ConvSeq(x, y), e, n2, i, j, m)
    ensures IsConv(r, x, y, e, m)
  {
    hide Cong, Mul, Conv;
    forall s | 0 <= s < |x| ensures Cong(r[s], Mul(e, Conv(x, y, s)), m) {
      var i, j := s / n2, s % n2;
      DivNonNeg(s, n2);
      assert n1 * n2 == n2 * n1;
      DivLess(s, n2, n1);
      assert s == i * n2 + j;
      assert CellCong(r, ConvSeq(x, y), e, n2, i, j, m);
    }
  }
}
