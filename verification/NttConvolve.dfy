/** ntt_vec_mul and ntt_conv: the cyclic convolution of two buffers modulo m. */
module NttConvolve {
  import opened Arith
  import opened Word
  import opened Limbs
  import opened ModMul
  import opened Fourier
  import opened Stockham
  import opened FourStep
  import opened NttFft
  import opened NttState
  import opened NttConv
  import opened NttPartial

  // ----- pointwise product -----

  ghost predicate VecEntry(z: limb, a: limb, b: limb, c: int, m: limb)
    requires m > 0
  {
    z < 2 * m && Cong(z, Mul(c, Mul(a, b)), m)
  }

  ghost predicate VecInv(z: seq<limb>, x: seq<limb>, y: seq<limb>, c: int, m: limb, n: nat)
    requires m > 0
  {
    |z| == |x| == |y| && forall i :: 0 <= i < |x| ==> if i < n then VecEntry(z[i], x[i], y[i], c, m) else z[i] == x[i]
  }

  lemma VecBound(a: limb, b: limb, m: limb)
    requires Modulus(m) && a < m && b < 2 * m
    ensures a * b < P125
  {
    TwistBound(b, a, m);
    assert a * b == b * a;
  }

  lemma VecStep(r: limb, p: limb, a: limb, a0: limb, b: limb, c: int, m: limb)
    requires m > 0 && r < 2 * m && Cong(r, p * c, m) && Cong(p, a * b, m)
    requires a == a0 || a == a0 - m
    ensures VecEntry(r, a0, b, c, m)
  {
    hide Cong;
    CongIntro(a, a0, m, if a == a0 then 0 else -1);
    CongScale(a, a0, b, m);
    CongTrans(p, a * b, a0 * b, m);
    CongScale(p, a0 * b, c, m);
    CongTrans(r, p * c, (a0 * b) * c, m);
    assert (a0 * b) * c == c * (a0 * b);
  }

  /** ntt_vec_mul: pointwise product times 1/2^kTot. */
  method VecMul(T: Tables, buf1: array<limb>, o1: nat, buf2: array<limb>, o2: nat, n: nat, kTot: nat)
    requires Valid(T) && kTot <= T.top && buf1 != buf2 && o1 + n <= buf1.Length && o2 + n <= buf2.Length
    requires Below(buf1[o1..o1 + n], 2 * T.m) && Below(buf2[o2..o2 + n], 2 * T.m)
    modifies buf1
    ensures VecInv(buf1[o1..o1 + n], old(buf1[o1..o1 + n]), buf2[o2..o2 + n], T.lenInv[kTot], T.m, n)
    ensures forall t :: 0 <= t < buf1.Length && !(o1 <= t < o1 + n) ==> buf1[t] == old(buf1[t])
  {
    hide Cong, Mul, Pow, RootRow, TopPair, InitModFast, InitMulMod, VecEntry;
    var m := T.m;
    var norm, normInv := T.lenInv[kTot], T.lenInvInv[kTot];
    assert LenEntry(norm, normInv, kTot, m);
    ghost var x, y := buf1[o1..o1 + n], buf2[o2..o2 + n];
    var i := 0;
    while i < n
      invariant 0 <= i <= n && buf2[o2..o2 + n] == y
      invariant VecInv(buf1[o1..o1 + n], x, y, norm, m, i)
      invariant forall t :: 0 <= t < buf1.Length && !(o1 <= t < o1 + n) ==> buf1[t] == old(buf1[t])
    {
      ghost var before := buf1[o1..o1 + n];
      assert buf1[o1 + i] == before[i] == x[i] && buf2[o2 + i] == y[i];
      var a := buf1[o1 + i];
      if a >= m { a := a - m; }
      VecBound(a, buf2[o2 + i], m);
      var p := MulModFast(a, buf2[o2 + i], m, T.mInv);
      var r := MulModFast3(p, norm, m, normInv);
      VecStep(r, p, a, x[i], y[i], norm, m);
      buf1[o1 + i] := r;
      assert buf1[o1..o1 + n] == before[i := r];
      i := i + 1;
    }
  }

  lemma VecDone(z: seq<limb>, x: seq<limb>, y: seq<limb>, c: int, m: limb)
    requires m > 0 && VecInv(z, x, y, c, m, |x|)
    ensures Below(z, 2 * m) && forall f :: 0 <= f < |x| ==> Cong(z[f], Mul(c, Mul(x[f], y[f])), m)
  {
    hide Cong, Mul;
    forall f | 0 <= f < |x| ensures VecEntry(z[f], x[f], y[f], c, m) {}
  }

  // ----- the base case -----

  /** Convolution by one full-length transform. */
  method ConvolveDirect(T: Tables, buf1: array<limb>, o1: nat, buf2: array<limb>, o2: nat, k: nat, kTot: nat)
    requires Valid(T) && 1 <= k <= TRIG_K_MAX && k <= T.top && kTot <= T.top && buf1 != buf2
    requires Pow(2, k) > 0 && o1 + Pow(2, k) <= buf1.Length && o2 + Pow(2, k) <= buf2.Length
    requires Below(buf1[o1..o1 + Pow(2, k)], 2 * T.m) && Below(buf2[o2..o2 + Pow(2, k)], 2 * T.m)
    modifies buf1, buf2
    ensures IsConv(buf1[o1..o1 + Pow(2, k)], old(buf1[o1..o1 + Pow(2, k)]), old(buf2[o2..o2 + Pow(2, k)]),
                   Mul(T.lenInv[kTot], Pow(2, k)), T.m)
    ensures Below(buf1[o1..o1 + Pow(2, k)], 2 * T.m)
    ensures forall t :: 0 <= t < buf1.Length && !(o1 <= t < o1 + Pow(2, k)) ==> buf1[t] == old(buf1[t])
    ensures forall t :: 0 <= t < buf2.Length && !(o2 <= t < o2 + Pow(2, k)) ==> buf2[t] == old(buf2[t])
  {
    hide Cong, Mul, Pow, RootRow, TopPair, LenRow, InitModFast, InitMulMod, VecInv, IsDft, IsConv, Root;
    var n := Pow(2, k);
    var tmp := new limb[n];
    ghost var x, y := buf1[o1..o1 + n], buf2[o2..o2 + n];
    Fft(T, buf1, o1, tmp, k, 0);
    ghost var X := buf1[o1..o1 + n];
    Fft(T, buf2, o2, tmp, k, 0);
    ghost var Y := buf2[o2..o2 + n];
    assert buf1[o1..o1 + n] == X;
    VecMul(T, buf1, o1, buf2, o2, n, kTot);
    ghost var Z := buf1[o1..o1 + n];
    DftLength(X, x, T.root[0][k], T.m);
    VecDone(Z, X, Y, T.lenInv[kTot], T.m);
    Fft(T, buf1, o1, tmp, k, 1);
    RootsAre(T, 0, k);
    RootsInverse(T, k);
    InverseProduct(T.root[0][k], T.root[1][k], T.m);
    ConvByDft(x, y, X, Y, Z, buf1[o1..o1 + n], T.root[0][k], T.root[1][k], k, T.lenInv[kTot], T.m);
  }

  lemma InverseProduct(w: int, v: int, m: int)
    requires m > 0 && Cong(Mul(w, v), 1, m)
    ensures Cong(w * v, 1, m)
  {}

  lemma DftLength(X: seq<int>, x: seq<int>, w: int, m: int)
    requires m > 0 && IsDft(X, x, w, m)
    ensures |X| == |x|
  {}

  // ----- the split case -----

  lemma PartForward(X: seq<limb>, x: seq<limb>, n1: nat, n2: nat, w: int, m: int)
    requires m > 0 && PartInv(X, x, 0, n1, n2, w, m, n2)
    ensures IsPartial(X, x, n1, n2, w, m)
  {
    hide Cong, Mul, Pow, Dft, At, Tw;
    forall f, j | 0 <= f < n1 && 0 <= j < n2 ensures PartialOk(X, x, n1, n2, w, m, f, j) {
      assert PartCol(X, x, 0, n1, n2, w, m, n2, j);
      assert Cong(Strand(X, n2, n1, j)[f], ColVal(0, Strand(x, n2, n1, j), w, n2, j, f), m);
    }
  }

  lemma PartInverse(r: seq<limb>, z: seq<limb>, n1: nat, n2: nat, v: int, m: int)
    requires m > 0 && PartInv(r, z, 1, n1, n2, v, m, n2)
    ensures Unsplit(r, z, n1, n2, v, m)
  {
    hide Cong, Mul, Pow, Dft, At, Tw;
    forall i, j | 0 <= i < n1 && 0 <= j < n2 ensures UnsplitOk(r, z, n1, n2, v, m, i, j) {
      assert PartCol(r, z, 1, n1, n2, v, m, n2, j);
      assert Cong(Strand(r, n2, n1, j)[i], ColVal(1, Strand(z, n2, n1, j), v, n2, j, i), m);
      assert TwistSeq(Strand(z, n2, n1, j), v, j) == Untwisted(z, n1, n2, v, j);
    }
  }

  /** Row f of the two windows after the rows below i have been convolved. */
  ghost predicate RowDone(z: seq<limb>, y: seq<limb>, X: seq<limb>, Y: seq<limb>, n2: nat, c: int, m: int, i: nat, f: nat)
    requires m > 0
  {
    if f < i then IsConv(RowOf(z, n2, f), RowOf(X, n2, f), RowOf(Y, n2, f), c, m)
    else RowOf(z, n2, f) == RowOf(X, n2, f) && RowOf(y, n2, f) == RowOf(Y, n2, f)
  }

  ghost predicate RowsInv(z: seq<limb>, y: seq<limb>, X: seq<limb>, Y: seq<limb>, n1: nat, n2: nat, c: int, m: int, i: nat)
    requires m > 0
  {
    |z| == |X| && forall f :: 0 <= f < n1 ==> RowDone(z, y, X, Y, n2, c, m, i, f)
  }

  lemma RowsStep(z0: seq<limb>, z1: seq<limb>, y0: seq<limb>, y1: seq<limb>, X: seq<limb>, Y: seq<limb>,
                 n1: nat, n2: nat, c: int, m: int, i: nat, o: nat)
    requires m > 0 && RowsInv(z0, y0, X, Y, n1, n2, c, m, i) && i < n1 && o == i * n2
    requires |z0| == |z1| == |y0| == |y1| && o + n2 <= |z0|
    requires forall t :: 0 <= t < |z0| && !(o <= t < o + n2) ==> z1[t] == z0[t]
    requires forall t :: 0 <= t < |y0| && !(o <= t < o + n2) ==> y1[t] == y0[t]
    requires IsConv(z1[o..o + n2], z0[o..o + n2], y0[o..o + n2], c, m)
    ensures RowsInv(z1, y1, X, Y, n1, n2, c, m, i + 1)
  {
    hide IsConv, RowOf;
    var e := i + 1;
    RowWindow(z0, n2, i, o);
    RowWindow(z1, n2, i, o);
    RowWindow(y0, n2, i, o);
    forall f | 0 <= f < n1 ensures RowDone(z1, y1, X, Y, n2, c, m, e, f) {
      assert RowDone(z0, y0, X, Y, n2, c, m, i, f);
      if f != i {
        RowKept(z0, z1, n2, i, f, o);
        RowKept(y0, y1, n2, i, f, o);
      }
    }
  }

  lemma RowFits(i: nat, n1: nat, n2: nat)
    requires i < n1
    ensures 0 <= i * n2 && i * n2 + n2 <= Mul(n1, n2)
  {
    MulNonNeg(i, n2);
    MulLe(i + 1, n1, n2);
  }

  lemma SplitSizes(k1: nat, k2: nat)
    ensures Pow(2, k1) > 0 && Pow(2, k2) > 0 && Mul(Pow(2, k1), Pow(2, k2)) == Pow(2, k1 + k2) > 0
  {
    PowPos(2, k1);
    PowPos(2, k2);
    PowPos(2, k1 + k2);
    PowAdd(2, k1, k2);
  }

  /** The facts about the roots that the split needs. */
  lemma SplitRoots(T: Tables, k1: nat, k2: nat)
    requires Valid(T) && 1 <= k1 && 1 <= k2 && k1 + k2 <= T.top
    ensures Root(T.root[0][k1 + k2], k1 + k2, T.m)
    ensures Root(Pow(T.root[0][k1 + k2], Pow(2, k1)), k2, T.m)
    ensures Root(Pow(T.root[0][k1 + k2], Pow(2, k2)), k1, T.m)
    ensures Cong(Mul(T.root[0][k1 + k2], T.root[1][k1 + k2]), 1, T.m)
    ensures Cong(Mul(T.lenInv[k2], Pow(2, k2)), 1, T.m)
  {
    hide Cong, Pow, Root, RootRow, TopPair, InitModFast;
    RootsAre(T, 0, k1 + k2);
    RootPow(T.root[0][k1 + k2], k1 + k2, k1, T.m);
    RootPow(T.root[0][k1 + k2], k1 + k2, k2, T.m);
    RootsInverse(T, k1 + k2);
    assert LenEntry(T.lenInv[k2], T.lenInvInv[k2], k2, T.m);
  }

  lemma NormSplit(c: int, k1: nat, k2: nat)
    ensures Mul(Mul(c, Pow(2, k2)), Pow(2, k1)) == Mul(c, Pow(2, k1 + k2))
  {
    PowAdd(2, k1, k2);
    assert (c * Pow(2, k2)) * Pow(2, k1) == c * (Pow(2, k1) * Pow(2, k2));
  }

  lemma SplitDone(T: Tables, x: seq<limb>, y: seq<limb>, X: seq<limb>, Y: seq<limb>, z: seq<limb>, yy: seq<limb>, r: seq<limb>,
                  k1: nat, k2: nat, c: int)
    requires Valid(T) && 1 <= k1 && 1 <= k2 && k1 + k2 <= T.top && Pow(2, k1) > 0 && Pow(2, k2) > 0
    requires |x| == |y| == |z| == Pow(2, k1 + k2)
    requires PartInv(X, x, 0, Pow(2, k1), Pow(2, k2), T.root[0][k1 + k2], T.m, Pow(2, k2))
    requires PartInv(Y, y, 0, Pow(2, k1), Pow(2, k2), T.root[0][k1 + k2], T.m, Pow(2, k2))
    requires RowsInv(z, yy, X, Y, Pow(2, k1), Pow(2, k2), Mul(c, Pow(2, k2)), T.m, Pow(2, k1))
    requires PartInv(r, z, 1, Pow(2, k1), Pow(2, k2), T.root[1][k1 + k2], T.m, Pow(2, k2))
    ensures IsConv(r, x, y, Mul(c, Pow(2, k1 + k2)), T.m)
  {
    hide Cong, Pow, Root, RootRow, TopPair, InitModFast, LenRow, PartInv, IsPartial, IsConv, Unsplit, RowOf;
    var n1, n2, w, v, m, d := Pow(2, k1), Pow(2, k2), T.root[0][k1 + k2], T.root[1][k1 + k2], T.m, Mul(c, Pow(2, k2));
    PartForward(X, x, n1, n2, w, m);
    PartForward(Y, y, n1, n2, w, m);
    PartInverse(r, z, n1, n2, v, m);
    SplitSizes(k1, k2);
    SplitRoots(T, k1, k2);
    forall f | 0 <= f < n1 ensures IsConv(RowOf(z, n2, f), RowOf(X, n2, f), RowOf(Y, n2, f), d, m) {
      assert RowDone(z, yy, X, Y, n2, d, m, n1, f);
    }
    SplitConv(x, y, X, Y, z, r, k1, k2, w, v, T.lenInv[k2], d, m);
    NormSplit(c, k1, k2);
  }

  /** ntt_conv: the window of buf1 becomes 2^k / 2^kTot times the cyclic convolution of the two windows. */
  method Convolve(T: Tables, buf1: array<limb>, o1: nat, buf2: array<limb>, o2: nat, k: nat, kTot: nat)
    requires Valid(T) && 1 <= k <= T.top && kTot <= T.top && buf1 != buf2
    requires Pow(2, k) > 0 && o1 + Pow(2, k) <= buf1.Length && o2 + Pow(2, k) <= buf2.Length
    requires Below(buf1[o1..o1 + Pow(2, k)], 2 * T.m) && Below(buf2[o2..o2 + Pow(2, k)], 2 * T.m)
    modifies buf1, buf2
    ensures IsConv(buf1[o1..o1 + Pow(2, k)], old(buf1[o1..o1 + Pow(2, k)]), old(buf2[o2..o2 + Pow(2, k)]),
                   Mul(T.lenInv[kTot], Pow(2, k)), T.m)
    ensures Below(buf1[o1..o1 + Pow(2, k)], 2 * T.m)
    ensures forall t :: 0 <= t < buf1.Length && !(o1 <= t < o1 + Pow(2, k)) ==> buf1[t] == old(buf1[t])
    ensures forall t :: 0 <= t < buf2.Length && !(o2 <= t < o2 + Pow(2, k)) ==> buf2[t] == old(buf2[t])
    decreases k, 1
  {
    hide Cong, Mul, Pow, RootRow, TopPair, LenRow, InitModFast, RowsInv, PartInv, IsConv, Root;
    if k <= TRIG_K_MAX {
      ConvolveDirect(T, buf1, o1, buf2, o2, k, kTot);
      return;
    }
    var k1 := if k / 2 <= TRIG_K_MAX then k / 2 else TRIG_K_MAX;
    var k2 := k - k1;
    SplitSizes(k1, k2);
    ghost var n, m := Pow(2, k), T.m;
    ghost var x, y := buf1[o1..o1 + n], buf2[o2..o2 + n];
    FftPartial(T, buf1, o1, k1, k2, 0);
    ghost var X := buf1[o1..o1 + n];
    FftPartial(T, buf2, o2, k1, k2, 0);
    ghost var Y := buf2[o2..o2 + n];
    assert buf1[o1..o1 + n] == X;
    ConvolveRows(T, buf1, o1, buf2, o2, k1, k2, kTot);
    ghost var z, yy := buf1[o1..o1 + n], buf2[o2..o2 + n];
    FftPartial(T, buf1, o1, k1, k2, 1);
    SplitDone(T, x, y, X, Y, z, yy, buf1[o1..o1 + n], k1, k2, T.lenInv[kTot]);
  }

  /** The row loop of ntt_conv. */
  method ConvolveRows(T: Tables, buf1: array<limb>, o1: nat, buf2: array<limb>, o2: nat, k1: nat, k2: nat, kTot: nat)
    requires Valid(T) && 1 <= k1 && 1 <= k2 && k1 + k2 <= T.top && kTot <= T.top && buf1 != buf2
    requires Pow(2, k1) > 0 && Pow(2, k2) > 0 && Mul(Pow(2, k1), Pow(2, k2)) == Pow(2, k1 + k2) > 0
    requires o1 + Pow(2, k1 + k2) <= buf1.Length && o2 + Pow(2, k1 + k2) <= buf2.Length
    requires Below(buf1[o1..o1 + Pow(2, k1 + k2)], 2 * T.m) && Below(buf2[o2..o2 + Pow(2, k1 + k2)], 2 * T.m)
    modifies buf1, buf2
    ensures RowsInv(buf1[o1..o1 + Pow(2, k1 + k2)], buf2[o2..o2 + Pow(2, k1 + k2)],
                    old(buf1[o1..o1 + Pow(2, k1 + k2)]), old(buf2[o2..o2 + Pow(2, k1 + k2)]),
                    Pow(2, k1), Pow(2, k2), Mul(T.lenInv[kTot], Pow(2, k2)), T.m, Pow(2, k1))
    ensures Below(buf1[o1..o1 + Pow(2, k1 + k2)], 2 * T.m)
    ensures forall t :: 0 <= t < buf1.Length && !(o1 <= t < o1 + Pow(2, k1 + k2)) ==> buf1[t] == old(buf1[t])
    ensures forall t :: 0 <= t < buf2.Length && !(o2 <= t < o2 + Pow(2, k1 + k2)) ==> buf2[t] == old(buf2[t])
    decreases k1 + k2, 0
  {
    hide Cong, Mul, Pow, RootRow, TopPair, LenRow, InitModFast, RowsInv, IsConv, Root;
    var n1, n2 := Pow(2, k1), Pow(2, k2);
    ghost var n, m, c := Pow(2, k1 + k2), T.m, Mul(T.lenInv[kTot], n2);
    ghost var X, Y := buf1[o1..o1 + n], buf2[o2..o2 + n];
    RowsStart(X, Y, n1, n2, c, m);
    var i := 0;
    while i < n1
      invariant 0 <= i <= n1
      invariant RowsInv(buf1[o1..o1 + n], buf2[o2..o2 + n], X, Y, n1, n2, c, m, i)
      invariant Below(buf1[o1..o1 + n], 2 * m) && RowsBelow(buf2[o2..o2 + n], i, n2, 2 * m)
      invariant forall t :: 0 <= t < buf1.Length && !(o1 <= t < o1 + n) ==> buf1[t] == old(buf1[t])
      invariant forall t :: 0 <= t < buf2.Length && !(o2 <= t < o2 + n) ==> buf2[t] == old(buf2[t])
    {
      RowFits(i, n1, n2);
      var o := i * n2;
      ghost var z0, y0 := buf1[o1..o1 + n], buf2[o2..o2 + n];
      SubWindow(buf1[..], o1, n, o, o + n2);
      SubWindow(buf2[..], o2, n, o, o + n2);
      BelowWindow(z0, y0, o, i, n2, 2 * m);
      Convolve(T, buf1, o1 + o, buf2, o2 + o, k2, kTot);
      ghost var z1, y1 := buf1[o1..o1 + n], buf2[o2..o2 + n];
      SubWindow(buf1[..], o1, n, o, o + n2);
      RowsStep(z0, z1, y0, y1, X, Y, n1, n2, c, m, i, o);
      BelowKept(z0, z1, o, n2, 2 * m);
      RowsBelowKept(y0, y1, i, n2, 2 * m);
      i := i + 1;
    }
  }

  lemma RowsStart(X: seq<limb>, Y: seq<limb>, n1: nat, n2: nat, c: int, m: int)
    requires m > 0
    ensures RowsInv(X, Y, X, Y, n1, n2, c, m, 0)
  {}

  /** The rows of the second buffer that are still to be used are in range. */
  ghost predicate RowsBelow(y: seq<limb>, i: nat, n2: nat, c: int) {
    forall t :: 0 <= t < |y| && i * n2 <= t ==> y[t] < c
  }

  lemma BelowWindow(z: seq<limb>, y: seq<limb>, o: nat, i: nat, n2: nat, c: int)
    requires o == i * n2 && o + n2 <= |z| && o + n2 <= |y| && Below(z, c) && RowsBelow(y, i, n2, c)
    ensures Below(z[o..o + n2], c) && Below(y[o..o + n2], c)
  {}

  lemma RowsBelowKept(y0: seq<limb>, y1: seq<limb>, i: nat, n2: nat, c: int)
    requires |y0| == |y1| && RowsBelow(y0, i, n2, c)
    requires forall t :: 0 <= t < |y0| && !(i * n2 <= t < i * n2 + n2) ==> y1[t] == y0[t]
    ensures RowsBelow(y1, i + 1, n2, c)
  {
    assert (i + 1) * n2 == i * n2 + n2;
  }
}
