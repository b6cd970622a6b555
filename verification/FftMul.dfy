/** ntt_static_init and fft_mul: the transform product of two limb arrays. */
module FftMul {
  import opened Arith
  import opened Sums
  import opened Word
  import opened Limbs
  import opened Bits
  import opened ModMul
  import opened Fourier
  import opened FourStep
  import opened NttFft
  import opened NttState
  import opened NttConvolve
  import opened Digits
  import opened LimbNtt
  import opened NttMods
  import opened NttSize
  import opened NttLimb
  import opened NttToLimb

  // ----- static tables -----

  ghost predicate ReadyAt(Ts: seq<Tables>, j: nat) {
    j < |Ts| && j < NB_MODS && Valid(Ts[j]) && Ts[j].m == MODS[j] && Ts[j].top == PROOT_2EXP
  }

  ghost predicate Ready(Ts: seq<Tables>) {
    |Ts| == NB_MODS && forall j :: 0 <= j < NB_MODS ==> ReadyAt(Ts, j)
  }

  lemma PlainProduct(a: int, b: int, m: int)
    requires m > 0 && Cong(Mul(a, b), 1, m)
    ensures Cong(a * b, 1, m)
  {}

  /** ntt_static_init: tables for the five moduli and the scaled remaindering inverses. */
  method StaticInit(top: nat) returns (Ts: seq<Tables>, crInv: seq<limb>)
    requires top == PROOT_2EXP
    ensures Ready(Ts) && CrTable(crInv)
  {
    hide Valid, Root, Pow, Cong, CrTable, Mul;
    Ts := [];
    var j := 0;
    while j < NB_MODS
      invariant 0 <= j <= NB_MODS && |Ts| == j
      invariant forall t :: 0 <= t < j ==> ReadyAt(Ts, t)
    {
      ProotsValid(j, top);
      PlainProduct(PROOT0[j], PROOT1[j], MODS[j]);
      var T := Init(MODS[j], PROOT0[j], PROOT1[j], top);
      ghost var before := Ts;
      Ts := Ts + [T];
      forall t | 0 <= t < j + 1 ensures ReadyAt(Ts, t) {
        if t < j { assert ReadyAt(before, t); }
      }
      j := j + 1;
    }
    crInv := InitCr();
  }

  // ----- rows of the buffers -----

  /** Row j as a window of the buffer. */
  lemma RowWindowIs(buf: seq<limb>, L: nat, D: seq<int>, m: limb, j: nat)
    requires m > 0 && ResRow(buf, L, D, m, j) && |D| == L >= 1
    ensures 0 <= j * L && j * L + L <= |buf|
    ensures Below(buf[j * L..j * L + L], m) && SeqCong(buf[j * L..j * L + L], D, m)
  {
    hide Cong;
    MulNonNeg(j, L);
    assert ResCell(buf, L, D, m, j, L - 1);
    var w := buf[j * L..j * L + L];
    forall i | 0 <= i < L ensures w[i] < m && Cong(w[i], D[i], m) {
      assert ResCell(buf, L, D, m, j, i) && w[i] == buf[j * L + i];
    }
  }

  /** What one call of ntt_conv leaves in its row. */
  lemma RowConvolved(buf: seq<limb>, L: nat, o: nat, j: nat, x: seq<int>, y: seq<int>, DA: seq<int>, DB: seq<int>, c: int)
    requires o + j < NB_MODS && 0 <= j * L && j * L + L <= |buf| && |x| == |y| == L
    requires SeqCong(x, DA, MODS[o + j]) && SeqCong(y, DB, MODS[o + j]) && Cong(c, 1, MODS[o + j])
    requires IsConv(buf[j * L..j * L + L], x, y, c, MODS[o + j]) && Below(buf[j * L..j * L + L], 2 * MODS[o + j])
    ensures CoefRow(buf, L, o, ConvSeq(DA, DB), j)
  {
    hide Cong, Conv, Mul;
    var m := MODS[o + j];
    forall i | 0 <= i < L ensures CoefCell(buf, L, o, ConvSeq(DA, DB), j, i) {
      var z := buf[j * L..j * L + L];
      assert z[i] == buf[j * L + i];
      ConvCong(x, y, DA, DB, i, m);
      MulCong(c, 1, Conv(x, y, i), m);
      MulOne(Conv(x, y, i));
      CongTrans(z[i], Mul(c, Conv(x, y, i)), Conv(x, y, i), m);
      CongTrans(z[i], Conv(x, y, i), Conv(DA, DB, i), m);
    }
  }

  /** Row t of the first buffer when the rows below j have been convolved. */
  ghost predicate RowState(buf: seq<limb>, L: nat, o: nat, C: seq<int>, D: seq<int>, j: nat, t: nat) {
    o + t < NB_MODS && if t < j then CoefRow(buf, L, o, C, t) else ResRow(buf, L, D, MODS[o + t], t)
  }

  ghost predicate BufState(buf: seq<limb>, L: nat, o: nat, C: seq<int>, D: seq<int>, j: nat) {
    o <= NB_MODS && forall t :: 0 <= t < NB_MODS - o ==> RowState(buf, L, o, C, D, j, t)
  }

  /** Rows from j on of the second buffer are still untouched. */
  ghost predicate Pending(buf: seq<limb>, L: nat, o: nat, D: seq<int>, j: nat) {
    o <= NB_MODS && forall t :: j <= t < NB_MODS - o ==> PendingRow(buf, L, o, D, t)
  }

  ghost predicate PendingRow(buf: seq<limb>, L: nat, o: nat, D: seq<int>, t: nat) {
    o + t < NB_MODS && ResRow(buf, L, D, MODS[o + t], t)
  }

  lemma RowApart(t: nat, i: nat, j: nat, L: nat)
    requires i < L && t != j
    ensures !(j * L <= t * L + i < j * L + L)
  {
    if t < j { MulLe(t + 1, j, L); } else { MulLe(j + 1, t, L); }
  }

  lemma ResRowKept(b0: seq<limb>, b1: seq<limb>, L: nat, D: seq<int>, m: limb, j: nat, t: nat)
    requires m > 0 && t != j && ResRow(b0, L, D, m, t) && SameOutside(b0, b1, j * L, j * L + L)
    ensures ResRow(b1, L, D, m, t)
  {
    hide Cong;
    forall i | 0 <= i < L ensures ResCell(b1, L, D, m, t, i) {
      assert ResCell(b0, L, D, m, t, i);
      RowApart(t, i, j, L);
    }
  }

  lemma CoefRowKept(b0: seq<limb>, b1: seq<limb>, L: nat, o: nat, C: seq<int>, j: nat, t: nat)
    requires t != j && CoefRow(b0, L, o, C, t) && SameOutside(b0, b1, j * L, j * L + L)
    ensures CoefRow(b1, L, o, C, t)
  {
    hide Cong;
    forall i | 0 <= i < L ensures CoefCell(b1, L, o, C, t, i) {
      assert CoefCell(b0, L, o, C, t, i);
      RowApart(t, i, j, L);
    }
  }

  lemma BufStep(b0: seq<limb>, b1: seq<limb>, L: nat, o: nat, C: seq<int>, D: seq<int>, j: nat)
    requires BufState(b0, L, o, C, D, j) && j < NB_MODS - o
    requires SameOutside(b0, b1, j * L, j * L + L) && CoefRow(b1, L, o, C, j)
    ensures BufState(b1, L, o, C, D, j + 1)
  {
    hide CoefRow, ResRow, SameOutside;
    var e := j + 1;
    forall t | 0 <= t < NB_MODS - o ensures RowState(b1, L, o, C, D, e, t) {
      assert RowState(b0, L, o, C, D, j, t);
      if t < j { CoefRowKept(b0, b1, L, o, C, j, t); }
      if t > j { ResRowKept(b0, b1, L, D, MODS[o + t], j, t); }
    }
  }

  lemma PendingStep(b0: seq<limb>, b1: seq<limb>, L: nat, o: nat, D: seq<int>, j: nat)
    requires Pending(b0, L, o, D, j) && SameOutside(b0, b1, j * L, j * L + L)
    ensures Pending(b1, L, o, D, j + 1)
  {
    hide ResRow, SameOutside;
    var e := j + 1;
    forall t | e <= t < NB_MODS - o ensures PendingRow(b1, L, o, D, t) {
      assert PendingRow(b0, L, o, D, t);
      ResRowKept(b0, b1, L, D, MODS[o + t], j, t);
    }
  }

  lemma UnitFactor(T: Tables, k: nat)
    requires Valid(T) && k <= T.top
    ensures T.m > 0 && |T.lenInv| == T.top + 1 && Cong(Mul(T.lenInv[k], Pow(2, k)), 1, T.m)
  {
    hide Cong, Pow, RootRow, TopPair, InitModFast;
    assert LenEntry(T.lenInv[k], T.lenInvInv[k], k, T.m);
  }

  /** One modulus: row j of the first buffer is replaced by its convolution with row j2 of the second. */
  method ConvolveRow(T: Tables, buf1: array<limb>, buf2: array<limb>, k: nat, L: nat, o: nat, j: nat, j2: nat,
                     ghost DA: seq<int>, ghost DB: seq<int>)
    requires o + j < NB_MODS && Valid(T) && T.m == MODS[o + j] && 1 <= k <= T.top && buf1 != buf2
    requires L == Pow(2, k) >= 1 && |DA| == |DB| == L
    requires ResRow(buf1[..], L, DA, T.m, j) && ResRow(buf2[..], L, DB, T.m, j2)
    modifies buf1, buf2
    ensures CoefRow(buf1[..], L, o, ConvSeq(DA, DB), j)
    ensures SameOutside(old(buf1[..]), buf1[..], j * L, j * L + L)
    ensures SameOutside(old(buf2[..]), buf2[..], j2 * L, j2 * L + L)
  {
    hide Cong, Mul, Pow, Valid, IsConv, SeqCong, ResRow, CoefRow, ConvSeq;
    RowWindowIs(buf1[..], L, DA, T.m, j);
    RowWindowIs(buf2[..], L, DB, T.m, j2);
    var o1, o2 := j * L, j2 * L;
    ghost var x, y := buf1[o1..o1 + L], buf2[o2..o2 + L];
    assert x == buf1[..][o1..o1 + L] && y == buf2[..][o2..o2 + L];
    UnitFactor(T, k);
    Convolve(T, buf1, o1, buf2, o2, k, k);
    assert buf1[..][o1..o1 + L] == buf1[o1..o1 + L];
    RowConvolved(buf1[..], L, o, j, x, y, DA, DB, Mul(T.lenInv[k], L));
  }

  // ----- no wrap-around -----

  lemma CountSum(la: nat, lb: nat, d: nat, L: nat)
    requires d >= 1 && (la + lb) * 64 <= d * L
    ensures 0 <= DigitCount(la, d) && 0 <= DigitCount(lb, d) && DigitCount(la, d) + DigitCount(lb, d) <= L + 1
  {
    DigitCountIs(la, d);
    DigitCountIs(lb, d);
    DivNonNeg(la * 64 + d - 1, d);
    DivNonNeg(lb * 64 + d - 1, d);
    CountCore(DigitCount(la, d), DigitCount(lb, d), d, L, la, lb);
  }

  lemma CountCore(x: int, y: int, d: int, L: int, la: int, lb: int)
    requires d >= 1 && d * x < la * 64 + d && d * y < lb * 64 + d && (la + lb) * 64 <= d * L
    ensures x + y <= L + 1
  {
    assert d * (x + y) == d * x + d * y;
    assert d * (L + 2) == d * L + 2 * d;
    if x + y >= L + 2 {
      MulLe(L + 2, x + y, d);
    }
  }

  lemma DigitsAcyclic(a: seq<limb>, b: seq<limb>, d: nat, L: nat)
    requires d >= 1 && (|a| + |b|) * 64 <= d * L
    ensures DigitCount(|a|, d) >= 0 && DigitCount(|b|, d) >= 0
    ensures Acyclic(DigitsOf(Val(a), Two(d), L), DigitsOf(Val(b), Two(d), L), DigitCount(|a|, d), DigitCount(|b|, d))
  {
    hide Two, Val, Digit;
    CountSum(|a|, |b|, d, L);
    forall i | DigitCount(|a|, d) <= i < L ensures DigitsOf(Val(a), Two(d), L)[i] == 0 { HighDigitZero(a, d, i); }
    forall i | DigitCount(|b|, d) <= i < L ensures DigitsOf(Val(b), Two(d), L)[i] == 0 { HighDigitZero(b, d, i); }
  }

  /** All digits together give the operand back. */
  lemma OperandTotal(a: seq<limb>, d: nat, L: nat)
    requires d >= 1 && |a| * 64 <= d * L
    ensures Eval(DigitsOf(Val(a), Two(d), L), Two(d)) == Val(a)
  {
    hide Two, Val, Eval, DigitsOf, Pow;
    ValBound(a);
    PowWord(|a|);
    TwoPow(d, L);
    TwoMono(64 * |a|, d * L);
    DigitsTotal(Val(a), Two(d), L);
  }

  lemma ProductValue(a: seq<limb>, b: seq<limb>, d: nat, L: nat)
    requires d >= 1 && (|a| + |b|) * 64 <= d * L
    ensures Eval(ConvSeq(DigitsOf(Val(a), Two(d), L), DigitsOf(Val(b), Two(d), L)), Two(d)) == Val(a) * Val(b)
  {
    hide Two, Val, Eval, DigitsOf, Acyclic, ConvSeq;
    DigitsAcyclic(a, b, d, L);
    ConvEval(DigitsOf(Val(a), Two(d), L), DigitsOf(Val(b), Two(d), L), Two(d), DigitCount(|a|, d), DigitCount(|b|, d));
    OperandTotal(a, d, L);
    OperandTotal(b, d, L);
    MulComm(Val(a), Val(b));
  }

  lemma ProductFits(a: seq<limb>, b: seq<limb>)
    ensures 0 <= Val(a) * Val(b) < Pow(B, |a| + |b|)
  {
    hide Val, Pow;
    ValBound(a);
    ValBound(b);
    PowAdd(B, |a|, |b|);
    MulNonNeg(Val(a), Val(b));
    MulLe(Val(a), Pow(B, |a|), Val(b));
    MulLe(Val(b) + 1, Pow(B, |b|), Pow(B, |a|));
    assert Pow(B, |a|) * (Val(b) + 1) == Pow(B, |a|) * Val(b) + Pow(B, |a|);
  }

  // ----- every coefficient is below the product of the moduli -----

  /** The products of three, four and five moduli, compared with the bit counts of the source. */
  lemma ModuliBits(o: nat)
    requires o <= 2
    ensures Two(INT_BITS[o]) <= ProdFrom(o)
  {
    hide Two;
    TwoWord();
    TwoAdd(61, 62); TwoAdd(123, 62); TwoAdd(185, 61); TwoAdd(246, 61);
    ProdBits();
  }

  lemma CoefBound(x: seq<int>, y: seq<int>, d: nat, k: nat, o: nat, t: nat)
    requires o <= 2 && d >= 1 && |x| == |y| == Two(k) && t < Two(k) && k + 2 * d <= INT_BITS[o]
    requires (forall i :: 0 <= i < |x| ==> 0 <= x[i] < Two(d)) && (forall i :: 0 <= i < |y| ==> 0 <= y[i] < Two(d))
    ensures 0 <= Conv(x, y, t) < ProdFrom(o)
  {
    hide Two, Conv, ProdFrom;
    var X := Two(d);
    TwoAtLeast2(d);
    ConvRange(x, y, X, t);
    TwoAdd(d, d);
    TwoAdd(k, d + d);
    SquareLess(X, Two(k));
    TwoMono(k + 2 * d, INT_BITS[o]);
    ModuliBits(o);
  }

  lemma SquareLess(X: int, n: int)
    requires X >= 1 && n >= 1
    ensures n * ((X - 1) * (X - 1)) < n * (X * X)
  {
    assert (X - 1) * (X - 1) < X * X;
    MulLe((X - 1) * (X - 1) + 1, X * X, n);
    assert n * ((X - 1) * (X - 1) + 1) == n * ((X - 1) * (X - 1)) + n;
  }

  lemma CoefBounds(a: seq<limb>, b: seq<limb>, d: nat, k: nat, o: nat)
    requires o <= 2 && d >= 1 && Two(k) >= 1 && k + 2 * d <= INT_BITS[o]
    ensures InRange(ConvSeq(DigitsOf(Val(a), Two(d), Two(k)), DigitsOf(Val(b), Two(d), Two(k))), ProdFrom(o))
  {
    hide Two, Conv, ProdFrom, Val, Digit;
    var x, y := DigitsOf(Val(a), Two(d), Two(k)), DigitsOf(Val(b), Two(d), Two(k));
    forall i | 0 <= i < Two(k) ensures 0 <= x[i] < Two(d) && 0 <= y[i] < Two(d) {
      DigitRange(Val(a), Two(d), i);
      DigitRange(Val(b), Two(d), i);
    }
    forall t | 0 <= t < Two(k) ensures 0 <= ConvSeq(x, y)[t] < ProdFrom(o) {
      CoefBound(x, y, d, k, o, t);
    }
  }

  // ----- fft_mul -----

  const REDUCED_MEM_LOG2: nat := 14

  lemma FitsParts(len: int, k: nat, d: nat, nb: nat)
    requires Fits(len, k, d, nb)
    ensures 3 <= nb <= NB_MODS && k <= PROOT_2EXP && 1 <= d <= 153 && len * 64 <= d * Two(k)
    ensures k + 2 * d <= INT_BITS[NB_MODS - nb]
    ensures Two(k) >= 1 && Two(k) == Pow(2, k)
  {
    PowPos(2, k);
  }

  /** The moduli in use. */
  lemma TailTables(Ts: seq<Tables>, o: nat)
    requires Ready(Ts) && o <= NB_MODS
    ensures |Ts[o..]| == NB_MODS - o
    ensures forall t :: 0 <= t < NB_MODS - o ==> Valid(Ts[o..][t]) && Ts[o..][t].m == MODS[o + t] && Ts[o..][t] == Ts[o + t]
  {
    hide Valid;
    forall t | 0 <= t < NB_MODS - o ensures Valid(Ts[o..][t]) && Ts[o..][t].m == MODS[o + t] {
      assert ReadyAt(Ts, o + t);
    }
  }

  lemma Loaded(buf: seq<limb>, L: nat, o: nat, C: seq<int>, D: seq<int>, Ts: seq<Tables>)
    requires o <= NB_MODS && |Ts| == NB_MODS - o && (forall t :: 0 <= t < |Ts| ==> Ts[t].m == MODS[o + t])
    requires forall t :: 0 <= t < |Ts| ==> Modulus(Ts[t].m) && ResRow(buf, L, D, Ts[t].m, t)
    ensures BufState(buf, L, o, C, D, 0) && Pending(buf, L, o, D, 0)
  {
    hide ResRow;
    forall t | 0 <= t < NB_MODS - o ensures RowState(buf, L, o, C, D, 0, t) {
      assert ResRow(buf, L, D, Ts[t].m, t);
    }
    forall t | 0 <= t < NB_MODS - o ensures PendingRow(buf, L, o, D, t) {
      assert ResRow(buf, L, D, Ts[t].m, t);
    }
  }

  lemma BufDone(buf: seq<limb>, L: nat, o: nat, C: seq<int>, D: seq<int>)
    requires o <= NB_MODS && BufState(buf, L, o, C, D, NB_MODS - o) && |C| == L
    ensures CoefRows(buf, L, o, C)
  {
    hide CoefRow, ResRow;
    forall j | 0 <= j < NB_MODS - o ensures CoefRow(buf, L, o, C, j) {
      assert RowState(buf, L, o, C, D, NB_MODS - o, j);
    }
  }

  /** The part of fft_mul between the choice of parameters and the final carry propagation: the digit
      convolution modulo every modulus, with or without the reduced memory use. */
  method Convolutions(Ts: seq<Tables>, a: seq<limb>, b: seq<limb>, k: nat, dpl: nat, nbMods: nat) returns (buf1: array<limb>)
    requires Ready(Ts) && 3 <= nbMods <= NB_MODS && 1 <= k <= PROOT_2EXP && 1 <= dpl <= 153
    requires Two(k) == Pow(2, k) >= 1
    ensures fresh(buf1)
    ensures CoefRows(buf1[..], Two(k), NB_MODS - nbMods,
                     ConvSeq(DigitsOf(Val(a), Two(dpl), Two(k)), DigitsOf(Val(b), Two(dpl), Two(k))))
  {
    hide Valid, Root, Pow, Cong, Mul, Two, Val, ConvSeq, DigitsOf, BufState, Pending, Ready, CoefRows, ResRow;
    ReadySize(Ts);
    var o, L := NB_MODS - nbMods, Two(k);
    ghost var X := Two(dpl);
    ghost var DA, DB := DigitsOf(Val(a), X, L), DigitsOf(Val(b), X, L);
    ghost var C := ConvSeq(DA, DB);
    TailTables(Ts, o);
    buf1 := LimbToNtt(Ts[o..], L, a, dpl);
    Loaded(buf1[..], L, o, C, DA, Ts[o..]);
    var reducedMem := k >= REDUCED_MEM_LOG2;
    var buf2: array<limb>;
    if !reducedMem {
      buf2 := LimbToNtt(Ts[o..], L, b, dpl);
      Loaded(buf2[..], L, o, C, DB, Ts[o..]);
    } else {
      buf2 := new limb[L](_ => 0);
    }
    var j := 0;
    while j < nbMods
      invariant 0 <= j <= nbMods && fresh(buf1) && fresh(buf2) && buf1 != buf2
      invariant BufState(buf1[..], L, o, C, DA, j)
      invariant !reducedMem ==> Pending(buf2[..], L, o, DB, j)
    {
      ghost var before1 := buf1[..];
      RowReady(Ts, o, j);
      var j2 := j;
      if reducedMem {
        var one := [Ts[o + j]];
        buf2 := LimbToNtt(one, L, b, dpl);
        assert one[0].m == MODS[o + j];
        j2 := 0;
      } else {
        PendingAt(buf2[..], L, o, DB, j);
      }
      ghost var before2 := buf2[..];
      BufAt(buf1[..], L, o, C, DA, j);
      ConvolveRow(Ts[o + j], buf1, buf2, k, L, o, j, j2, DA, DB);
      BufStep(before1, buf1[..], L, o, C, DA, j);
      if !reducedMem { PendingStep(before2, buf2[..], L, o, DB, j); }
      j := j + 1;
    }
    BufDone(buf1[..], L, o, C, DA);
  }

  /** fft_mul: exactly the product of the two numbers, for every pair of operands of at least
      three and at most 2^52 limbs in all. */
  method FftMul(a: seq<limb>, b: seq<limb>) returns (r: array<limb>)
    requires 3 <= |a| + |b| <= MAX_LEN
    ensures fresh(r) && r.Length == |a| + |b|
    ensures Val(r[..]) == Val(a) * Val(b)
  {
    hide Root, Pow, CrTable, Two, Val, Fits, ConvSeq, DigitsOf, InRange, Eval, Ready, CoefRows, ProdFrom;
    var top := PROOT_2EXP;
    var Ts, crInv := StaticInit(top);
    var len := |a| + |b|;
    var ok, k, dpl, nbMods, width := FftSize(len);
    FitsParts(len, k, dpl, nbMods);
    ghost var o, L := NB_MODS - nbMods, Two(k);
    ghost var C := ConvSeq(DigitsOf(Val(a), Two(dpl), L), DigitsOf(Val(b), Two(dpl), L));
    var buf1 := Convolutions(Ts, a, b, k, dpl, nbMods);
    CoefBounds(a, b, dpl, k, o);
    r := NttToLimb.NttToLimb(len, buf1, Two(k), dpl, nbMods, crInv, C);
    ProductValue(a, b, dpl, L);
    ProductFits(a, b);
    DivModUnique(Val(a) * Val(b), Pow(B, len), 0, Val(a) * Val(b));
  }

  lemma ReadySize(Ts: seq<Tables>)
    requires Ready(Ts)
    ensures |Ts| == NB_MODS
  {}

  lemma RowReady(Ts: seq<Tables>, o: nat, j: nat)
    requires Ready(Ts) && o + j < NB_MODS
    ensures |Ts| == NB_MODS && Valid(Ts[o + j]) && Ts[o + j].m == MODS[o + j] && Ts[o + j].top == PROOT_2EXP
  {
    assert ReadyAt(Ts, o + j);
  }

  lemma PendingAt(buf: seq<limb>, L: nat, o: nat, D: seq<int>, j: nat)
    requires Pending(buf, L, o, D, j) && o + j < NB_MODS
    ensures ResRow(buf, L, D, MODS[o + j], j)
  {
    assert PendingRow(buf, L, o, D, j);
  }

  lemma BufAt(buf: seq<limb>, L: nat, o: nat, C: seq<int>, D: seq<int>, j: nat)
    requires BufState(buf, L, o, C, D, j) && o + j < NB_MODS
    ensures ResRow(buf, L, D, MODS[o + j], j)
  {
    assert RowState(buf, L, o, C, D, j, j);
  }
}
