/** ntt_fft_partial: the column transforms of the four-step split, sixteen columns at a time. */
module NttPartial {
  import opened Arith
  import opened Word
  import opened ModMul
  import opened Fourier
  import opened Stockham
  import opened FourStep
  import opened NttFft
  import opened NttState
  import opened NttConv

  const STRIP_LEN: nat := 16

  // ----- mul_trig -----

  ghost predicate Twisted(r: limb, a: limb, c: int, i: nat, m: limb)
    requires m > 0
  {
    r < m && Cong(r, Mul(a, Pow(c, i)), m)
  }

  ghost predicate TwistedTo(out: seq<limb>, x: seq<limb>, c: int, m: limb, i: nat)
    requires m > 0
  {
    |out| == |x| && forall j :: 0 <= j < |x| ==> if j < i then Twisted(out[j], x[j], c, j, m) else out[j] == x[j]
  }

  lemma TwistBound(a: limb, c: limb, m: limb)
    requires Modulus(m) && a < 2 * m && c < m
    ensures a * c < P125
  {
    MulLe(a, 2 * m, c);
    MulLe(c, m, 2 * m);
    MulLe(m, 2 * P61, 2 * m);
    MulLe(m, 2 * P61 - 1, 2 * P61);
  }

  /** mul_trig: entry i of the window is multiplied by c^i. */
  method MulTrig(buf: array<limb>, off: nat, n: nat, c: limb, m: limb, mInv: limb)
    requires Modulus(m) && mInv == InitModFast(m) && c < m && off + n <= buf.Length
    requires Below(buf[off..off + n], 2 * m)
    modifies buf
    ensures TwistedTo(buf[off..off + n], old(buf[off..off + n]), c, m, n)
    ensures Below(buf[off..off + n], 2 * m)
    ensures forall j :: 0 <= j < buf.Length && !(off <= j < off + n) ==> buf[j] == old(buf[j])
  {
    hide Cong, Mul, Pow, InitModFast, InitMulMod;
    ghost var x := buf[off..off + n];
    var c0: limb := 1;
    var cInv := InitMulMod(c, m);
    CongRefl(1, m);
    PowZero(c);
    var i := 0;
    while i < n
      invariant 0 <= i <= n
      invariant c0 < m && Cong(c0, Pow(c, i), m)
      invariant TwistedTo(buf[off..off + n], x, c, m, i)
      invariant forall j :: 0 <= j < buf.Length && !(off <= j < off + n) ==> buf[j] == old(buf[j])
    {
      assert buf[off + i] == buf[off..off + n][i] == x[i];
      TwistBound(x[i], c0, m);
      ghost var before := buf[off..off + n];
      var r := MulModFast(buf[off + i], c0, m, mInv);
      TwistStep(r, x[i], c0, c, i, m);
      buf[off + i] := r;
      assert buf[off..off + n] == before[i := r];
      var d := MulModFast2(c0, c, m, cInv);
      StepCong(c0, d, c, i, m);
      c0 := d;
      i := i + 1;
    }
  }

  lemma TwistStep(r: limb, a: limb, c0: limb, c: int, i: nat, m: limb)
    requires m > 0 && r < m && Cong(r, a * c0, m) && Cong(c0, Pow(c, i), m)
    ensures Twisted(r, a, c, i, m)
  {
    hide Cong, Pow;
    MulCong(c0, Pow(c, i), a, m);
    CongTrans(r, a * c0, Mul(a, Pow(c, i)), m);
  }

  // ----- one column -----

  /** col_f w^(jf). */
  ghost function TwistSeq(col: seq<int>, w: int, j: int): (r: seq<int>)
    ensures |r| == |col|
  {
    seq(|col|, f requires 0 <= f < |col| => Mul(col[f], Tw(w, j, f)))
  }

  /** Entry f of column j after the partial transform: transform then twist (forward, b = 0)
      or twist then transform (inverse, b = 1). */
  ghost function ColVal(b: nat, col: seq<int>, w: int, n2: nat, j: nat, f: nat): int {
    if b == 0 then Mul(Dft(col, Pow(w, n2), f), Tw(w, j, f)) else Dft(TwistSeq(col, w, j), Pow(w, n2), f)
  }

  ghost predicate ColOk(b: nat, res: seq<int>, col: seq<int>, w: int, n2: nat, j: nat, m: int)
    requires m > 0
  {
    |res| == |col| && forall f :: 0 <= f < |col| ==> Cong(res[f], ColVal(b, col, w, n2, j, f), m)
  }

  lemma TwistPow(c: int, w: int, j: nat, f: nat, m: int)
    requires m > 0 && Cong(c, Pow(w, j), m)
    ensures Cong(Pow(c, f), Tw(w, j, f), m)
  {
    CongPow(c, Pow(w, j), f, m);
    PowPow(w, j, f);
  }

  lemma ForwardCol(T: Tables, k1: nat, k2: nat, col: seq<limb>, mid: seq<limb>, res: seq<limb>, c: limb, j: nat)
    requires Valid(T) && 1 <= k1 && k1 + k2 <= T.top && Pow(2, k2) > 0
    requires IsDft(mid, col, T.root[0][k1], T.m) && TwistedTo(res, mid, c, T.m, |mid|)
    requires Cong(c, Pow(T.root[0][k1 + k2], j), T.m)
    ensures ColOk(0, res, col, T.root[0][k1 + k2], Pow(2, k2), j, T.m)
  {
    hide Cong, Mul, Pow, Dft, Root, Tw, InitModFast, RootRow, LenRow, TopPair;
    var w, n2, m := T.root[0][k1 + k2], Pow(2, k2), T.m;
    RootStep(T, 0, k1 + k2, k2);
    forall f | 0 <= f < |col| ensures Cong(res[f], ColVal(0, col, w, n2, j, f), m) {
      assert Twisted(res[f], mid[f], c, f, m);
      SeqCongRefl(col, m);
      DftCong(col, col, T.root[0][k1], Pow(w, n2), f, m);
      TwistPow(c, w, j, f, m);
      CongTrans(mid[f], Dft(col, T.root[0][k1], f), Dft(col, Pow(w, n2), f), m);
      MulCong2(mid[f], Dft(col, Pow(w, n2), f), Pow(c, f), Tw(w, j, f), m);
      CongTrans(res[f], Mul(mid[f], Pow(c, f)), Mul(Dft(col, Pow(w, n2), f), Tw(w, j, f)), m);
    }
  }

  lemma SeqCongRefl(x: seq<int>, m: int)
    requires m > 0
    ensures SeqCong(x, x, m)
  {
    forall i | 0 <= i < |x| ensures Cong(x[i], x[i], m) { CongRefl(x[i], m); }
  }

  lemma InverseCol(T: Tables, k1: nat, k2: nat, col: seq<limb>, mid: seq<limb>, res: seq<limb>, c: limb, j: nat)
    requires Valid(T) && 1 <= k1 && k1 + k2 <= T.top && Pow(2, k2) > 0
    requires TwistedTo(mid, col, c, T.m, |col|) && IsDft(res, mid, T.root[1][k1], T.m)
    requires Cong(c, Pow(T.root[1][k1 + k2], j), T.m)
    ensures ColOk(1, res, col, T.root[1][k1 + k2], Pow(2, k2), j, T.m)
  {
    hide Cong, Mul, Pow, Dft, Root, Tw, InitModFast, RootRow, LenRow, TopPair;
    var w, n2, m := T.root[1][k1 + k2], Pow(2, k2), T.m;
    RootStep(T, 1, k1 + k2, k2);
    var ts := TwistSeq(col, w, j);
    forall f | 0 <= f < |col| ensures Cong(mid[f], ts[f], m) {
      assert Twisted(mid[f], col[f], c, f, m);
      TwistPow(c, w, j, f, m);
      MulCong(Pow(c, f), Tw(w, j, f), col[f], m);
      CongTrans(mid[f], Mul(col[f], Pow(c, f)), ts[f], m);
    }
    assert SeqCong(mid, ts, m);
    forall f | 0 <= f < |col| ensures Cong(res[f], ColVal(1, col, w, n2, j, f), m) {
      DftCong(mid, ts, T.root[1][k1], Pow(w, n2), f, m);
      CongTrans(res[f], Dft(mid, T.root[1][k1], f), Dft(ts, Pow(w, n2), f), m);
    }
  }

  /** The body of the strip loop for one column held contiguously in buf. */
  method Column(T: Tables, buf: array<limb>, off: nat, tmp: array<limb>, k1: nat, k2: nat, b: nat, c: limb, ghost j: nat)
    requires Valid(T) && b < 2 && 1 <= k1 <= TRIG_K_MAX && k1 + k2 <= T.top && buf != tmp
    requires Pow(2, k1) > 0 && Pow(2, k2) > 0 && off + Pow(2, k1) <= buf.Length && Pow(2, k1) <= tmp.Length
    requires Below(buf[off..off + Pow(2, k1)], 2 * T.m)
    requires c < T.m && Cong(c, Pow(T.root[b][k1 + k2], j), T.m)
    modifies buf, tmp
    ensures ColOk(b, buf[off..off + Pow(2, k1)], old(buf[off..off + Pow(2, k1)]), T.root[b][k1 + k2], Pow(2, k2), j, T.m)
    ensures Below(buf[off..off + Pow(2, k1)], 2 * T.m)
    ensures forall i :: 0 <= i < buf.Length && !(off <= i < off + Pow(2, k1)) ==> buf[i] == old(buf[i])
  {
    hide Cong, Mul, Pow, IsDft, TwistedTo, ColOk, RootRow, LenRow, TopPair, InitModFast;
    var n1 := Pow(2, k1);
    ghost var col := buf[off..off + n1];
    if b != 0 {
      MulTrig(buf, off, n1, c, T.m, T.mInv);
    }
    ghost var mid := buf[off..off + n1];
    Fft(T, buf, off, tmp, k1, b);
    ghost var res := buf[off..off + n1];
    if b == 0 {
      MulTrig(buf, off, n1, c, T.m, T.mInv);
      ForwardCol(T, k1, k2, col, res, buf[off..off + n1], c, j);
    } else {
      InverseCol(T, k1, k2, col, mid, res, c, j);
    }
  }

  // ----- strips of sixteen columns -----

  lemma FlatDistinct(i: nat, j: nat, i': nat, j': nat, n: nat)
    requires j < n && j' < n && i * n + j == i' * n + j'
    ensures i == i' && j == j'
  {
    DivModUnique(i * n + j, n, i, j);
    DivModUnique(i' * n + j', n, i', j');
  }

  ghost predicate CellIs(all: seq<limb>, i: nat, j: nat, n: nat, v: int) {
    At(all, i * n + j) == v
  }

  /** Cell (i, jj) of the window while a strip starting at column j is written back. */
  ghost function StoreVal(R: seq<limb>, D: seq<limb>, n1: nat, n2: nat, j: nat, i: nat, l: nat, i': nat, jj: nat): int {
    if j <= jj < j + STRIP_LEN && (i' < i || (i' == i && jj - j < l)) then At(D, (jj - j) * n1 + i') else At(R, i' * n2 + jj)
  }

  ghost predicate StoreCell(R1: seq<limb>, R: seq<limb>, D: seq<limb>, n1: nat, n2: nat, j: nat, i: nat, l: nat, i': nat, jj: nat) {
    CellIs(R1, i', jj, n2, StoreVal(R, D, n1, n2, j, i, l, i', jj))
  }

  ghost predicate StoreInv(R1: seq<limb>, R: seq<limb>, D: seq<limb>, n1: nat, n2: nat, j: nat, i: nat, l: nat) {
    |R1| == |R| && forall i', jj :: 0 <= i' < n1 && 0 <= jj < n2 ==> StoreCell(R1, R, D, n1, n2, j, i, l, i', jj)
  }

  lemma StoreStep(R1: seq<limb>, R2: seq<limb>, R: seq<limb>, D: seq<limb>, n1: nat, n2: nat, j: nat, i: nat, l: nat, t: nat, v: limb)
    requires StoreInv(R1, R, D, n1, n2, j, i, l) && i < n1 && l < STRIP_LEN && j + STRIP_LEN <= n2
    requires t == i * n2 + (j + l) < |R1| && R2 == R1[t := v] && v == At(D, l * n1 + i)
    ensures StoreInv(R2, R, D, n1, n2, j, i, l + 1)
  {
    var m := l + 1;
    forall i', jj | 0 <= i' < n1 && 0 <= jj < n2 ensures StoreCell(R2, R, D, n1, n2, j, i, m, i', jj) {
      assert StoreCell(R1, R, D, n1, n2, j, i, l, i', jj);
      if i' == i && jj == j + l {
        assert jj - j == l;
      } else {
        if i' * n2 + jj == t { FlatDistinct(i', jj, i, j + l, n2); }
      }
    }
  }

  lemma StoreRow(R1: seq<limb>, R: seq<limb>, D: seq<limb>, n1: nat, n2: nat, j: nat, i: nat)
    requires StoreInv(R1, R, D, n1, n2, j, i, STRIP_LEN)
    ensures StoreInv(R1, R, D, n1, n2, j, i + 1, 0)
  {
    var m := i + 1;
    forall i', jj | 0 <= i' < n1 && 0 <= jj < n2 ensures StoreCell(R1, R, D, n1, n2, j, m, 0, i', jj) {
      assert StoreCell(R1, R, D, n1, n2, j, i, STRIP_LEN, i', jj);
    }
  }

  lemma FlatFits(i: nat, j: nat, n1: nat, n2: nat)
    requires i < n1 && j < n2
    ensures 0 <= i * n2 + j < Mul(n1, n2) && 0 <= j * n1 + i < Mul(n2, n1)
  {
    FlatIndex(i, j, n1, n2);
    FlatIndex(j, i, n2, n1);
  }

  /** The copy loop back from the strip buffer D into columns j .. j + 15. */
  method StoreStrip(buf: array<limb>, off: nat, n1: nat, n2: nat, j: nat, strip: array<limb>)
    requires buf != strip && off + Mul(n1, n2) <= buf.Length && strip.Length == Mul(STRIP_LEN, n1)
    requires j + STRIP_LEN <= n2 && 0 <= Mul(n1, n2)
    modifies buf
    ensures StoreInv(buf[off..off + Mul(n1, n2)], old(buf[off..off + Mul(n1, n2)]), strip[..], n1, n2, j, n1, 0)
    ensures forall t :: 0 <= t < buf.Length && !(off <= t < off + Mul(n1, n2)) ==> buf[t] == old(buf[t])
  {
    hide Mul, StoreInv;
    ghost var n := Mul(n1, n2);
    ghost var R, D := buf[off..off + n], strip[..];
    StoreStart(R, D, n1, n2, j);
    var i := 0;
    while i < n1
      invariant 0 <= i <= n1 && strip[..] == D
      invariant StoreInv(buf[off..off + n], R, D, n1, n2, j, i, 0)
      invariant forall t :: 0 <= t < buf.Length && !(off <= t < off + n) ==> buf[t] == old(buf[t])
    {
      var l := 0;
      while l < STRIP_LEN
        invariant 0 <= l <= STRIP_LEN && strip[..] == D
        invariant StoreInv(buf[off..off + n], R, D, n1, n2, j, i, l)
        invariant forall t :: 0 <= t < buf.Length && !(off <= t < off + n) ==> buf[t] == old(buf[t])
      {
        FlatFits(i, j + l, n1, n2);
        FlatFits(i, l, n1, STRIP_LEN);
        var t, u := i * n2 + (j + l), l * n1 + i;
        ghost var before := buf[off..off + n];
        var v := strip[u];
        buf[off + t] := v;
        assert buf[off..off + n] == before[t := v];
        StoreStep(before, buf[off..off + n], R, D, n1, n2, j, i, l, t, v);
        l := l + 1;
      }
      StoreRow(buf[off..off + n], R, D, n1, n2, j, i);
      i := i + 1;
    }
  }

  lemma StoreStart(R: seq<limb>, D: seq<limb>, n1: nat, n2: nat, j: nat)
    ensures StoreInv(R, R, D, n1, n2, j, 0, 0)
  {}

  // ----- loading -----

  ghost predicate LoadCell(D: seq<limb>, R: seq<limb>, n1: nat, n2: nat, j: nat, i: nat, l: nat) {
    CellIs(D, l, i, n1, At(R, i * n2 + (j + l)))
  }

  ghost predicate LoadInv(D: seq<limb>, R: seq<limb>, n1: nat, n2: nat, j: nat, i: nat, l: nat) {
    forall i', l' :: 0 <= i' < n1 && 0 <= l' < STRIP_LEN && (i' < i || (i' == i && l' < l))
      ==> LoadCell(D, R, n1, n2, j, i', l')
  }

  lemma LoadStep(D1: seq<limb>, D2: seq<limb>, R: seq<limb>, n1: nat, n2: nat, j: nat, i: nat, l: nat, u: nat, v: limb)
    requires LoadInv(D1, R, n1, n2, j, i, l) && i < n1 && l < STRIP_LEN
    requires u == l * n1 + i < |D1| && D2 == D1[u := v] && v == At(R, i * n2 + (j + l))
    ensures LoadInv(D2, R, n1, n2, j, i, l + 1)
  {
    forall i', l' | 0 <= i' < n1 && 0 <= l' < STRIP_LEN && (i' < i || (i' == i && l' < l + 1))
      ensures LoadCell(D2, R, n1, n2, j, i', l')
    {
      if i' == i && l' == l {
      } else {
        assert LoadCell(D1, R, n1, n2, j, i', l');
        if l' * n1 + i' == u { FlatDistinct(l', i', l, i, n1); }
      }
    }
  }

  lemma LoadRow(D: seq<limb>, R: seq<limb>, n1: nat, n2: nat, j: nat, i: nat)
    requires LoadInv(D, R, n1, n2, j, i, STRIP_LEN)
    ensures LoadInv(D, R, n1, n2, j, i + 1, 0)
  {}

  /** The copy loop from columns j .. j + 15 into the strip buffer. */
  method LoadStrip(buf: array<limb>, off: nat, n1: nat, n2: nat, j: nat, strip: array<limb>)
    requires buf != strip && off + Mul(n1, n2) <= buf.Length && strip.Length == Mul(STRIP_LEN, n1)
    requires j + STRIP_LEN <= n2 && 0 <= Mul(n1, n2)
    modifies strip
    ensures LoadInv(strip[..], buf[off..off + Mul(n1, n2)], n1, n2, j, n1, 0)
  {
    hide Mul, LoadInv;
    ghost var n := Mul(n1, n2);
    ghost var R := buf[off..off + n];
    assert LoadInv(strip[..], R, n1, n2, j, 0, 0) by { LoadStart(strip[..], R, n1, n2, j); }
    var i := 0;
    while i < n1
      invariant 0 <= i <= n1 && buf[off..off + n] == R
      invariant LoadInv(strip[..], R, n1, n2, j, i, 0)
    {
      var l := 0;
      while l < STRIP_LEN
        invariant 0 <= l <= STRIP_LEN && buf[off..off + n] == R
        invariant LoadInv(strip[..], R, n1, n2, j, i, l)
      {
        FlatFits(i, j + l, n1, n2);
        FlatFits(i, l, n1, STRIP_LEN);
        var t, u := i * n2 + (j + l), l * n1 + i;
        ghost var before := strip[..];
        var v := buf[off + t];
        assert v == R[t];
        strip[u] := v;
        LoadStep(before, strip[..], R, n1, n2, j, i, l, u, v);
        l := l + 1;
      }
      LoadRow(strip[..], R, n1, n2, j, i);
      i := i + 1;
    }
  }

  lemma LoadStart(D: seq<limb>, R: seq<limb>, n1: nat, n2: nat, j: nat)
    ensures LoadInv(D, R, n1, n2, j, 0, 0)
  {}

  // ----- the strip loop -----

  /** Column jj after the strips below column j have been processed. */
  ghost predicate PartCol(R: seq<limb>, x: seq<limb>, b: nat, n1: nat, n2: nat, w: int, m: int, j: nat, jj: nat)
    requires m > 0
  {
    if jj < j then ColOk(b, Strand(R, n2, n1, jj), Strand(x, n2, n1, jj), w, n2, jj, m)
    else Strand(R, n2, n1, jj) == Strand(x, n2, n1, jj)
  }

  ghost predicate PartInv(R: seq<limb>, x: seq<limb>, b: nat, n1: nat, n2: nat, w: int, m: int, j: nat)
    requires m > 0
  {
    |R| == |x| && forall jj :: 0 <= jj < n2 ==> PartCol(R, x, b, n1, n2, w, m, j, jj)
  }

  /** Column l of the strip buffer, before or after its transform. */
  ghost predicate StripCol(D: seq<limb>, R: seq<limb>, b: nat, n1: nat, n2: nat, w: int, m: int, j: nat, l: nat, l': nat)
    requires m > 0
  {
    if l' < l then ColOk(b, RowOf(D, n1, l'), Strand(R, n2, n1, j + l'), w, n2, j + l', m)
    else RowOf(D, n1, l') == Strand(R, n2, n1, j + l')
  }

  ghost predicate StripInv(D: seq<limb>, R: seq<limb>, b: nat, n1: nat, n2: nat, w: int, m: int, j: nat, l: nat)
    requires m > 0
  {
    forall l' :: 0 <= l' < STRIP_LEN ==> StripCol(D, R, b, n1, n2, w, m, j, l, l')
  }

  lemma StripLoaded(D: seq<limb>, R: seq<limb>, b: nat, n1: nat, n2: nat, w: int, m: int, j: nat)
    requires m > 0 && LoadInv(D, R, n1, n2, j, n1, 0)
    ensures StripInv(D, R, b, n1, n2, w, m, j, 0)
  {
    forall l | 0 <= l < STRIP_LEN ensures StripCol(D, R, b, n1, n2, w, m, j, 0, l) {
      var p, q := RowOf(D, n1, l), Strand(R, n2, n1, j + l);
      forall i | 0 <= i < n1 ensures p[i] == q[i] {
        assert LoadCell(D, R, n1, n2, j, i, l);
      }
    }
  }

  lemma LoadBelow(D: seq<limb>, R: seq<limb>, n1: nat, n2: nat, j: nat, c: int)
    requires LoadInv(D, R, n1, n2, j, n1, 0) && |D| == Mul(STRIP_LEN, n1) && |R| == Mul(n1, n2) && j + STRIP_LEN <= n2
    requires Below(R, c)
    ensures Below(D, c)
  {
    forall u | 0 <= u < |D| ensures D[u] < c {
      var l, i := u / n1, u % n1;
      DivLess(u, n1, STRIP_LEN);
      DivNonNeg(u, n1);
      assert u == l * n1 + i;
      assert LoadCell(D, R, n1, n2, j, i, l);
      FlatFits(i, j + l, n1, n2);
    }
  }

  lemma StoreBelow(R1: seq<limb>, R: seq<limb>, D: seq<limb>, n1: nat, n2: nat, j: nat, c: int)
    requires StoreInv(R1, R, D, n1, n2, j, n1, 0) && |D| == Mul(STRIP_LEN, n1) && |R| == Mul(n1, n2)
    requires Below(R, c) && Below(D, c)
    ensures Below(R1, c)
  {
    forall t | 0 <= t < |R1| ensures R1[t] < c {
      var i, jj := t / n2, t % n2;
      MulComm(n1, n2);
      DivLess(t, n2, n1);
      DivNonNeg(t, n2);
      assert t == i * n2 + jj;
      assert StoreCell(R1, R, D, n1, n2, j, n1, 0, i, jj);
      if j <= jj < j + STRIP_LEN { FlatFits(i, jj - j, n1, STRIP_LEN); }
    }
  }

  lemma StripStored(R1: seq<limb>, R: seq<limb>, D: seq<limb>, x: seq<limb>, b: nat, n1: nat, n2: nat, w: int, m: int, j: nat)
    requires m > 0 && PartInv(R, x, b, n1, n2, w, m, j) && StripInv(D, R, b, n1, n2, w, m, j, STRIP_LEN)
    requires StoreInv(R1, R, D, n1, n2, j, n1, 0) && j + STRIP_LEN <= n2
    ensures PartInv(R1, x, b, n1, n2, w, m, j + STRIP_LEN)
  {
    hide ColOk;
    var e := j + STRIP_LEN;
    forall jj | 0 <= jj < n2 ensures PartCol(R1, x, b, n1, n2, w, m, e, jj) {
      assert PartCol(R, x, b, n1, n2, w, m, j, jj);
      var s1, s0 := Strand(R1, n2, n1, jj), Strand(R, n2, n1, jj);
      if j <= jj < e {
        assert StripCol(D, R, b, n1, n2, w, m, j, STRIP_LEN, jj - j);
        var p := RowOf(D, n1, jj - j);
        forall i | 0 <= i < n1 ensures s1[i] == p[i] { assert StoreCell(R1, R, D, n1, n2, j, n1, 0, i, jj); }
        assert s1 == p;
      } else {
        forall i | 0 <= i < n1 ensures s1[i] == s0[i] { assert StoreCell(R1, R, D, n1, n2, j, n1, 0, i, jj); }
        assert s1 == s0;
      }
    }
  }

  lemma StripColumn(D: seq<limb>, D1: seq<limb>, R: seq<limb>, b: nat, n1: nat, n2: nat, w: int, m: int, j: nat, l: nat, o: nat)
    requires m > 0 && StripInv(D, R, b, n1, n2, w, m, j, l) && l < STRIP_LEN && o == l * n1
    requires |D| == |D1| == Mul(STRIP_LEN, n1) && o + n1 <= |D|
    requires ColOk(b, D1[o..o + n1], D[o..o + n1], w, n2, j + l, m)
    requires forall t :: 0 <= t < |D| && !(o <= t < o + n1) ==> D1[t] == D[t]
    ensures StripInv(D1, R, b, n1, n2, w, m, j, l + 1)
  {
    hide ColOk, Mul, RowOf, Strand;
    var e := l + 1;
    RowWindow(D, n1, l, o);
    RowWindow(D1, n1, l, o);
    forall l' | 0 <= l' < STRIP_LEN ensures StripCol(D1, R, b, n1, n2, w, m, j, e, l') {
      assert StripCol(D, R, b, n1, n2, w, m, j, l, l');
      if l' != l { RowKept(D, D1, n1, l, l', o); }
    }
  }

  lemma RowWindow(D: seq<limb>, n1: nat, l: nat, o: nat)
    requires o == l * n1 && o + n1 <= |D|
    ensures RowOf(D, n1, l) == D[o..o + n1]
  {
    var p, q := RowOf(D, n1, l), D[o..o + n1];
    forall i | 0 <= i < n1 ensures p[i] == q[i] {
      assert p[i] == At(D, o + i);
    }
  }

  lemma RowKept(D: seq<limb>, D1: seq<limb>, n1: nat, l: nat, l': nat, o: nat)
    requires |D| == |D1| && o == l * n1 && l != l'
    requires forall t :: 0 <= t < |D| && !(o <= t < o + n1) ==> D1[t] == D[t]
    ensures RowOf(D, n1, l') == RowOf(D1, n1, l')
  {
    var p, q := RowOf(D, n1, l'), RowOf(D1, n1, l');
    forall i | 0 <= i < n1 ensures p[i] == q[i] {
      RowsApart(l, l', i, n1);
      KeptAt(D, D1, o, n1, l' * n1 + i);
    }
  }

  lemma KeptAt(D: seq<limb>, D1: seq<limb>, o: nat, n: nat, u: int)
    requires |D| == |D1| && !(o <= u < o + n)
    requires forall t :: 0 <= t < |D| && !(o <= t < o + n) ==> D1[t] == D[t]
    ensures At(D, u) == At(D1, u)
  {}

  lemma RowsApart(l: nat, l': nat, i: nat, n: nat)
    requires l != l' && i < n
    ensures !(l * n <= l' * n + i < l * n + n)
  {
    if l < l' { MulLe(l + 1, l', n); } else { MulLe(l' + 1, l, n); }
  }

  lemma StripRowFits(l: nat, n1: nat)
    requires l < STRIP_LEN
    ensures 0 <= l * n1 && l * n1 + n1 <= Mul(STRIP_LEN, n1)
  {
    MulNonNeg(l, n1);
    MulLe(l + 1, STRIP_LEN, n1);
  }

  /** The loop over the columns of a strip. */
  method StripColumns(T: Tables, strip: array<limb>, tmp: array<limb>, k1: nat, k2: nat, b: nat, j: nat, c0: limb, ghost R: seq<limb>)
    returns (c: limb)
    requires Valid(T) && b < 2 && 1 <= k1 <= TRIG_K_MAX && k1 + k2 <= T.top && strip != tmp
    requires Pow(2, k1) > 0 && Pow(2, k2) > 0 && strip.Length == Mul(STRIP_LEN, Pow(2, k1)) && Pow(2, k1) <= tmp.Length
    requires StripInv(strip[..], R, b, Pow(2, k1), Pow(2, k2), T.root[b][k1 + k2], T.m, j, 0)
    requires Below(strip[..], 2 * T.m)
    requires c0 < T.m && Cong(c0, Pow(T.root[b][k1 + k2], j), T.m)
    modifies strip, tmp
    ensures StripInv(strip[..], R, b, Pow(2, k1), Pow(2, k2), T.root[b][k1 + k2], T.m, j, STRIP_LEN)
    ensures Below(strip[..], 2 * T.m)
    ensures c < T.m && Cong(c, Pow(T.root[b][k1 + k2], j + STRIP_LEN), T.m)
  {
    hide Cong, Mul, Pow, ColOk, RootRow, LenRow, TopPair, InitModFast, InitMulMod, StripInv;
    var n1 := Pow(2, k1);
    ghost var w, m, n2 := T.root[b][k1 + k2], T.m, Pow(2, k2);
    c := c0;
    var l := 0;
    RootAt(T, b, k1 + k2);
    while l < STRIP_LEN
      invariant 0 <= l <= STRIP_LEN
      invariant StripInv(strip[..], R, b, n1, n2, w, m, j, l)
      invariant Below(strip[..], 2 * m)
      invariant c < m && Cong(c, Pow(w, j + l), m)
    {
      StripRowFits(l, n1);
      var o := l * n1;
      ghost var D := strip[..];
      assert D[o..o + n1] == strip[o..o + n1];
      Column(T, strip, o, tmp, k1, k2, b, c, j + l);
      ghost var D1 := strip[..];
      assert D1[o..o + n1] == strip[o..o + n1];
      StripColumn(D, D1, R, b, n1, n2, w, m, j, l, o);
      BelowKept(D, D1, o, n1, 2 * m);
      TwistBound(c, T.root[b][k1 + k2], T.m);
      var d := MulModFast(c, T.root[b][k1 + k2], T.m, T.mInv);
      StepCong(c, d, w, j + l, m);
      c := d;
      l := l + 1;
    }
  }

  lemma BelowKept(D: seq<limb>, D1: seq<limb>, o: nat, n: nat, c: int)
    requires |D| == |D1| && o + n <= |D| && Below(D, c) && Below(D1[o..o + n], c)
    requires forall t :: 0 <= t < |D| && !(o <= t < o + n) ==> D1[t] == D[t]
    ensures Below(D1, c)
  {
    forall t | 0 <= t < |D1| ensures D1[t] < c {
      if o <= t < o + n { assert D1[t] == D1[o..o + n][t - o]; }
    }
  }

  /** ntt_fft_partial for k2 > 0. */
  method FftPartial(T: Tables, buf: array<limb>, off: nat, k1: nat, k2: nat, b: nat)
    requires Valid(T) && b < 2 && 1 <= k1 <= TRIG_K_MAX && 4 <= k2 && k1 + k2 <= T.top
    requires Pow(2, k1) > 0 && Pow(2, k2) > 0 && Mul(Pow(2, k1), Pow(2, k2)) >= 0
    requires off + Mul(Pow(2, k1), Pow(2, k2)) <= buf.Length
    requires Below(buf[off..off + Mul(Pow(2, k1), Pow(2, k2))], 2 * T.m)
    modifies buf
    ensures PartInv(buf[off..off + Mul(Pow(2, k1), Pow(2, k2))], old(buf[off..off + Mul(Pow(2, k1), Pow(2, k2))]),
                    b, Pow(2, k1), Pow(2, k2), T.root[b][k1 + k2], T.m, Pow(2, k2))
    ensures Below(buf[off..off + Mul(Pow(2, k1), Pow(2, k2))], 2 * T.m)
    ensures forall t :: 0 <= t < buf.Length && !(off <= t < off + Mul(Pow(2, k1), Pow(2, k2))) ==> buf[t] == old(buf[t])
  {
    hide Cong, Mul, Pow, ColOk, RootRow, LenRow, TopPair, InitModFast, StripInv, PartInv, LoadInv, StoreInv;
    var n1, n2 := Pow(2, k1), Pow(2, k2);
    ghost var n, w, m := Mul(n1, n2), T.root[b][k1 + k2], T.m;
    ghost var x := buf[off..off + n];
    StripRowFits(STRIP_LEN - 1, n1);
    StripLen(n1);
    var strip, tmp := new limb[STRIP_LEN * n1], new limb[n1];
    StripMultiple(k2);
    var j := 0;
    var c: limb := 1;
    PowZero(w);
    CongRefl(1, m);
    PartStart(x, b, n1, n2, w, m);
    while j < n2
      invariant 0 <= j <= n2 && j % STRIP_LEN == 0
      invariant PartInv(buf[off..off + n], x, b, n1, n2, w, m, j)
      invariant Below(buf[off..off + n], 2 * m)
      invariant c < m && Cong(c, Pow(w, j), m)
      invariant forall t :: 0 <= t < buf.Length && !(off <= t < off + n) ==> buf[t] == old(buf[t])
    {
      ghost var R := buf[off..off + n];
      LoadStrip(buf, off, n1, n2, j, strip);
      StripLoaded(strip[..], R, b, n1, n2, w, m, j);
      LoadBelow(strip[..], R, n1, n2, j, 2 * m);
      c := StripColumns(T, strip, tmp, k1, k2, b, j, c, R);
      ghost var D := strip[..];
      StoreStrip(buf, off, n1, n2, j, strip);
      ghost var R1 := buf[off..off + n];
      StripStored(R1, R, D, x, b, n1, n2, w, m, j);
      StoreBelow(R1, R, D, n1, n2, j, 2 * m);
      j := j + STRIP_LEN;
    }
  }

  lemma StripLen(n1: nat)
    ensures STRIP_LEN * n1 == Mul(STRIP_LEN, n1)
  {}

  lemma StripMultiple(k: nat)
    requires k >= 4
    ensures Pow(2, k) % STRIP_LEN == 0
  {
    PowAdd(2, 4, k - 4);
    assert Pow(2, 4) == 16;
    DivMul(16, Pow(2, k - 4));
  }

  lemma PartStart(x: seq<limb>, b: nat, n1: nat, n2: nat, w: int, m: int)
    requires m > 0
    ensures PartInv(x, x, b, n1, n2, w, m, 0)
  {}
}
