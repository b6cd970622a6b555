/** The per-modulus tables of the transform and their initialisation (ntt_static_init, get_trig). */
module NttState {
  import opened Arith
  import opened Word
  import opened ModMul
  import opened Fourier
  import opened NttFft

  const TRIG_K_MAX: nat := 19

  /** One column of the transform state: root[b][k] is the forward (b = 0) or inverse
      (b = 1) root of order 2^k for 1 <= k <= top, lenInv[i] is 1/2^i, each with its scaled inverse. */
  datatype Tables = Tables(m: limb, mInv: limb, top: nat, root: seq<seq<limb>>, rootInv: seq<seq<limb>>,
                           lenInv: seq<limb>, lenInvInv: seq<limb>)

  ghost predicate RootRow(root: seq<limb>, rootInv: seq<limb>, w: limb, top: nat, m: limb, lo: int)
    requires m > 0 && lo >= 1
  {
    && |root| == |rootInv| == top + 1
    && (forall k :: lo <= k <= top ==> RootEntry(root[k], rootInv[k], w, top - k, m))
  }

  ghost predicate RootEntry(r: limb, rInv: limb, w: limb, e: nat, m: limb)
    requires m > 0
  {
    r < m && rInv == InitMulMod(r, m) && Cong(r, Pow(w, Pow(2, e)), m)
  }

  ghost predicate LenRow(lenInv: seq<limb>, lenInvInv: seq<limb>, m: limb)
    requires m > 0
  {
    |lenInv| == |lenInvInv| && forall i :: 0 <= i < |lenInv| ==> LenEntry(lenInv[i], lenInvInv[i], i, m)
  }

  ghost predicate LenEntry(l: limb, lInv: limb, i: nat, m: limb)
    requires m > 0
  {
    l < m && lInv == InitMulMod(l, m) && Cong(l * Pow(2, i), 1, m)
  }

  /** The top entries are a root of order 2^top and its inverse. */
  ghost predicate TopPair(p: limb, q: limb, top: nat, m: limb)
    requires m > 0
  {
    Root(p, top, m) && Cong(p * q, 1, m)
  }

  ghost predicate Shape(T: Tables) {
    && Modulus(T.m) && T.mInv == InitModFast(T.m)
    && |T.root| == |T.rootInv| == 2 && |T.lenInv| == T.top + 1
    && |T.root[0]| == |T.root[1]| == T.top + 1
  }

  ghost predicate Valid(T: Tables) {
    && Shape(T)
    && TopPair(T.root[0][T.top], T.root[1][T.top], T.top, T.m)
    && RootRow(T.root[0], T.rootInv[0], T.root[0][T.top], T.top, T.m, 1)
    && RootRow(T.root[1], T.rootInv[1], T.root[1][T.top], T.top, T.m, 1)
    && LenRow(T.lenInv, T.lenInvInv, T.m)
  }

  /** The fill loop for one direction: k runs from the top down, squaring each time. */
  method FillRoots(w: limb, top: nat, m: limb, mInv: limb) returns (root: seq<limb>, rootInv: seq<limb>)
    requires Modulus(m) && mInv == InitModFast(m) && w < m && top >= 1
    ensures RootRow(root, rootInv, w, top, m, 1)
    ensures root[top] == w
  {
    hide Cong, Pow, InitMulMod, InitModFast;
    root, rootInv := seq<limb>(top + 1, i => 0), seq<limb>(top + 1, i => 0);
    var c: limb := w;
    var i := 0;
    CongRefl(w, m);
    PowUnit(w);
    while i < top
      invariant 0 <= i <= top
      invariant c < m && Cong(c, Pow(w, Pow(2, i)), m)
      invariant RootRow(root, rootInv, w, top, m, top - i + 1)
      invariant if i == 0 then c == w else root[top] == w
    {
      var cInv := InitMulMod(c, m);
      assert RootEntry(c, cInv, w, i, m);
      root, rootInv := root[top - i := c], rootInv[top - i := cInv];
      SquareBound(c, m);
      var d := MulModFast(c, c, m, mInv);
      SquareCong(c, d, w, i, m);
      c := d;
      i := i + 1;
    }
  }

  lemma SquareBound(c: limb, m: limb)
    requires Modulus(m) && c < m
    ensures c * c < P125 && c * c <= BB
  {
    MulLe(c, m, c);
    MulLe(c, m, m);
    MulLe(m, 2 * P61, m);
    MulLe(m, 2 * P61, 2 * P61);
  }

  lemma SquareCong(c: int, d: int, w: int, i: nat, m: int)
    requires m > 0 && Cong(c, Pow(w, Pow(2, i)), m) && Cong(d, c * c, m)
    ensures Cong(d, Pow(w, Pow(2, i + 1)), m)
  {
    hide Cong;
    var e := Pow(2, i);
    PowPos(2, i);
    CongMul(c, Pow(w, e), c, Pow(w, e), m);
    PowAdd(w, e, e);
    CongTrans(d, c * c, Pow(w, e) * Pow(w, e), m);
  }

  /** The fill loop for 1/2^i. */
  method FillLengths(top: nat, m: limb, mInv: limb) returns (lenInv: seq<limb>, lenInvInv: seq<limb>)
    requires Modulus(m) && mInv == InitModFast(m) && m % 2 == 1
    ensures LenRow(lenInv, lenInvInv, m) && |lenInv| == top + 1
  {
    hide Cong, Pow, InitMulMod, InitModFast;
    var half := (m + 1) / 2;
    CongIntro(half * 2, 1, m, 1);
    lenInv, lenInvInv := [], [];
    var c: limb := 1;
    var i := 0;
    CongRefl(1, m);
    PowUnit(1);
    while i <= top
      invariant 0 <= i <= top + 1 && |lenInv| == i
      invariant c < m && Cong(c * Pow(2, i), 1, m)
      invariant LenRow(lenInv, lenInvInv, m)
    {
      var cInv := InitMulMod(c, m);
      assert LenEntry(c, cInv, i, m);
      lenInv, lenInvInv := lenInv + [c], lenInvInv + [cInv];
      HalfBound(c, half, m);
      var d := MulModFast(c, half, m, mInv);
      HalveCong(c, d, half, i, m);
      c := d;
      i := i + 1;
    }
  }

  lemma HalfBound(c: limb, h: limb, m: limb)
    requires Modulus(m) && c < m && h <= m
    ensures c * h < P125
  {
    MulLe(h, m, c);
    MulLe(c, m, m);
    MulLe(m, 2 * P61, m);
    MulLe(m, 2 * P61, 2 * P61);
  }

  lemma HalveCong(c: int, d: int, half: int, i: nat, m: int)
    requires m > 0 && Cong(c * Pow(2, i), 1, m) && Cong(half * 2, 1, m) && Cong(d, c * half, m)
    ensures Cong(d * Pow(2, i + 1), 1, m)
  {
    hide Cong;
    var e := Pow(2, i);
    assert Pow(2, i + 1) == 2 * Pow(2, i);
    CongScale(d, c * half, 2 * e, m);
    assert (c * half) * (2 * e) == (c * e) * (half * 2);
    CongMul(c * e, 1, half * 2, 1, m);
    CongTrans(d * (2 * e), (c * e) * (half * 2), 1, m);
  }

  /** ntt_static_init for one modulus. */
  method Init(m: limb, proot0: limb, proot1: limb, top: nat) returns (T: Tables)
    requires Modulus(m) && m % 2 == 1 && proot0 < m && proot1 < m && top >= 1
    requires Root(proot0, top, m) && Cong(proot0 * proot1, 1, m)
    ensures Valid(T) && T.m == m && T.top == top
  {
    hide Cong, Root, InitModFast;
    var mInv := InitModFast(m);
    var lenInv, lenInvInv := FillLengths(top, m, mInv);
    var root0, rootInv0 := FillRoots(proot0, top, m, mInv);
    var root1, rootInv1 := FillRoots(proot1, top, m, mInv);
    T := Tables(m, mInv, top, [root0, root1], [rootInv0, rootInv1], lenInv, lenInvInv);
  }

  // ----- what the tables provide -----

  lemma RootAt(T: Tables, b: nat, k: nat)
    requires Valid(T) && b < 2 && 1 <= k <= T.top
    ensures RootEntry(T.root[b][k], T.rootInv[b][k], T.root[b][T.top], T.top - k, T.m)
  {}

  /** root[b][k - s] is root[b][k] raised to 2^s. */
  lemma RootStep(T: Tables, b: nat, k: nat, s: nat)
    requires Valid(T) && b < 2 && s < k <= T.top
    ensures Cong(T.root[b][k - s], Pow(T.root[b][k], Pow(2, s)), T.m)
  {
    hide Cong, Pow, Root, InitMulMod, InitModFast;
    RootAt(T, b, k);
    RootAt(T, b, k - s);
    RootStepPow(T.root[b][T.top], T.root[b][k], T.root[b][k - s], T.top - k, s, T.m);
  }

  lemma RootStepPow(w: int, r: int, q: int, e: nat, s: nat, m: int)
    requires m > 0 && Cong(r, Pow(w, Pow(2, e)), m) && Cong(q, Pow(w, Pow(2, e + s)), m)
    ensures Cong(q, Pow(r, Pow(2, s)), m)
  {
    hide Cong, Pow, InitMulMod, InitModFast;
    PowPos(2, e);
    PowPos(2, s);
    CongPow(r, Pow(w, Pow(2, e)), Pow(2, s), m);
    PowPow(w, Pow(2, e), Pow(2, s));
    PowAdd(2, e, s);
    CongSym(Pow(r, Pow(2, s)), Pow(w, Pow(2, e + s)), m);
    CongTrans(q, Pow(w, Pow(2, e + s)), Pow(r, Pow(2, s)), m);
  }

  lemma RootsInverse(T: Tables, k: nat)
    requires Valid(T) && 1 <= k <= T.top
    ensures Cong(Mul(T.root[0][k], T.root[1][k]), 1, T.m)
  {
    hide Cong, Pow, Root, RootRow, LenRow, InitMulMod, InitModFast;
    RootAt(T, 0, k);
    RootAt(T, 1, k);
    RootsInversePow(T.root[0][T.top], T.root[1][T.top], T.root[0][k], T.root[1][k], T.top - k, T.m);
  }

  lemma RootsInversePow(p: int, q: int, r: int, s: int, e: nat, m: int)
    requires m > 0 && Cong(p * q, 1, m) && Cong(r, Pow(p, Pow(2, e)), m) && Cong(s, Pow(q, Pow(2, e)), m)
    ensures Cong(r * s, 1, m)
  {
    hide Cong, Pow, InitMulMod, InitModFast;
    var n := Pow(2, e);
    CongMul(r, Pow(p, n), s, Pow(q, n), m);
    PowMulBase(p, q, p * q, n);
    CongPow(p * q, 1, n, m);
    PowOne(n);
    CongTrans(r * s, Pow(p, n) * Pow(q, n), 1, m);
  }

  /** Both tables hold roots of unity of the stated order. */
  lemma RootsAre(T: Tables, b: nat, k: nat)
    requires Valid(T) && b < 2 && 1 <= k <= T.top
    ensures Root(T.root[b][k], k, T.m)
  {
    hide Cong, Root, Pow;
    RootPow(T.root[0][T.top], T.top, T.top - k, T.m);
    RootAt(T, 0, k);
    RootCong(Pow(T.root[0][T.top], Pow(2, T.top - k)), T.root[0][k], k, T.m);
    RootsInverse(T, k);
    RootInverse(T.root[0][k], T.root[1][k], k, T.m);
  }

  /** get_trig without its cache: the 2^(k-1) twiddle factors of a root of order 2^k. */
  method GetTrig(T: Tables, k: nat, b: nat) returns (trig: array<limb>)
    requires Valid(T) && b < 2 && 1 <= k <= TRIG_K_MAX && k <= T.top
    ensures fresh(trig) && trig.Length == 2 * Pow(2, k - 1)
    ensures TrigTable(trig[..], T.root[b][k], T.m)
  {
    hide Cong, Pow, Root, InitMulMod, InitModFast;
    PowPos(2, k - 1);
    var n2 := Pow(2, k - 1);
    var m := T.m;
    RootAt(T, b, k);
    PowZero(T.root[b][k]);
    trig := new limb[2 * n2];
    var c: limb := 1;
    ghost var w := T.root[b][k];
    CongRefl(1, m);
    var i := 0;
    while i < n2
      invariant 0 <= i <= n2
      invariant c < m && Cong(c, Pow(w, i), m)
      invariant TrigPrefix(trig[..], w, m, i)
    {
      ghost var before := trig[..];
      var cInv := InitMulMod(c, m);
      trig[2 * i] := c;
      trig[2 * i + 1] := cInv;
      TrigStep(before, trig[..], w, m, i);
      var d := MulModFast2(c, T.root[b][k], m, T.rootInv[b][k]);
      StepCong(c, d, w, i, m);
      c := d;
      i := i + 1;
    }
  }

  ghost predicate TrigPrefix(trig: seq<limb>, w: int, m: limb, n: nat)
    requires m > 0
  {
    2 * n <= |trig| && forall j :: 0 <= j < n ==> TrigEntry(trig[2 * j], trig[2 * j + 1], w, j, m)
  }

  lemma TrigStep(before: seq<limb>, after: seq<limb>, w: int, m: limb, i: nat)
    requires m > 0 && TrigPrefix(before, w, m, i) && |before| == |after| && 2 * i + 2 <= |after|
    requires forall t :: 0 <= t < 2 * i ==> before[t] == after[t]
    requires TrigEntry(after[2 * i], after[2 * i + 1], w, i, m)
    ensures TrigPrefix(after, w, m, i + 1)
  {
    hide TrigEntry;
    forall j | 0 <= j < i + 1 ensures TrigEntry(after[2 * j], after[2 * j + 1], w, j, m) {
      if j < i { assert before[2 * j] == after[2 * j] && before[2 * j + 1] == after[2 * j + 1]; }
    }
  }

  lemma StepCong(c: int, d: int, w: int, i: nat, m: int)
    requires m > 0 && Cong(c, Pow(w, i), m) && Cong(d, c * w, m)
    ensures Cong(d, Pow(w, i + 1), m)
  {
    hide Cong;
    CongScale(c, Pow(w, i), w, m);
    assert Pow(w, i + 1) == w * Pow(w, i);
    CongTrans(d, c * w, Pow(w, i + 1), m);
  }
}
