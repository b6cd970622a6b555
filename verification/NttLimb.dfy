/** ntt_to_limb: Chinese remaindering of the coefficients and carry propagation into limbs. */
module NttLimb {
  import opened Arith
  import opened Word
  import opened Limbs
  import opened Bits
  import opened ModMul
  import opened NttMods

  // ----- mixed radix -----

  /** Entry k is the residue of C modulo the modulus it belongs to. */
  ghost predicate ResAt(y: seq<limb>, o: nat, k: nat, C: int) {
    k < |y| && o + k < NB_MODS && y[k] < MODS[o + k] && Cong(y[k], C, MODS[o + k])
  }

  /** The residues of a number C modulo the last |y| moduli. */
  ghost predicate Residues(y: seq<limb>, o: nat, C: int) {
    o + |y| == NB_MODS && forall k :: 0 <= k < |y| ==> ResAt(y, o, k, C)
  }

  lemma ModAt(k: nat)
    requires k < NB_MODS
    ensures Modulus(MODS[k])
  {}

  const CR_COLUMN: seq<nat> := [1, 2, 3, 4, 2, 3, 4, 3, 4, 4]

  ghost predicate CrEntry(crInv: seq<limb>, l: nat) {
    l < |crInv| && l < 10 && MODS_CR[l] < MODS[CR_COLUMN[l]] && crInv[l] == InitMulMod(MODS_CR[l], MODS[CR_COLUMN[l]])
  }

  /** The scaled inverses, row by row as in the source table. */
  ghost predicate CrTable(crInv: seq<limb>) {
    |crInv| == 10 && forall l :: 0 <= l < 10 ==> CrEntry(crInv, l)
  }

  lemma CrFits(l: nat)
    requires l < 10
    ensures MODS_CR[l] < MODS[CR_COLUMN[l]]
  {}

  /** The inverse for the pair j < k sits at index RowStart(j) + k - j - 1. */
  lemma CrPair(j: nat, k: nat)
    requires j < k < NB_MODS
    ensures RowStart(j) + k - j - 1 < 10 && CR_COLUMN[RowStart(j) + k - j - 1] == k && MODS[j] < MODS[k]
    ensures Cong(Mul(MODS_CR[RowStart(j) + k - j - 1], MODS[j]), 1, MODS[k])
  {
    CrValid(j, k);
    assert CrIndex(j, k) == RowStart(j) + k - j - 1;
  }

  function RowStart(j: nat): nat
    requires j < NB_MODS
  {
    if j == 0 then 0 else if j == 1 then 4 else if j == 2 then 7 else if j == 3 then 9 else 10
  }

  /** The part of ntt_static_init that scales the inverses. */
  method InitCr() returns (crInv: seq<limb>)
    ensures CrTable(crInv)
  {
    hide InitMulMod;
    crInv := [];
    var l, j := 0, 0;
    while j < NB_MODS - 1
      invariant 0 <= j <= NB_MODS - 1 && |crInv| == l == RowStart(j)
      invariant forall t :: 0 <= t < l ==> CrEntry(crInv, t)
    {
      var k := j + 1;
      while k < NB_MODS
        invariant j < k <= NB_MODS && |crInv| == l == RowStart(j) + k - j - 1
        invariant forall t :: 0 <= t < l ==> CrEntry(crInv, t)
      {
        CrPair(j, k);
        CrFits(l);
        ghost var before := crInv;
        crInv := crInv + [InitMulMod(MODS_CR[l], MODS[k])];
        assert forall t :: 0 <= t < l ==> CrEntry(before, t) ==> CrEntry(crInv, t);
        l := l + 1;
        k := k + 1;
      }
      j := j + 1;
    }
  }

  /** Removing digit y of C: the residue of (C - y) / m modulo another modulus p. */
  lemma PeelCong(r: int, z: int, y: int, C: int, q: int, m: int, inv: int, p: int)
    requires p > 0 && Cong(z, C, p) && C == m * q + y && Cong(inv * m, 1, p) && Cong(r, (z - y + p) * inv, p)
    ensures Cong(r, q, p)
  {
    hide Cong;
    CongRefl(y, p);
    CongSub(z, C, y, y, p);
    CongIntro(z - y + p, z - y, p, 1);
    CongTrans(z - y + p, z - y, m * q, p);
    CongScale(z - y + p, m * q, inv, p);
    CongScale(inv * m, 1, q, p);
    assert (m * q) * inv == (inv * m) * q;
    CongTrans((z - y + p) * inv, (inv * m) * q, q, p);
    CongTrans(r, (z - y + p) * inv, q, p);
  }

  ghost predicate ChainAt(R: seq<int>, y: seq<limb>, o: nat, j: nat) {
    j + 1 < |R| && j < |y| && o + j < NB_MODS && R[j] == MODS[o + j] * R[j + 1] + y[j] && R[j + 1] >= 0
  }

  /** The chain of quotients of C by the moduli: R[0] = C, R[j] = y[j] + m_j R[j+1]. */
  ghost predicate Chain(R: seq<int>, y: seq<limb>, o: nat) {
    && o + |y| == NB_MODS && |R| == |y| >= 1 && R[|y| - 1] == y[|y| - 1]
    && forall j :: 0 <= j < |y| - 1 ==> ChainAt(R, y, o, j)
  }

  /** One outer step of the conversion: digit j is final, the later entries become residues of the quotient. */
  method PeelDigit(y0: seq<limb>, o: nat, j: nat, l0: nat, crInv: seq<limb>, ghost C: int, ghost q: int) returns (y: seq<limb>, l: nat)
    requires o + |y0| == NB_MODS && j < |y0| - 1 && CrTable(crInv) && l0 == RowStart(o + j)
    requires forall k :: j <= k < |y0| ==> ResAt(y0, o, k, C)
    requires C == MODS[o + j] * q + y0[j]
    ensures |y| == |y0| && l == RowStart(o + j + 1)
    ensures forall i :: 0 <= i <= j ==> y[i] == y0[i]
    ensures forall k :: j < k < |y| ==> ResAt(y, o, k, q)
  {
    hide InitMulMod, Cong;
    y, l := y0, l0;
    var k := j + 1;
    while k < |y0|
      invariant j < k <= |y0| && |y| == |y0| && l == l0 + k - j - 1
      invariant forall i :: 0 <= i <= j || k <= i < |y| ==> y[i] == y0[i]
      invariant forall i :: j < i < k ==> ResAt(y, o, i, q)
    {
      CrPair(o + j, o + k);
      assert CrEntry(crInv, l) && ResAt(y0, o, k, C) && ResAt(y0, o, j, C);
      ModAt(o + k);
      var d := y[k] as int - y[j] as int + MODS[o + k] as int;
      var r := MulModFast2(d, MODS_CR[l], MODS[o + k], crInv[l]);
      PeelStep(r, y0[k], y0[j], C, q, MODS[o + j], MODS_CR[l], MODS[o + k]);
      ghost var before := y;
      y := y[k := r];
      forall i | j < i < k ensures ResAt(y, o, i, q) { assert ResAt(before, o, i, q); }
      l := l + 1;
      k := k + 1;
    }
  }

  lemma PeelStep(r: int, z: int, y: int, C: int, q: int, m: int, inv: int, p: int)
    requires p > 0 && Cong(z, C, p) && C == m * q + y && Cong(Mul(inv, m), 1, p) && Cong(r, (z - y + p) * inv, p)
    ensures Cong(r, q, p)
  {
    InverseIs(inv, m, p);
    PeelCong(r, z, y, C, q, m, inv, p);
  }

  lemma InverseIs(a: int, b: int, m: int)
    requires m > 0 && Cong(Mul(a, b), 1, m)
    ensures Cong(a * b, 1, m)
  {}

  lemma DigitIsRemainder(y: int, C: int, m: int)
    requires m > 0 && 0 <= y < m && Cong(y, C, m) && C >= 0
    ensures C == m * (C / m) + y && C / m >= 0
  {
    CongMod(C, m);
    CongSym(C % m, C, m);
    CongTrans(y, C, C % m, m);
    CongUnique(y, C % m, m);
    DivNonNeg(C, m);
  }

  lemma QuotientProd(C: int, j: nat)
    requires j < NB_MODS && 0 <= C < ProdFrom(j)
    ensures 0 <= C / MODS[j] < ProdFrom(j + 1)
  {
    DivNonNeg(C, MODS[j]);
    DivLess(C, MODS[j], ProdFrom(j + 1));
  }

  /** Chinese remaindering into mixed radix digits. */
  method MixedRadix(y0: seq<limb>, o: nat, crInv: seq<limb>, ghost C: int) returns (y: seq<limb>, ghost R: seq<int>)
    requires Residues(y0, o, C) && |y0| >= 1 && CrTable(crInv) && 0 <= C < ProdFrom(o)
    ensures |y| == |y0| && Chain(R, y, o) && R[0] == C
  {
    hide Cong, CrTable, ProdFrom;
    y := y0;
    var j, l := 0, RowStart(o);
    R := [C];
    while j < |y0| - 1
      invariant 0 <= j <= |y0| - 1 && |y| == |y0| && l == RowStart(o + j)
      invariant |R| == j + 1 && R[0] == C && 0 <= R[j] < ProdFrom(o + j)
      invariant forall i :: 0 <= i < j ==> ChainAt(R, y, o, i)
      invariant forall k :: j <= k < |y| ==> ResAt(y, o, k, R[j])
    {
      ghost var before, q, R0 := y, R[j] / MODS[o + j], R;
      assert ResAt(y, o, j, R[j]);
      DigitIsRemainder(y[j], R[j], MODS[o + j]);
      QuotientProd(R[j], o + j);
      y, l := PeelDigit(y, o, j, l, crInv, R[j], q);
      R := R + [q];
      forall i | 0 <= i < j + 1 ensures ChainAt(R, y, o, i) {
        if i < j { assert ChainAt(R0, before, o, i); }
      }
      j := j + 1;
    }
    assert ResAt(y, o, j, R[j]);
    LastDigit(y[j], R[j], o + j);
  }

  lemma LastDigit(y: int, C: int, k: nat)
    requires k == NB_MODS - 1 && 0 <= y < MODS[k] && Cong(y, C, MODS[k]) && 0 <= C < ProdFrom(k)
    ensures y == C
  {
    assert ProdFrom(k) == MODS[k] * ProdFrom(k + 1) == MODS[k];
    CongUnique(y, C, MODS[k]);
  }
}
