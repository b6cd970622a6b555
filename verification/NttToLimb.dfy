/** ntt_to_limb: from the residues of the coefficients to the limbs of the product. */
module NttToLimb {
  import opened Arith
  import opened Sums
  import opened Word
  import opened Limbs
  import opened Bits
  import opened ModMul
  import opened Fourier
  import opened Digits
  import opened LimbNtt
  import opened NttMods
  import opened NttSize
  import opened NttLimb
  import opened NttCarry

  // ----- writing one digit -----

  lemma AddMod2(a: int, b: int, n: int)
    requires n > 0
    ensures (a % n + b) % n == (a + b) % n
  {
    var q := a / n;
    assert a % n + b == a + b + n * (-q);
    ModShift(a + b, n, -q);
  }

  lemma ModShift(a: int, n: int, k: int)
    requires n > 0
    ensures (a + n * k) % n == a % n
  {
    var q, r := a / n, a % n;
    assert n * (q + k) == n * q + n * k;
    DivModUnique(a + n * k, n, q + k, r);
  }

  lemma ModSmall(a: int, n: int)
    requires a >= 0 && n > 0
    ensures 0 <= a % n <= a
  {
    DivNonNeg(a, n);
    MulNonNeg(n, a / n);
    assert a == n * (a / n) + a % n;
  }

  /** The words written so far, below the next position. */
  lemma WordsBelow(v0: int, q: int, w: int, p: int)
    requires 0 <= v0 < q && 0 <= w < p
    ensures 0 <= v0 + q * w < q * p
  {
    MulNonNeg(q, w);
    MulLe(w + 1, p, q);
    assert q * (w + 1) == q * w + q;
  }

  lemma DigitWords(u: seq<limb>, d: nat, n1: nat)
    requires d >= 1 && n1 == (d - 1) / 64 && n1 < |u|
    ensures Val(u) % Two(d) == Val(u[..n1]) + Pow(B, n1) * LowBits(u[n1], MaskBits(d))
  {
    hide Val, Two, Pow, High;
    var s := MaskBits(d);
    assert d == 64 * n1 + s && 1 <= s <= 64;
    PowWord(n1);
    TwoAdd(64 * n1, s);
    ModSplit(Val(u), Two(64 * n1), Two(s));
    HighIs(u, n1);
    HighStep(u, n1);
    ValSplit(u, n1);
    ValBound(u[..n1]);
    DivModUnique(Val(u), Pow(B, n1), Val(u[n1..]), Val(u[..n1]));
    TwoWord();
    TwoAdd(s, 64 - s);
    LowOfHigh(u[n1], High(u, n1 + 1), Two(s), Two(64 - s));
    LowIs(u[n1], s);
  }

  lemma LowOfHigh(a: int, h: int, t: int, e: int)
    requires t > 0 && t * e == B
    ensures (a + B * h) % t == a % t
  {
    assert B * h == t * (e * h) by { assert (t * e) * h == t * (e * h); }
    ModShift(a, t, e * h);
  }

  /** The low d bits of u are or-ed in at bit position pos. */
  method WriteDigit(tab: array<limb>, pos: nat, u: seq<limb>, d: nat)
    requires 1 <= d && (d - 1) / 64 < |u| && Val(tab[..]) < Two(pos)
    modifies tab
    ensures Pow(B, tab.Length) > 0
    ensures Val(tab[..]) == (old(Val(tab[..])) + Two(pos) * (Val(u) % Two(d))) % Pow(B, tab.Length)
  {
    hide Val, Two, Pow, LowBits, MaskBits;
    PowPos(B, tab.Length);
    ghost var v0, n, q := Val(tab[..]), Pow(B, tab.Length), Two(pos);
    var nLimb1 := (d - 1) / 64;
    var j, at := 0, pos;
    ValBound(tab[..]);
    ValZeros([]);
    assert u[..0] == [];
    ModUnchanged(v0, n, 0);
    while j < nLimb1
      invariant 0 <= j <= nLimb1 && at == pos + 64 * j
      invariant Val(tab[..]) == (v0 + q * Val(u[..j])) % n
    {
      WordAt(v0, pos, u, j, n);
      ghost var before := Val(tab[..]);
      PutBits(tab, at, u[j]);
      AddMod2(v0 + q * Val(u[..j]), u[j] * Two(at), n);
      at := at + 64;
      j := j + 1;
    }
    WordAt(v0, pos, u, j, n);
    MaskFits(d);
    LowFits(u[nLimb1], MaskBits(d));
    PutBits(tab, at, LowBits(u[nLimb1], MaskBits(d)));
    DigitWords(u, d, nLimb1);
    AddMod2(v0 + q * Val(u[..j]), LowBits(u[nLimb1], MaskBits(d)) * Two(at), n);
    LastWord(q, Pow(B, j), Val(u[..j]), LowBits(u[nLimb1], MaskBits(d)), Two(at));
  }

  lemma MaskFits(d: nat)
    requires d >= 1
    ensures 1 <= MaskBits(d) <= 64
  {}

  lemma LastWord(q: int, p: int, w: int, x: int, t: int)
    requires t == q * p
    ensures q * w + x * t == q * (w + p * x)
  {
    assert x * (q * p) == q * (p * x);
    assert q * (w + p * x) == q * w + q * (p * x);
  }

  /** Facts at the start of step j of the write loop. */
  lemma WordAt(v0: int, pos: nat, u: seq<limb>, j: nat, n: int)
    requires j < |u| && 0 <= v0 < Two(pos) && n > 0
    ensures (v0 + Two(pos) * Val(u[..j])) % n < Two(pos + 64 * j)
    ensures Two(pos + 64 * j) == Two(pos) * Pow(B, j)
    ensures Val(u[..j + 1]) == Val(u[..j]) + u[j] * Pow(B, j)
    ensures v0 + Two(pos) * Val(u[..j]) + u[j] * Two(pos + 64 * j) == v0 + Two(pos) * Val(u[..j + 1])
  {
    hide Val, Two, Pow;
    PowWord(j);
    TwoAdd(pos, 64 * j);
    ValNext(u, j);
    ValBound(u[..j]);
    var q, p, w := Two(pos), Pow(B, j), Val(u[..j]);
    WordsBelow(v0, q, w, p);
    ModSmall(v0 + q * w, n);
    LastWord(q, p, w, u[j], q * p);
    assert p * u[j] == u[j] * p;
  }

  // ----- shifting the carry -----

  /** Words read off at multiples of 64 from position d make up the number shifted down by d. */
  lemma {:induction false} CarryWords(c: seq<limb>, u: seq<limb>, d: nat, i: nat)
    requires i <= |c| && forall t :: 0 <= t < |c| ==> c[t] == GetBits(u, d + 64 * t)
    ensures Pow(B, i) > 0 && Val(c[..i]) == (Val(u) / Two(d)) % Pow(B, i)
  {
    hide Val, Two, Pow, GetBits;
    PowPos(B, i);
    if i == 0 {
      PowZero(B);
      assert c[..0] == [];
      ValZeros([]);
      DivModUnique(Val(u) / Two(d), 1, Val(u) / Two(d), 0);
    } else {
      var k := i - 1;
      CarryWords(c, u, d, k);
      ValNext(c, k);
      GetBitsExact(u, d + 64 * k);
      PowWord(k);
      TwoAdd(d, 64 * k);
      DivDiv(Val(u), Two(d), Two(64 * k));
      ModSplit(Val(u) / Two(d), Pow(B, k), B);
      PowNextB(k);
      MulSides(Pow(B, k), c[k]);
      MulSides(Pow(B, k), B);
    }
  }

  lemma CarryValue(c: seq<limb>, u: seq<limb>, d: nat)
    requires |c| == |u| && forall t :: 0 <= t < |c| ==> c[t] == GetBits(u, d + 64 * t)
    ensures Val(c) == Val(u) / Two(d)
  {
    hide Val, Two, Pow, GetBits;
    CarryWords(c, u, d, |c|);
    assert c[..|c|] == c;
    ValBound(u);
    DivNonNeg(Val(u), Two(d));
    DivBounds(Val(u), Two(d));
    MulLe(1, Two(d), Val(u) / Two(d));
    DivModUnique(Val(u) / Two(d), Pow(B, |u|), 0, Val(u) / Two(d));
  }

  lemma BitsWhole(u: seq<limb>, j: nat)
    ensures GetBits(u, 64 * j) == LimbAt(u, j)
  {}

  lemma BitsShifted(u: seq<limb>, j: nat, s: nat)
    requires 0 < s < 64
    ensures Two(64 - s) > 0 && GetBits(u, 64 * j + s) == Shr(LimbAt(u, j), s) + Shl(LimbAt(u, j + 1), 64 - s)
  {
    hide Shr, Shl;
    JoinFits(LimbAt(u, j), LimbAt(u, j + 1), s);
    assert (64 * j + s) / 64 == j && (64 * j + s) % 64 == s;
  }

  lemma BitsTop(u: seq<limb>, s: nat)
    requires 0 < s < 64 && |u| >= 1
    ensures GetBits(u, 64 * (|u| - 1) + s) == Shr(u[|u| - 1], s)
  {
    hide Shr;
    BitsShifted(u, |u| - 1, s);
    ShlExact(0, 64 - s);
    LoExact(0);
    assert Shl(0, 64 - s) == 0;
  }

  lemma BitsBeyond(u: seq<limb>, pos: nat)
    requires pos >= 64 * |u|
    ensures GetBits(u, pos) == 0
  {
    hide Two, Val, Pow, GetBits;
    GetBitsExact(u, pos);
    ValBound(u);
    PowWord(|u|);
    TwoMono(64 * |u|, pos);
    DivModUnique(Val(u), Two(pos), 0, Val(u));
  }

  /** Entries the carry loop does not write are zero and stay zero. */
  ghost predicate CarryTail(c: seq<limb>, d: nat) {
    forall t :: 0 <= t < |c| && d + 64 * t >= 64 * |c| ==> c[t] == 0
  }

  /** The carry loop: drop the d bits just written. */
  method ShiftCarry(c0: seq<limb>, u: seq<limb>, d: nat) returns (c: seq<limb>)
    requires 1 <= d && (d - 1) / 64 < |u| && |c0| == |u| && CarryTail(c0, d)
    ensures |c| == |u| && CarryTail(c, d) && Val(c) == Val(u) / Two(d)
  {
    hide Val, Two, Pow, GetBits, Shr, Shl;
    var nLimb1, shift := (d - 1) / 64, d % 64;
    var nb := |u|;
    c := c0;
    if shift == 0 {
      var j := nLimb1 + 1;
      while j < nb
        invariant nLimb1 + 1 <= j <= nb && |c| == nb && CarryTail(c, d)
        invariant forall t :: 0 <= t < j - (nLimb1 + 1) ==> c[t] == GetBits(u, d + 64 * t)
      {
        BitsWhole(u, j);
        assert d + 64 * (j - (nLimb1 + 1)) == 64 * j;
        c := c[j - (nLimb1 + 1) := u[j]];
        j := j + 1;
      }
    } else {
      var j := nLimb1;
      while j < nb - 1
        invariant nLimb1 <= j <= nb - 1 && |c| == nb && CarryTail(c, d)
        invariant forall t :: 0 <= t < j - nLimb1 ==> c[t] == GetBits(u, d + 64 * t)
      {
        BitsShifted(u, j, shift);
        assert d + 64 * (j - nLimb1) == 64 * j + shift;
        JoinFits(u[j], u[j + 1], shift);
        c := c[j - nLimb1 := Join(Shr(u[j], shift), Shl(u[j + 1], 64 - shift), 64 - shift)];
        j := j + 1;
      }
      BitsTop(u, shift);
      assert d + 64 * (nb - 1 - nLimb1) == 64 * (nb - 1) + shift;
      c := c[nb - 1 - nLimb1 := Shr(u[nb - 1], shift)];
    }
    forall t | 0 <= t < nb ensures c[t] == GetBits(u, d + 64 * t) {
      if d + 64 * t >= 64 * nb { BitsBeyond(u, d + 64 * t); }
    }
    CarryValue(c, u, d);
  }

  // ----- the main loop -----

  /** Cell i of row j of the coefficient buffer. */
  ghost predicate CoefCell(buf: seq<limb>, L: nat, o: nat, C: seq<int>, j: nat, i: nat) {
    && 0 <= j * L + i < |buf| && i < |C| && o + j < NB_MODS
    && buf[j * L + i] < 2 * MODS[o + j] && Cong(buf[j * L + i], C[i], MODS[o + j])
  }

  /** Row j of the buffer holds C modulo modulus o + j, up to one extra modulus. */
  ghost predicate CoefRow(buf: seq<limb>, L: nat, o: nat, C: seq<int>, j: nat) {
    forall i :: 0 <= i < L ==> CoefCell(buf, L, o, C, j, i)
  }

  ghost predicate InRange(C: seq<int>, p: int) {
    forall i :: 0 <= i < |C| ==> 0 <= C[i] < p
  }

  ghost predicate CoefRows(buf: seq<limb>, L: nat, o: nat, C: seq<int>) {
    |C| == L && o <= NB_MODS && forall j :: 0 <= j < NB_MODS - o ==> CoefRow(buf, L, o, C, j)
  }

  lemma ReduceOnce(a: limb, C: int, k: nat)
    requires k < NB_MODS && a < 2 * MODS[k] && Cong(a, C, MODS[k])
    ensures var r := if a >= MODS[k] then a - MODS[k] else a; 0 <= r < MODS[k] && Cong(r, C, MODS[k])
  {
    CongMinus(a, C, MODS[k]);
  }

  /** ntt_limb_to_int for the residues of coefficient i. */
  method ReadResidues(buf: array<limb>, L: nat, i: nat, o: nat, ghost C: seq<int>) returns (y: seq<limb>)
    requires o <= NB_MODS && i < L && CoefRows(buf[..], L, o, C)
    ensures Residues(y, o, C[i])
  {
    hide Cong;
    y := [];
    var j := 0;
    while j < NB_MODS - o
      invariant 0 <= j <= NB_MODS - o && |y| == j
      invariant forall k :: 0 <= k < j ==> ResAt(y, o, k, C[i])
    {
      assert CoefRow(buf[..], L, o, C, j);
      assert CoefCell(buf[..], L, o, C, j, i);
      var a := buf[j * L + i];
      ReduceOnce(a, C[i], o + j);
      ghost var before := y;
      y := y + [if a >= MODS[o + j] then a - MODS[o + j] else a];
      forall k | 0 <= k < j ensures ResAt(y, o, k, C[i]) { assert ResAt(before, o, k, C[i]); }
      j := j + 1;
    }
  }

  /** The product of three to five moduli leaves room for the carry. */
  lemma ProdRoom(o: nat)
    requires o <= 2
    ensures 2 * ProdFrom(o) <= Pow(B, NB_MODS - o) && ProdFrom(o) > 0
  {
    PowNextB(0); PowNextB(1); PowNextB(2); PowNextB(3); PowNextB(4);
    PowZero(B);
  }

  /** The running state: S is the sum of the coefficients handled so far, weighted by powers of X. */
  ghost predicate CarryInv(tabVal: int, carryVal: int, S: int, P: int, n: int, bound: int)
    requires P > 0 && n > 0
  {
    carryVal == S / P && tabVal == (S % P) % n && 0 <= carryVal < bound
  }

  lemma CarryStep(S: int, P: int, X: int, n: int, c: int, carry: int, bound: int)
    requires P > 0 && X >= 2 && n > 0 && carry == S / P && 0 <= carry < bound && 0 <= c < bound
    ensures P * X > 0
    ensures (S + c * P) / (P * X) == (carry + c) / X && 0 <= (carry + c) / X < bound
    ensures ((S + c * P) % (P * X)) % n == ((S % P) % n + P * ((carry + c) % X)) % n
  {
    var D := S % P;
    DivSteps(S, P);
    CarrySum(S, P, c, carry, D);
    DivModUnique(S + c * P, P, carry + c, D);
    DivDiv(S + c * P, P, X);
    ModSplit(S + c * P, P, X);
    AddMod2(D, P * ((carry + c) % X), n);
    DivNonNeg(carry + c, X);
    HalfBelow(carry + c, X, bound);
  }

  lemma CarrySum(S: int, P: int, c: int, carry: int, D: int)
    requires S == P * carry + D
    ensures S + c * P == P * (carry + c) + D
  {}

  lemma HalfBelow(v: int, X: int, b: int)
    requires 0 <= v < 2 * b && X >= 2
    ensures v / X < b
  {
    MulLe(2, X, b);
    DivLess(v, X, b);
  }

  /** Terms from index i on are multiples of X^i. */
  lemma {:induction false} EvalTail(C: seq<int>, X: int, i: nat, k: nat)
    requires X > 0 && i <= k <= |C|
    ensures Pow(X, i) > 0 && EvalTo(C, X, k) % Pow(X, i) == EvalTo(C, X, i) % Pow(X, i)
    decreases k
  {
    hide Sum, DftTerm, Mul;
    PowPos(X, i);
    if k > i {
      EvalTail(C, X, i, k - 1);
      EvalStep(C, X, k - 1);
      PowAdd(X, i, k - 1 - i);
      TailTerm(C[k - 1], Pow(X, i), Pow(X, k - 1 - i), Pow(X, k - 1));
      ModShift(EvalTo(C, X, k - 1), Pow(X, i), C[k - 1] * Pow(X, k - 1 - i));
    }
  }

  lemma TailTerm(c: int, p: int, q: int, r: int)
    requires r == p * q
    ensures Mul(c, r) == p * (c * q)
  {
    assert c * (p * q) == p * (c * q);
  }

  /** Reducing modulo X^len and then modulo B^r is reducing modulo B^r, when X^len covers r limbs. */
  lemma FinalMod(S: int, d: nat, len: nat, r: nat)
    requires d >= 1 && r * 64 <= d * len
    ensures Pow(Two(d), len) > 0 && Pow(B, r) > 0
    ensures (S % Pow(Two(d), len)) % Pow(B, r) == S % Pow(B, r)
  {
    hide Two, Pow;
    PowPos(B, r);
    PowWord(r);
    TwoPow(d, len);
    TwoAdd(64 * r, d * len - 64 * r);
    ModMod(S, Two(64 * r), Two(d * len - 64 * r));
  }

  lemma TwoPow(d: nat, i: nat)
    ensures 0 <= d * i && Pow(Two(d), i) == Two(d * i)
  {
    PowPow(2, d, i);
  }

  lemma TwoAtLeast2(d: nat)
    requires d >= 1
    ensures Two(d) >= 2
  {
    TwoMono(1, d);
    TwoSmall();
  }

  /** The carry loop of ntt_to_limb: coefficients in, limbs out, modulo B^rLen. */
  method NttToLimb(rLen: nat, buf: array<limb>, L: nat, d: nat, nbMods: nat, crInv: seq<limb>, ghost C: seq<int>)
    returns (tab: array<limb>)
    requires 3 <= nbMods <= NB_MODS && 1 <= d <= 153 && CrTable(crInv) && rLen * 64 <= d * L
    requires CoefRows(buf[..], L, NB_MODS - nbMods, C)
    requires InRange(C, ProdFrom(NB_MODS - nbMods))
    ensures fresh(tab) && tab.Length == rLen
    ensures Pow(B, rLen) > 0 && Val(tab[..]) == Eval(C, Two(d)) % Pow(B, rLen)
  {
    hide Val, Two, Pow, Sum, DftTerm, Mul, Cong, CrTable, CoefRows, ProdFrom, Chain, EvalTo, Residues;
    var o := NB_MODS - nbMods;
    ghost var X, n, bound := Two(d), Pow(B, rLen), ProdFrom(o);
    PowPos(B, rLen);
    ProdRoom(o);
    TwoAtLeast2(d);
    tab := new limb[rLen](_ => 0);
    var carry: seq<limb> := seq(nbMods, i => 0);
    ValZeros(tab[..]);
    ValZeros(carry);
    DigitCountRange(rLen, d, L);
    var len := DigitCount(rLen, d);
    EvalZero(C, X);
    PowZero(X);
    CarryStart(n, bound);
    assert CoefLength(C, L) by { CoefLen(buf[..], L, o, C); }
    var i := 0;
    while i < len
      invariant 0 <= i <= len && tab.Length == rLen && |carry| == nbMods
      invariant Pow(X, i) > 0 && CarryInv(Val(tab[..]), Val(carry), EvalTo(C, X, i), Pow(X, i), n, bound)
      invariant CarryTail(carry, d)
      invariant buf[..] == old(buf[..])
    {
      var y := ReadResidues(buf, L, i, o, C);
      ResLen(y, o, C[i]);
      ghost var R;
      y, R := MixedRadix(y, o, crInv, C[i]);
      var u := Recompose(y, o, carry, R);
      ghost var P, S, D, V := Pow(X, i), EvalTo(C, X, i), Val(carry), Val(tab[..]);
      PosIs(d, i);
      CarryBelow(S, P, n);
      CarryStep(S, P, X, n, C[i], D, bound);
      EvalStep(C, X, i);
      MulIs(C[i], P);
      PowLast(X, i);
      WriteDigit(tab, i * d, u, d);
      carry := ShiftCarry(carry, u, d);
      i := i + 1;
    }
    DigitCountIs(rLen, d);
    EvalTail(C, X, len, L);
    EvalWhole(C, X);
    FinalMod(EvalTo(C, X, len), d, len, rLen);
    FinalMod(EvalTo(C, X, L), d, len, rLen);
  }

  lemma EvalWhole(C: seq<int>, X: int)
    ensures Eval(C, X) == EvalTo(C, X, |C|)
  {}

  ghost predicate CoefLength(C: seq<int>, L: nat) { |C| == L }

  lemma CoefLen(buf: seq<limb>, L: nat, o: nat, C: seq<int>)
    requires CoefRows(buf, L, o, C)
    ensures |C| == L
  {}

  lemma ResLen(y: seq<limb>, o: nat, C: int)
    requires Residues(y, o, C)
    ensures o + |y| == NB_MODS
  {}

  lemma PosIs(d: nat, i: nat)
    ensures 0 <= i * d && Two(i * d) == Pow(Two(d), i)
  {
    TwoPow(d, i);
    assert i * d == d * i;
  }

  lemma CarryStart(n: int, bound: int)
    requires n > 0 && bound > 0
    ensures CarryInv(0, 0, 0, 1, n, bound)
  {
    DivModUnique(0, n, 0, 0);
  }

  lemma CarryBelow(S: int, P: int, n: int)
    requires P > 0 && n > 0
    ensures (S % P) % n < P
  {
    ModSmall(S % P, n);
  }

  lemma DigitCountRange(r: nat, d: nat, L: nat)
    requires d >= 1 && r * 64 <= d * L
    ensures 0 <= DigitCount(r, d) <= L
  {
    DivNonNeg(r * 64 + d - 1, d);
    assert d * (L + 1) == d * L + d;
    DivLess(r * 64 + d - 1, d, L + 1);
  }
}
