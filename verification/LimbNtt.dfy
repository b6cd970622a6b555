/** limb_to_ntt: the digits of a number, reduced modulo each of the chosen moduli. */
module LimbNtt {
  import opened Arith
  import opened Word
  import opened Limbs
  import opened Bits
  import opened ModMul
  import opened Fourier
  import opened Digits
  import opened NttState

  const H63: int := 0x8000_0000_0000_0000

  lemma ModMod(x: int, y: int, z: int)
    requires y > 0 && z > 0
    ensures y * z > 0 && (x % (y * z)) % y == x % y
  {
    ModSplit(x, y, z);
    var d := (x / y) % z;
    DivModUnique(x % (y * z), y, d, x % y);
  }

  /** The limb-sized fields of W that limb_to_ntt reads. */
  lemma Fields(tab: seq<limb>, pos: nat, W: int)
    requires W == Val(tab) / Two(pos)
    ensures GetBits(tab, pos) == W % B
    ensures GetBits(tab, pos + 64) == (W / B) % B
    ensures GetBits(tab, pos + 128) == ((W / B) / B) % B
  {
    hide Val, Two, GetBits;
    TwoWord();
    GetBitsExact(tab, pos);
    GetBitsExact(tab, pos + 64);
    GetBitsExact(tab, pos + 128);
    TwoAdd(pos, 64);
    TwoAdd(pos + 64, 64);
    DivDiv(Val(tab), Two(pos), Two(64));
    DivDiv(Val(tab), Two(pos + 64), Two(64));
  }

  /** A field of width d assembled from limb-sized fields. */
  lemma FieldValue(W: int, d: nat)
    requires 1 <= d < 192
    ensures d <= 64 ==> W % Two(d) == (W % B) % Two(d)
    ensures 64 <= d <= 128 ==> W % Two(d) == W % B + B * (((W / B) % B) % Two(d - 64))
    ensures 128 <= d ==> W % Two(d) == W % B + B * ((W / B) % B + B * ((((W / B) / B) % B) % Two(d - 128)))
  {
    hide Two;
    TwoWord();
    if d <= 64 {
      TwoAdd(d, 64 - d);
      ModMod(W, Two(d), Two(64 - d));
    }
    if 64 <= d <= 128 {
      TwoAdd(64, d - 64);
      ModSplit(W, B, Two(d - 64));
      TwoAdd(d - 64, 128 - d);
      ModMod(W / B, Two(d - 64), Two(128 - d));
    }
    if 128 <= d {
      TwoAdd(64, d - 64);
      TwoAdd(64, d - 128);
      ModSplit(W, B, Two(d - 64));
      ModSplit(W / B, B, Two(d - 128));
      TwoAdd(d - 128, 192 - d);
      ModMod((W / B) / B, Two(d - 128), Two(192 - d));
    }
  }

  /** The digit as the code holds it: whole up to 125 bits, else split at bit 63. */
  ghost predicate Holds(D: int, d: nat, a: int, a0: int) {
    && 0 <= a < P125
    && if d <= 125 then D == a else 0 <= a0 < H63 && D == H63 * a + a0
  }

  function MaskBits(d: nat): nat { if d % 64 == 0 then 64 else d % 64 }

  lemma HoldsNarrow(W: int, d: nat, f0: limb, a0: limb)
    requires 1 <= d <= 64 && f0 == W % B
    ensures 0 <= LowBits(f0, MaskBits(d)) < B
    ensures Holds(W % Two(d), d, LowBits(f0, MaskBits(d)), a0)
  {
    hide Two, LowBits;
    FieldValue(W, d);
    assert MaskBits(d) == d;
    LowIs(f0, d);
    LowFits(f0, d);
  }

  lemma HoldsMiddle(W: int, d: nat, f0: limb, f1: limb, a0: limb)
    requires 64 < d <= 125 && f0 == W % B && f1 == (W / B) % B
    ensures 0 <= f0 + B * LowBits(f1, MaskBits(d)) < P125
    ensures Holds(W % Two(d), d, f0 + B * LowBits(f1, MaskBits(d)), a0)
  {
    hide Two, LowBits;
    TwoWord();
    MaskIs(d);
    LowIs(f1, d - 64);
    FieldValue(W, d);
    MidFits(f1, d - 64, 61);
    MiddleCore(W % Two(d), d, f0, LowBits(f1, d - 64), a0);
  }

  lemma MiddleCore(D: int, d: nat, f0: limb, g: int, a0: limb)
    requires d <= 125 && 0 <= g < 0x2000_0000_0000_0000 && D == f0 + B * g
    ensures 0 <= f0 + B * g < P125 && Holds(D, d, f0 + B * g, a0)
  {}

  lemma MaskIs(d: nat)
    ensures 64 < d < 128 ==> MaskBits(d) == d - 64
    ensures d == 128 ==> MaskBits(d) == 64
    ensures 128 < d < 192 ==> MaskBits(d) == d - 128
  {}

  lemma LowIs(f: int, n: nat)
    ensures LowBits(f, n) == f % Two(n)
  {}

  lemma WideCore(D: int, d: nat, f0: limb, f1: limb, f2: limb)
    requires d > 125 && f2 < 0x1000_0000_0000_0000 && D == f0 + B * (f1 + B * f2)
    ensures Holds(D, d, f0 / H63 + 2 * f1 + 2 * B * f2, f0 % H63)
  {}

  lemma HoldsWide(W: int, d: nat, f0: limb, f1: limb, f2: limb)
    requires 125 < d <= 188 && f0 == W % B && f1 == (W / B) % B && f2 == ((W / B) / B) % B
    ensures var g1 := if d > 128 then f1 else LowBits(f1, MaskBits(d));
      var g2 := if d > 128 then LowBits(f2, MaskBits(d)) else 0;
      0 <= g1 < B && 0 <= g2 < B && Holds(W % Two(d), d, f0 / H63 + 2 * g1 + 2 * B * g2, f0 % H63)
  {
    hide Two, LowBits, Holds;
    TwoWord();
    TwoNarrow();
    MaskIs(d);
    FieldValue(W, d);
    if d > 128 {
      LowIs(f2, d - 128);
      MidFits(f2, d - 128, 60);
      WideCore(W % Two(d), d, f0, f1, LowBits(f2, d - 128));
    } else {
      LowIs(f1, d - 64);
      MidFits(f1, d - 64, 64);
      WideCore(W % Two(d), d, f0, LowBits(f1, d - 64), 0);
    }
  }

  method ReadDigit(tab: seq<limb>, pos: nat, d: nat) returns (a: dlimb, a0: limb)
    requires 1 <= d <= 188
    ensures Holds((Val(tab) / Two(pos)) % Two(d), d, a, a0)
  {
    hide Val, Two, GetBits, Holds, LowBits, MaskBits;
    ghost var W := Val(tab) / Two(pos);
    Fields(tab, pos, W);
    a0 := GetBits(tab, pos);
    var bits := MaskBits(d);
    if d <= 64 {
      HoldsNarrow(W, d, a0, 0);
      HoldsNarrow(W, d, a0, LowBits(a0, bits));
      var low := LowBits(a0, bits);
      a, a0 := low, low;
    } else {
      var a1 := GetBits(tab, pos + 64);
      if d <= 125 {
        HoldsMiddle(W, d, a0, a1, a0);
        a := a0 + B * LowBits(a1, bits);
      } else {
        HoldsWide(W, d, a0, a1, GetBits(tab, pos + 128));
        var a2: limb := 0;
        if d > 128 {
          a2 := LowBits(GetBits(tab, pos + 128), bits);
        } else {
          a1 := LowBits(a1, bits);
        }
        HoldsFits((Val(tab) / Two(pos)) % Two(d), d, a0 / H63 + 2 * a1 + 2 * B * a2, a0 % H63);
        a := a0 / H63 + 2 * a1 + 2 * B * a2;
        a0 := a0 % H63;
      }
    }
  }

  lemma HoldsFits(D: int, d: nat, a: int, a0: int)
    requires Holds(D, d, a, a0)
    ensures 0 <= a < BB
  {}

  lemma TwoNarrow()
    ensures Two(60) == 0x1000_0000_0000_0000
  {
    TwoWord();
    TwoAdd(60, 1);
    TwoSmall();
  }

  lemma LowFits(v: limb, n: nat)
    requires n <= 64
    ensures 0 <= LowBits(v, n) < B && 0 <= LowBits(v, n) < Two(n)
  {
    TwoWord();
    TwoMono(n, 64);
  }

  lemma MidFits(v: limb, n: nat, k: nat)
    requires n <= k
    ensures 0 <= LowBits(v, n) < Two(k)
  {
    TwoMono(n, k);
  }

  /** The residue of a digit, in one or two reductions. */
  function Residue(a: dlimb, a0: limb, d: nat, m: limb, inv: limb): (r: limb)
    requires Modulus(m) && inv == InitModFast(m) && a < P125 && (d > 125 ==> a0 < H63)
    ensures r < m && Cong(r, if d <= 125 then a else H63 * a + a0, m)
  {
    var r := ModFast(a, m, inv);
    if d <= 125 then r
    else
      var b := H63 * r + a0;
      ResidueCong(r, a, a0, ModFast(b, m, inv), m);
      ModFast(b, m, inv)
  }

  lemma ResidueCong(r: int, a: int, a0: int, s: int, m: int)
    requires m > 0 && Cong(r, a, m) && Cong(s, H63 * r + a0, m)
    ensures Cong(s, H63 * a + a0, m)
  {
    hide Cong;
    CongScale(r, a, H63, m);
    CongRefl(a0, m);
    CongAdd(H63 * r, H63 * a, a0, a0, m);
    CongTrans(s, H63 * r + a0, H63 * a + a0, m);
  }

  // ----- the fill loop -----

  /** Cell i of row j holds digit i modulo the modulus of row j. */
  ghost predicate ResCell(buf: seq<limb>, L: nat, D: seq<int>, m: limb, j: nat, i: nat)
    requires m > 0
  {
    0 <= j * L + i < |buf| && i < |D| && buf[j * L + i] < m && Cong(buf[j * L + i], D[i], m)
  }

  ghost predicate ResRow(buf: seq<limb>, L: nat, D: seq<int>, m: limb, j: nat)
    requires m > 0
  {
    forall i :: 0 <= i < L ==> ResCell(buf, L, D, m, j, i)
  }

  /** Cells (i', j') before (i, j) in the order of the loops are done, and cells from column n on. */
  ghost predicate FillInv(buf: seq<limb>, L: nat, D: seq<int>, Ts: seq<Tables>, n: nat, i: nat, j: nat) {
    && (forall t :: 0 <= t < |Ts| ==> Modulus(Ts[t].m))
    && forall i', j' :: 0 <= i' < L && 0 <= j' < |Ts| && (i' < i || (i' == i && j' < j) || n <= i') ==>
      ResCell(buf, L, D, Ts[j'].m, j', i')
  }

  lemma FillStep(b0: seq<limb>, b1: seq<limb>, L: nat, D: seq<int>, Ts: seq<Tables>, n: nat, i: nat, j: nat, u: nat, v: limb)
    requires FillInv(b0, L, D, Ts, n, i, j) && i < n <= L && j < |Ts| && |D| == L
    requires u == j * L + i < |b0| && b1 == b0[u := v] && v < Ts[j].m && Cong(v, D[i], Ts[j].m)
    ensures FillInv(b1, L, D, Ts, n, i, j + 1)
  {
    hide Cong;
    forall i', j' | 0 <= i' < L && 0 <= j' < |Ts| && (i' < i || (i' == i && j' < j + 1) || n <= i')
      ensures ResCell(b1, L, D, Ts[j'].m, j', i')
    {
      if i' == i && j' == j {
      } else {
        assert ResCell(b0, L, D, Ts[j'].m, j', i');
        if j' * L + i' == u { CellsApart(j', i', j, i, L); }
      }
    }
  }

  lemma CellsApart(j: nat, i: nat, j': nat, i': nat, L: nat)
    requires i < L && i' < L && j * L + i == j' * L + i'
    ensures j == j' && i == i'
  {
    DivModUnique(j * L + i, L, j, i);
    DivModUnique(j' * L + i', L, j', i');
  }

  lemma FillNext(buf: seq<limb>, L: nat, D: seq<int>, Ts: seq<Tables>, n: nat, i: nat)
    requires FillInv(buf, L, D, Ts, n, i, |Ts|)
    ensures FillInv(buf, L, D, Ts, n, i + 1, 0)
  {
    forall i', j' | 0 <= i' < L && 0 <= j' < |Ts| && (i' < i + 1 || n <= i')
      ensures ResCell(buf, L, D, Ts[j'].m, j', i')
    {
      assert i' < i || (i' == i && j' < |Ts|) || n <= i';
    }
  }

  lemma FillStart(buf: seq<limb>, L: nat, D: seq<int>, Ts: seq<Tables>, n: nat)
    requires (forall t :: 0 <= t < |Ts| ==> Modulus(Ts[t].m)) && |buf| == Mul(|Ts|, L) && |D| == L
    requires forall u :: 0 <= u < |buf| ==> buf[u] == 0
    requires forall i :: n <= i < L ==> D[i] == 0
    ensures FillInv(buf, L, D, Ts, n, 0, 0)
  {
    forall i', j' | 0 <= i' < L && 0 <= j' < |Ts| && n <= i' ensures ResCell(buf, L, D, Ts[j'].m, j', i') {
      CellFits(j', i', |Ts|, L);
      CongRefl(0, Ts[j'].m);
    }
  }

  lemma CellFits(j: nat, i: nat, r: nat, L: nat)
    requires j < r && i < L
    ensures 0 <= j * L + i < Mul(r, L)
  {
    MulNonNeg(j, L);
    MulLe(j + 1, r, L);
  }

  lemma FillDone(buf: seq<limb>, L: nat, D: seq<int>, Ts: seq<Tables>, n: nat)
    requires FillInv(buf, L, D, Ts, n, n, 0)
    ensures forall t :: 0 <= t < |Ts| ==> Modulus(Ts[t].m) && ResRow(buf, L, D, Ts[t].m, t)
  {
    forall t | 0 <= t < |Ts| ensures ResRow(buf, L, D, Ts[t].m, t) {
      forall i | 0 <= i < L ensures ResCell(buf, L, D, Ts[t].m, t, i) {
        assert i < n || n <= i;
      }
    }
  }

  lemma DigitIs(V: int, d: nat, i: nat, pos: nat)
    requires pos == i * d
    ensures Digit(V, Two(d), i) == (V / Two(pos)) % Two(d)
  {
    PowPow(2, d, i);
    assert d * i == i * d;
  }

  /** limb_to_ntt: row j of the result holds the digits of taba modulo the modulus of row j. */
  method LimbToNtt(Ts: seq<Tables>, L: nat, taba: seq<limb>, d: nat) returns (buf: array<limb>)
    requires 1 <= d <= 188 && (forall t :: 0 <= t < |Ts| ==> Valid(Ts[t]))
    ensures fresh(buf) && buf.Length == Mul(|Ts|, L)
    ensures forall t :: 0 <= t < |Ts| ==> Modulus(Ts[t].m) && ResRow(buf[..], L, DigitsOf(Val(taba), Two(d), L), Ts[t].m, t)
  {
    hide Cong, Mul, Two, Val, Pow, Valid, FillInv, Holds, ResRow;
    MulNonNeg(|Ts|, L);
    ProductIs(|Ts|, L);
    forall t | 0 <= t < |Ts| ensures Modulus(Ts[t].m) && Ts[t].mInv == InitModFast(Ts[t].m) { ValidMod(Ts[t]); }
    ghost var D := DigitsOf(Val(taba), Two(d), L);
    buf := new limb[|Ts| * L](_ => 0);
    var n := if L <= (|taba| * 64 + d - 1) / d then L else (|taba| * 64 + d - 1) / d;
    CountNonNeg(|taba|, d);
    forall i | n <= i < L ensures D[i] == 0 { HighDigitZero(taba, d, i); }
    FillStart(buf[..], L, D, Ts, n);
    var i := 0;
    while i < n
      invariant 0 <= i <= n
      invariant FillInv(buf[..], L, D, Ts, n, i, 0)
    {
      PosNonNeg(i, d);
      var a, a0 := ReadDigit(taba, i * d, d);
      DigitIs(Val(taba), d, i, i * d);
      HoldsBounds(D[i], d, a, a0);
      var j := 0;
      while j < |Ts|
        invariant 0 <= j <= |Ts|
        invariant FillInv(buf[..], L, D, Ts, n, i, j)
      {
        CellFits(j, i, |Ts|, L);
        var r := Residue(a, a0, d, Ts[j].m, Ts[j].mInv);
        ghost var before := buf[..];
        buf[j * L + i] := r;
        FillStep(before, buf[..], L, D, Ts, n, i, j, j * L + i, r);
        j := j + 1;
      }
      FillNext(buf[..], L, D, Ts, n, i);
      i := i + 1;
    }
    FillDone(buf[..], L, D, Ts, n);
  }

  lemma ProductIs(r: nat, L: nat)
    ensures Mul(r, L) == r * L
  {}

  lemma ValidMod(T: Tables)
    requires Valid(T)
    ensures Modulus(T.m) && T.mInv == InitModFast(T.m)
  {}

  lemma CountNonNeg(len: nat, d: nat)
    requires d >= 1
    ensures 0 <= (len * 64 + d - 1) / d
  {
    DivNonNeg(len * 64 + d - 1, d);
  }

  lemma PosNonNeg(i: nat, d: nat)
    ensures 0 <= i * d
  {}

  lemma HoldsBounds(D: int, d: nat, a: int, a0: int)
    requires Holds(D, d, a, a0)
    ensures 0 <= a < P125 && (d > 125 ==> 0 <= a0 < H63) && D == if d <= 125 then a else H63 * a + a0
  {}

  /** A number of len limbs has no digit of width d from index ceil(64 len / d) on. */
  lemma HighDigitZero(tab: seq<limb>, d: nat, i: nat)
    requires d >= 1 && i >= (|tab| * 64 + d - 1) / d
    ensures Digit(Val(tab), Two(d), i) == 0
  {
    ValBound(tab);
    PowWord(|tab|);
    DivBounds(|tab| * 64 + d - 1, d);
    MulLe((|tab| * 64 + d - 1) / d, i, d);
    PowPow(2, d, i);
    TwoMono(64 * |tab|, d * i);
    DigitZero(Val(tab), Two(d), i, i);
  }
}
