/** The second half of ntt_to_limb: from mixed radix digits to limbs, digit fields and carries. */
module NttCarry {
  import opened Arith
  import opened Word
  import opened Limbs
  import opened Bits
  import opened Digits
  import opened LimbNtt
  import opened NttMods
  import opened NttLimb

  const P62: int := 0x4000_0000_0000_0000

  // ----- u = u * m + y + carry over several words -----

  lemma MulAddStep(v: int, r: int, p: int, a: int, m: int, y: int, c: int, x: int, k: int, lo: int, hi: int)
    requires v + r * p == a * m + y + c && x * m + r + k == hi * B + lo
    ensures (v + lo * p) + hi * (B * p) == (a + x * p) * m + y + (c + k * p)
  {
    assert (x * m + r + k) * p == (x * m) * p + r * p + k * p;
    assert (hi * B + lo) * p == (hi * B) * p + lo * p;
    assert (x * m) * p == (x * p) * m;
    assert (hi * B) * p == hi * (B * p);
    assert (a + x * p) * m == a * m + (x * p) * m;
  }

  lemma WordFits(x: limb, m: limb, r: int, k: limb)
    requires m < P62 && 0 <= r < B
    ensures 0 <= x * m + r + k < B * P62 + 2 * B
    ensures 0 <= (x * m + r + k) / B < B
  {
    MulNonNeg(x, m);
    MulLe(x, B, m);
    MulLe(m, P62, B);
  }

  method MulAddCarry(u: seq<limb>, m: limb, y: limb, carry: seq<limb>) returns (v: seq<limb>)
    requires m < P62 && |carry| == |u| + 1
    requires Val(u) * m + y + Val(carry) < Pow(B, |u| + 1)
    ensures |v| == |u| + 1 && Val(v) == Val(u) * m + y + Val(carry)
  {
    hide Val, Pow;
    v := [];
    var r: limb := y;
    var k := 0;
    ValZeros([]);
    PowZero(B);
    assert u[..0] == [] && carry[..0] == [];
    while k < |u|
      invariant 0 <= k <= |u| && |v| == k
      invariant Val(v) + r * Pow(B, k) == Val(u[..k]) * m + y + Val(carry[..k])
    {
      WordFits(u[k], m, r, carry[k]);
      var t := u[k] as int * m as int + r as int + carry[k] as int;
      var lo: limb, hi: limb := t % B, t / B;
      ValNext(u, k);
      ValNext(carry, k);
      ValSnoc(v, lo);
      MulAddStep(Val(v), r, Pow(B, k), Val(u[..k]), m, y, Val(carry[..k]), u[k], carry[k], lo, hi);
      PowNextB(k);
      v := v + [lo];
      r := hi;
      k := k + 1;
    }
    assert u[..k] == u;
    ValNext(carry, k);
    assert carry[..k + 1] == carry;
    PowNextB(k);
    TopFits(Val(v), r, carry[k], Pow(B, k), Val(u) * m + y + Val(carry));
    var top: limb := r as int + carry[k] as int;
    ValSnoc(v, top);
    v := v + [top];
  }

  lemma TopFits(v: int, r: int, c: int, p: int, total: int)
    requires v >= 0 && p > 0 && v + r * p + c * p == total < B * p
    ensures r + c < B && v + (r + c) * p == total
  {
    assert (r + c) * p == r * p + c * p;
    if r + c >= B { MulLe(B, r + c, p); }
  }

  /** Back to normal representation, adding the incoming carry last. */
  method Recompose(y: seq<limb>, o: nat, carry: seq<limb>, ghost R: seq<int>) returns (u: seq<limb>)
    requires Chain(R, y, o) && |y| >= 2 && |carry| == |y| && R[0] + Val(carry) < Pow(B, |y|)
    ensures |u| == |y| && Val(u) == R[0] + Val(carry)
  {
    hide Val, Pow;
    var j := |y| - 2;
    u := [y[|y| - 1]];
    ValOne(y[|y| - 1]);
    while j > 0
      invariant 0 <= j <= |y| - 2 && |u| == |y| - 1 - j && Val(u) == R[j + 1]
    {
      assert ChainAt(R, y, o, j);
      ModAt(o + j);
      var zeros: seq<limb> := seq(|u| + 1, i => 0);
      ValZeros(zeros);
      HornerFits(u, MODS[o + j], y[j]);
      MulSides(MODS[o + j], R[j + 1]);
      u := MulAddCarry(u, MODS[o + j], y[j], zeros);
      j := j - 1;
    }
    assert ChainAt(R, y, o, 0);
    ModAt(o);
    MulSides(MODS[o], R[1]);
    u := MulAddCarry(u, MODS[o], y[0], carry);
  }

  lemma HornerFits(u: seq<limb>, m: limb, y: limb)
    requires m < P62
    ensures Val(u) * m + y < Pow(B, |u| + 1)
  {
    hide Val;
    ValBound(u);
    PowNextB(|u|);
    var p := Pow(B, |u|);
    MulLe(Val(u) + 1, p, m);
    assert (Val(u) + 1) * m == Val(u) * m + m;
    MulLe(m, P62, p);
    if m == 0 {
    } else {
      PowPos(B, |u|);
      HornerRoom(p, |u|, m, Val(u), y);
    }
  }

  lemma HornerRoom(p: int, n: nat, m: limb, v: int, y: limb)
    requires p == Pow(B, n) >= 1 && m < P62 && v * m + m <= p * m && p * m <= p * P62 && 0 <= v
    ensures v * m + y < B * p
  {
    MulLe(1, p, B - P62);
    assert p * P62 + (B - P62) * p == B * p;
  }

  // ----- put_bits -----

  /** A number below 2^(64 i + p) has no bit at or above position p of limb i. */
  lemma HighBitsZero(s: seq<limb>, i: nat, p: nat)
    requires i < |s| && p <= 64 && Val(s) < Two(64 * i + p)
    ensures s[i] < Two(p)
    ensures forall t :: i < t < |s| ==> s[t] == 0
  {
    hide Val, Pow, Two;
    PowWord(i);
    TwoAdd(64 * i, p);
    HighIs(s, i);
    DivLess(Val(s), Two(64 * i), Two(p));
    HighStep(s, i);
    HighNonNeg(s, i + 1);
    TwoWord();
    TwoMono(p, 64);
    assert High(s, i + 1) == 0;
    HighZero(s, i + 1);
  }

  lemma HighNonNeg(s: seq<limb>, i: nat)
    ensures High(s, i) >= 0
  {}

  lemma {:induction false} HighZero(s: seq<limb>, i: nat)
    requires High(s, i) == 0
    ensures forall t :: i <= t < |s| ==> s[t] == 0
    decreases |s| - i
  {
    if i < |s| {
      HighStep(s, i);
      HighNonNeg(s, i + 1);
      HighZero(s, i + 1);
    }
  }

  lemma ShiftParts(v: limb, p: nat)
    requires 0 < p < 64
    ensures v * Two(p) == Shl(v, p) + B * Shr(v, 64 - p)
    ensures Shl(v, p) % Two(p) == 0 && Shl(v, p) <= B - Two(p)
  {
    hide Two;
    TwoWord();
    TwoAdd(64 - p, p);
    ShlExact(v, p);
    DivSteps(v, Two(64 - p));
    ShrIs(v, 64 - p);
    ShlCore(v, Two(p), Two(64 - p), v / Two(64 - p), v % Two(64 - p));
  }

  lemma ModUnchanged(v: int, n: int, k: int)
    requires 0 <= v < n
    ensures (v + n * k) % n == v
  {
    DivModUnique(v + n * k, n, k, v);
  }

  /** Outside the array nothing is written and nothing is lost modulo B^len. */
  lemma PutOutside(s: seq<limb>, i: nat, p: nat, v: limb)
    requires i >= |s|
    ensures Pow(B, |s|) > 0 && Val(s) == (Val(s) + v * Two(64 * i + p)) % Pow(B, |s|)
  {
    hide Val, Pow, Two;
    PowPos(B, |s|);
    ValBound(s);
    PowWord(i);
    TwoAdd(64 * i, p);
    PowAdd(B, |s|, i - |s|);
    var n, e, q := Pow(B, |s|), Pow(B, i - |s|), Two(p);
    Assoc4(v, n, e, q);
    ModUnchanged(Val(s), n, v * (e * q));
  }

  /** One limb written: bits falling off the top of the last limb are dropped. */
  lemma PutOne(s: seq<limb>, i: nat, p: nat, v: limb)
    requires i < |s| && p < 64 && s[i] + Shl(v, p) < B && (p == 0 || i + 1 == |s|)
    ensures Pow(B, |s|) > 0 && Val(s[i := s[i] + Shl(v, p)]) == (Val(s) + v * Two(64 * i + p)) % Pow(B, |s|)
  {
    hide Val, Pow, Two, Shl, Shr;
    PowPos(B, |s|);
    var s1 := s[i := s[i] + Shl(v, p)];
    ValBound(s1);
    ValUpdate(s, i, s[i] + Shl(v, p));
    PowWord(i);
    TwoAdd(64 * i, p);
    var P, n := Pow(B, i), Pow(B, |s|);
    if p == 0 {
      TwoSmall();
      ShlZero(v);
      ModUnchanged(Val(s1), n, 0);
    } else {
      ShiftParts(v, p);
      PutAlgebra(v, P, Two(p), Shl(v, p), Shr(v, 64 - p));
      PowNextB(i);
      ModUnchanged(Val(s1), n, Shr(v, 64 - p));
    }
  }

  /** Two limbs written: nothing is lost. */
  lemma PutTwo(s: seq<limb>, i: nat, p: nat, v: limb)
    requires i + 1 < |s| && 0 < p < 64 && s[i] + Shl(v, p) < B && s[i + 1] == 0
    ensures Pow(B, |s|) > 0
    ensures Val(s[i := s[i] + Shl(v, p)][i + 1 := Shr(v, 64 - p)]) == (Val(s) + v * Two(64 * i + p)) % Pow(B, |s|)
  {
    hide Val, Pow, Two, Shl, Shr;
    PowPos(B, |s|);
    var mid := s[i := s[i] + Shl(v, p)];
    var s1 := mid[i + 1 := Shr(v, 64 - p)];
    ValBound(s1);
    ValUpdate(s, i, s[i] + Shl(v, p));
    ValUpdate(mid, i + 1, Shr(v, 64 - p));
    PowWord(i);
    TwoAdd(64 * i, p);
    ShiftParts(v, p);
    PutAlgebra(v, Pow(B, i), Two(p), Shl(v, p), Shr(v, 64 - p));
    PowNextB(i);
    ModUnchanged(Val(s1), Pow(B, |s|), 0);
  }

  lemma Assoc4(v: int, n: int, e: int, q: int)
    ensures v * ((n * e) * q) == n * (v * (e * q))
  {}

  lemma ShlZero(v: limb)
    ensures Shl(v, 0) == v
  {}

  lemma PutAlgebra(v: int, P: int, c: int, lo: int, hi: int)
    requires v * c == lo + B * hi
    ensures v * (P * c) == lo * P + hi * (B * P)
    ensures v * (P * c) == lo * P + (B * P) * hi
  {
    assert v * (P * c) == (v * c) * P;
    assert (lo + B * hi) * P == lo * P + (B * hi) * P;
    assert (B * hi) * P == hi * (B * P);
  }

  lemma PutFits(a: limb, v: limb, p: nat)
    requires p < 64 && a < Two(p)
    ensures Shl(v, p) % Two(p) == 0 && a + Shl(v, p) < B
  {
    ShlExact(v, p);
  }

  /** put_bits: or the limb v into tab at bit position pos, dropping what falls outside. */
  method PutBits(tab: array<limb>, pos: nat, v: limb)
    requires Val(tab[..]) < Two(pos)
    modifies tab
    ensures Pow(B, tab.Length) > 0
    ensures Val(tab[..]) == (old(Val(tab[..])) + v * Two(pos)) % Pow(B, tab.Length)
  {
    hide Val, Pow, Two, Shl, Shr;
    var i, p := pos / 64, pos % 64;
    assert pos == 64 * i + p;
    ghost var s := tab[..];
    if i < tab.Length {
      HighBitsZero(s, i, p);
      PutFits(s[i], v, p);
      assert tab[i] == s[i];
      tab[i] := Join(tab[i], Shl(v, p), p);
      if p == 0 || i + 1 == tab.Length { PutOne(s, i, p, v); } else { PutTwo(s, i, p, v); }
    } else {
      PutOutside(s, i, p, v);
    }
    if p != 0 {
      if i + 1 < tab.Length {
        OrZero(Shr(v, 64 - p));
        assert tab[i + 1] == s[i + 1] == 0;
        tab[i + 1] := Join(tab[i + 1], Shr(v, 64 - p), 0);
        assert tab[..] == s[i := s[i] + Shl(v, p)][i + 1 := Shr(v, 64 - p)];
      }
    }
  }

  lemma OrZero(v: int)
    ensures Two(0) == 1 && v % Two(0) == 0
  {
    TwoSmall();
    DivModUnique(v, 1, v, 0);
  }
}
