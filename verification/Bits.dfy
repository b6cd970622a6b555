/** Bit fields of limb arrays: get_bits and the shifts and masks around it, as arithmetic. */
module Bits {
  import opened Arith
  import opened Word
  import opened Limbs

  function Two(e: int): (r: int)
    ensures r > 0
  {
    PowPos(2, e);
    Pow(2, e)
  }

  lemma TwoAdd(d: nat, e: nat)
    ensures Two(d + e) == Two(d) * Two(e)
  {
    PowAdd(2, d, e);
  }

  lemma TwoSmall()
    ensures Two(0) == 1 && Two(1) == 2 && Two(4) == 16 && Two(8) == 256
  {
    assert Pow(2, 4) == 16;
    TwoAdd(4, 4);
  }

  lemma TwoWord()
    ensures Two(16) == 0x1_0000 && Two(32) == 0x1_0000_0000 && Two(64) == B
    ensures Two(63) == HALF && Two(61) == 0x2000_0000_0000_0000 && Two(62) == 0x4000_0000_0000_0000
  {
    TwoSmall();
    TwoAdd(8, 8);
    TwoAdd(16, 16);
    TwoAdd(32, 32);
    TwoAdd(63, 1);
    TwoAdd(62, 1);
    TwoAdd(61, 1);
  }

  lemma PowWord(i: nat)
    ensures Pow(B, i) == Two(64 * i)
  {
    TwoWord();
    PowPow(2, 64, i);
  }

  lemma TwoDigits(x: int, y: int, z: int, q: int, r: int, s: int, t: int)
    requires x == y * q + r && 0 <= r < y && q == z * s + t && 0 <= t < z
    ensures x == (y * z) * s + (y * t + r) && 0 <= y * t + r < y * z
  {
    assert y * (z * s + t) == y * (z * s) + y * t;
    assert y * (z * s) == (y * z) * s;
    MulNonNeg(y, t);
    MulLe(t + 1, z, y);
    assert y * (t + 1) == y * t + y;
  }

  /** (x / y) / z = x / (yz). */
  lemma DivDiv(x: int, y: int, z: int)
    requires y > 0 && z > 0
    ensures y * z > 0 && (x / y) / z == x / (y * z)
  {
    DivSteps(x, y);
    DivSteps(x / y, z);
    DivDivCore(x, y, z, x / y, x % y, (x / y) / z, (x / y) % z);
  }

  lemma DivSteps(x: int, y: int)
    requires y > 0
    ensures x == y * (x / y) + x % y && 0 <= x % y < y
  {}

  lemma DivDivCore(x: int, y: int, z: int, q: int, r: int, s: int, t: int)
    requires x == y * q + r && 0 <= r < y && q == z * s + t && 0 <= t < z
    ensures y * z > 0 && x / (y * z) == s
  {
    TwoDigits(x, y, z, q, r, s, t);
    DivModUnique(x, y * z, s, y * t + r);
  }

  // ----- shifts, masks and disjoint or -----

  function Shr(v: limb, p: nat): limb {
    DivNonNeg(v, Two(p));
    ShrFits(v, p);
    v / Two(p)
  }

  lemma ShrFits(v: limb, p: nat)
    ensures v / Two(p) <= v
  {
    DivBounds(v, Two(p));
    DivNonNeg(v, Two(p));
    MulLe(1, Two(p), v / Two(p));
  }

  function Shl(v: limb, p: nat): limb { Lo(v * Two(p)) }

  /** lo | hi when hi has no bit below p and lo none from p on: the bits do not meet, so or is sum. */
  function Join(lo: int, hi: int, p: nat): int
    requires 0 <= lo < Two(p) && hi % Two(p) == 0
  {
    lo + hi
  }

  /** v & (2^n - 1). */
  function LowBits(v: int, n: nat): int { v % Two(n) }

  /** Shifting left by p keeps the low digits: v 2^p = B d + 2^p r when v = 2^(64-p) d + r. */
  lemma ShlCore(v: int, c: int, q: int, d: int, r: int)
    requires v == q * d + r && 0 <= r < q && c > 0 && q * c == B
    ensures v * c == B * d + c * r && 0 <= c * r <= B - c
  {
    assert (q * d + r) * c == (q * c) * d + c * r;
    MulNonNeg(c, r);
    MulLe(r + 1, q, c);
    assert c * (r + 1) == c * r + c;
    assert c * q == B;
  }

  lemma ShlExact(v: limb, p: nat)
    requires p <= 64
    ensures Shl(v, p) == Two(p) * (v % Two(64 - p))
    ensures Shl(v, p) % Two(p) == 0 && Shl(v, p) <= B - Two(p)
  {
    hide Two;
    TwoWord();
    TwoAdd(64 - p, p);
    DivSteps(v, Two(64 - p));
    ShlFinish(v, p, Two(p), Two(64 - p), v / Two(64 - p), v % Two(64 - p));
  }

  lemma ShlFinish(v: limb, p: nat, c: int, q: int, d: int, r: int)
    requires v == q * d + r && 0 <= r < q && c == Two(p) > 0 && q * c == B
    ensures Shl(v, p) == c * r && (c * r) % c == 0 && c * r <= B - c
  {
    hide Two;
    ShlCore(v, c, q, d, r);
    DivModUnique(v * c, B, d, c * r);
    DivMul(c, r);
  }

  // ----- reading -----

  function LimbAt(tab: seq<limb>, i: int): limb {
    if 0 <= i < |tab| then tab[i] else 0
  }

  /** get_bits: 64 bits at bit position pos, zero outside the array. */
  function GetBits(tab: seq<limb>, pos: nat): limb {
    var i, p := pos / 64, pos % 64;
    var a0 := LimbAt(tab, i);
    if p == 0 then a0
    else
      var a1 := LimbAt(tab, i + 1);
      JoinFits(a0, a1, p);
      Join(Shr(a0, p), Shl(a1, 64 - p), 64 - p)
  }

  lemma JoinFits(a0: limb, a1: limb, p: nat)
    requires 0 < p < 64
    ensures Shr(a0, p) < Two(64 - p) && Shl(a1, 64 - p) % Two(64 - p) == 0
    ensures Shr(a0, p) + Shl(a1, 64 - p) < B
    ensures Shl(a1, 64 - p) == Two(64 - p) * (a1 % Two(p))
  {
    hide Two;
    TwoWord();
    TwoAdd(p, 64 - p);
    DivLess(a0, Two(p), Two(64 - p));
    ShlExact(a1, 64 - p);
  }

  /** The value of the limbs from index i on. */
  ghost function High(tab: seq<limb>, i: nat): int {
    if i <= |tab| then Val(tab[i..]) else 0
  }

  lemma HighStep(tab: seq<limb>, i: nat)
    ensures High(tab, i) == LimbAt(tab, i) + B * High(tab, i + 1)
  {
    hide Val, Pow;
    if i < |tab| {
      var s := tab[i..];
      ValSplit(s, 1);
      assert s[..1] == [tab[i]] && s[1..] == tab[i + 1..];
      ValOne(tab[i]);
      PowUnitB();
    } else if i == |tab| {
      assert tab[i..] == [];
      ValZeros(tab[i..]);
    }
  }

  lemma PowUnitB()
    ensures Pow(B, 1) == B
  {
    assert Pow(B, 1) == B * Pow(B, 0);
  }

  lemma HighIs(tab: seq<limb>, i: nat)
    ensures High(tab, i) == Val(tab) / Two(64 * i)
  {
    hide Val, Pow;
    PowWord(i);
    if i <= |tab| {
      ValSplit(tab, i);
      ValBound(tab[..i]);
      DivModUnique(Val(tab), Pow(B, i), Val(tab[i..]), Val(tab[..i]));
    } else {
      ValBound(tab);
      PowMono(B, |tab|, i);
      DivModUnique(Val(tab), Pow(B, i), 0, Val(tab));
    }
  }

  lemma GetBitsHigh(tab: seq<limb>, i: nat, p: nat)
    requires p < 64
    ensures GetBits(tab, 64 * i + p) == (High(tab, i) / Two(p)) % B
  {
    var a0, a1, h := LimbAt(tab, i), LimbAt(tab, i + 1), High(tab, i + 2);
    assert (64 * i + p) / 64 == i && (64 * i + p) % 64 == p;
    HighStep(tab, i);
    HighStep(tab, i + 1);
    assert High(tab, i) == a0 + B * (a1 + B * h);
    if p == 0 {
      TwoSmall();
      DivModUnique(High(tab, i), B, a1 + B * h, a0);
    } else {
      JoinFits(a0, a1, p);
      BitsAlgebra(a0, a1, h, Two(p), Two(64 - p), p);
    }
  }

  lemma BitsAlgebra(a0: limb, a1: limb, h: int, c: int, q: int, p: nat)
    requires 0 < p < 64 && c == Two(p) && q == Two(64 - p) && h >= 0
    ensures ((a0 + B * (a1 + B * h)) / c) % B == a0 / c + q * (a1 % c)
  {
    hide Two, Shr, Shl;
    TwoWord();
    TwoAdd(p, 64 - p);
    JoinFits(a0, a1, p);
    ShrIs(a0, p);
    DivSteps(a0, c);
    DivSteps(a1, c);
    DivNonNeg(a0, c);
    BitsCore(a0 + B * (a1 + B * h), a0 / c + q * (a1 % c), a0, a1, h, c, q, a0 / c, a0 % c, a1 / c, a1 % c);
  }

  lemma ShrIs(a: limb, p: nat)
    ensures Shr(a, p) == a / Two(p)
  {}

  lemma BitsCore(x: int, y: int, a0: int, a1: int, h: int, c: int, q: int, d: int, e: int, s: int, r: int)
    requires c > 0 && c * q == B && a0 == c * d + e && 0 <= e < c && a1 == c * s + r
    requires y == d + q * r && 0 <= y < B && x == a0 + B * (a1 + B * h)
    ensures (x / c) % B == y
  {
    var f := a1 + B * h;
    assert B * f == c * (q * f) by { assert (c * q) * f == c * (q * f); }
    assert c * (d + q * f) == c * d + c * (q * f);
    DivModUnique(x, c, d + q * f, e);
    BitsSplit(a1, h, c, q, s, r);
    DivModUnique(d + q * f, B, s + q * h, d + q * r);
  }

  lemma BitsSplit(a1: int, h: int, c: int, q: int, s: int, r: int)
    requires c * q == B && a1 == c * s + r
    ensures q * (a1 + B * h) == B * (s + q * h) + q * r
  {
    assert q * (c * s + r) == (c * q) * s + q * r;
    assert q * (B * h) == B * (q * h);
    assert q * (a1 + B * h) == q * a1 + q * (B * h);
  }

  /** get_bits reads bits pos .. pos + 63 of the number. */
  lemma GetBitsExact(tab: seq<limb>, pos: nat)
    ensures GetBits(tab, pos) == (Val(tab) / Two(pos)) % B
  {
    hide Val, Pow, GetBits, High;
    var i, p := pos / 64, pos % 64;
    assert pos == 64 * i + p;
    GetBitsHigh(tab, i, p);
    HighIs(tab, i);
    TwoAdd(64 * i, p);
    DivDiv(Val(tab), Two(64 * i), Two(p));
  }

  lemma TwoMono(a: nat, b: nat)
    requires a <= b
    ensures Two(a) <= Two(b)
  {
    PowMono(2, a, b);
  }
}
