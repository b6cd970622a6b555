/** mp_mul_basecase, mp_mul, mp_shr, mp_cmp and mp_scan_nz. */
module MpMul {
  import opened Arith
  import opened Word
  import opened Limbs
  import opened Bits
  import opened LimbNtt
  import opened NttSize
  import opened FftMul
  import opened MpBase

  const FFT_MUL_THRESHOLD: nat := 100

  // ----- multiplication -----

  lemma RowAlgebra(v0: int, v1: int, lo: int, p: int, w0: int, w1: int, x: int)
    requires v0 == lo + p * w0 && v1 == lo + p * w1 && w1 == w0 + x
    ensures v1 == v0 + p * x
  {
    assert p * (w0 + x) == p * w0 + p * x;
  }

  lemma TailWithTop(r: seq<limb>, i: nat, n: nat)
    requires |r| == i + n + 1
    ensures Val(r[i..]) == Val(r[i..i + n]) + r[i + n] * Pow(B, n)
  {
    assert r[i..] == r[i..i + n] + [r[i + n]];
    ValSnoc(r[i..i + n], r[i + n]);
  }

  /** One row of the schoolbook product: x is added at limb i, the last limb of r1 is new. */
  lemma RowAdded(r0: seq<limb>, r1: seq<limb>, i: nat, n: nat, x: int)
    requires |r0| == i + n && |r1| == i + n + 1 && r1[..i] == r0[..i]
    requires Val(r1[i..i + n]) + r1[i + n] * Pow(B, n) == Val(r0[i..]) + x
    ensures Val(r1) == Val(r0) + Pow(B, i) * x
  {
    hide Val, Pow;
    ValSplit(r0, i);
    ValSplit(r1, i);
    TailWithTop(r1, i, n);
    RowAlgebra(Val(r0), Val(r1), Val(r0[..i]), Pow(B, i), Val(r0[i..]), Val(r1[i..]), x);
  }

  lemma RowScaled(a: int, b: int, y: int, p: int)
    ensures a * (b + y * p) == a * b + p * (a * y)
  {
    assert a * (b + y * p) == a * b + a * (y * p);
    assert a * (y * p) == p * (a * y);
  }

  /** mp_mul_basecase. */
  method MulBaseCase(res: array<limb>, off: nat, a: seq<limb>, b: seq<limb>)
    requires |b| >= 1 && off + |a| + |b| <= res.Length
    modifies res
    ensures Val(res[off..off + |a| + |b|]) == Val(a) * Val(b)
    ensures SameOutside(old(res[..]), res[..], off, off + |a| + |b|)
  {
    hide Val, Pow;
    var n := |a|;
    var h := Mul1(res, off, a, b[0], 0);
    res[off + n] := h;
    assert res[off..off + n + 1] == res[off..off + n] + [h];
    ValSnoc(res[off..off + n], h);
    assert b[..1] == [b[0]];
    ValOne(b[0]);
    var i := 1;
    while i < |b|
      invariant 1 <= i <= |b|
      invariant Val(res[off..off + n + i]) == Val(a) * Val(b[..i])
      invariant SameOutside(old(res[..]), res[..], off, off + n + |b|)
    {
      ghost var t0 := res[..];
      ghost var r0 := res[off..off + n + i];
      h := AddMul1(res, off + i, a, b[i]);
      ghost var t1 := res[..];
      assert res[off + i..off + i + n] == t1[off + i..off + i + n];
      res[off + i + n] := h;
      ghost var r1 := res[off..off + n + i + 1];
      assert r1[i..i + n] == t1[off + i..off + i + n];
      assert r0[i..] == t0[off + i..off + i + n];
      assert r1[..i] == r0[..i];
      RowAdded(r0, r1, i, n, Val(a) * b[i] as int);
      ValNext(b, i);
      RowScaled(Val(a), Val(b[..i]), b[i], Pow(B, i));
      i := i + 1;
    }
    assert b[..|b|] == b;
  }

  /** A copy loop: the limbs of src are stored from off on. */
  method CopyIn(tab: array<limb>, off: nat, src: seq<limb>)
    requires off + |src| <= tab.Length
    modifies tab
    ensures tab[off..off + |src|] == src
    ensures SameOutside(old(tab[..]), tab[..], off, off + |src|)
  {
    var i := 0;
    while i < |src|
      invariant 0 <= i <= |src|
      invariant forall t :: 0 <= t < i ==> tab[off + t] == src[t]
      invariant SameOutside(old(tab[..]), tab[..], off, off + |src|)
    {
      tab[off + i] := src[i];
      i := i + 1;
    }
  }

  /** mp_mul: transform product from 100 limbs on in the smaller factor, schoolbook below. */
  method Multiply(res: array<limb>, off: nat, a: seq<limb>, b: seq<limb>)
    requires |b| >= 1 && off + |a| + |b| <= res.Length && |a| + |b| <= MAX_LEN
    modifies res
    ensures Val(res[off..off + |a| + |b|]) == Val(a) * Val(b)
    ensures SameOutside(old(res[..]), res[..], off, off + |a| + |b|)
  {
    hide Val, Pow;
    if Min(|a|, |b|) >= FFT_MUL_THRESHOLD {
      var r := FftMul.FftMul(a, b);
      CopyIn(res, off, r[..]);
    } else {
      MulBaseCase(res, off, a, b);
    }
  }

  // ----- shift right -----

  lemma ValCons(x: limb, s: seq<limb>)
    ensures Val([x] + s) == x + B * Val(s)
  {
    hide Val;
    ValAppend([x], s);
    ValOne(x);
    PowUnitB();
  }

  /** One limb of a right shift: the quotient by c so far is w, the remainder the low bits of l. */
  lemma ShiftCore(w: int, c: int, q: int, m: int, x: int, a: int, d: int, e: int)
    requires c * q == B && w * c + m == x && a == c * d + e
    ensures (q * m + d + B * w) * c + e == a + B * x
  {
    assert (q * m + d + B * w) * c == (c * q) * m + c * d + B * (w * c);
    assert B * x == B * (w * c) + B * m;
  }

  lemma ShiftStep(w: int, l: limb, a: limb, p: nat, x: int)
    requires 0 < p < 64 && w * Two(p) + l % Two(p) == x
    ensures Shr(a, p) < Two(64 - p) && Shl(l, 64 - p) % Two(64 - p) == 0 && Shr(a, p) + Shl(l, 64 - p) < B
    ensures (Shr(a, p) + Shl(l, 64 - p) + B * w) * Two(p) + a % Two(p) == a + B * x
  {
    hide Two, Shr, Shl;
    TwoWord();
    TwoAdd(p, 64 - p);
    JoinFits(a, l, p);
    ShrIs(a, p);
    DivSteps(a, Two(p));
    ShiftCore(w, Two(p), Two(64 - p), l % Two(p), x, a, a / Two(p), a % Two(p));
  }

  /** mp_shr in place: (tab + high B^n) >> shift, the bits shifted out are returned. */
  method ShiftRight(tab: array<limb>, off: nat, n: nat, shift: nat, high: limb) returns (r: limb)
    requires off + n <= tab.Length && 1 <= shift < 64 && high < Two(shift)
    modifies tab
    ensures r < Two(shift)
    ensures Val(tab[off..off + n]) * Two(shift) + r == old(Val(tab[off..off + n])) + Pow(B, n) * high
    ensures SameOutside(old(tab[..]), tab[..], off, off + n)
  {
    hide Val, Pow, Two, Shr, Shl;
    var l: limb := high;
    var i := n;
    ghost var s := tab[off..off + n];
    ghost var x: int := high;
    assert s[n..] == [] && tab[off + n..off + n] == [];
    ValZeros([]);
    DivModUnique(high, Two(shift), 0, high);
    PowZero(B);
    while i > 0
      invariant 0 <= i <= n
      invariant Val(tab[off + i..off + n]) * Two(shift) + l % Two(shift) == x == Val(s[i..]) + Pow(B, n - i) * high
      invariant tab[off..off + i] == s[..i]
      invariant SameOutside(old(tab[..]), tab[..], off, off + n)
    {
      i := i - 1;
      ghost var w := tab[off + i + 1..off + n];
      assert tab[off..off + i + 1][i] == s[..i + 1][i];
      assert tab[off + i] == s[i];
      var a := tab[off + i];
      ShiftStep(Val(w), l, a, shift, x);
      var v: limb := Join(Shr(a, shift), Shl(l, 64 - shift), 64 - shift);
      tab[off + i] := v;
      assert tab[off + i..off + n] == [v] + w;
      assert s[i..] == [s[i]] + s[i + 1..];
      ValCons(v, w);
      ValCons(s[i], s[i + 1..]);
      PowNextB(n - i - 1);
      TopGrows(a, x, Val(s[i + 1..]), Pow(B, n - i - 1), high);
      x := a + B * x;
      l := a;
    }
    assert s[0..] == s;
    LowFits(l, shift);
    r := LowBits(l, shift);
  }

  lemma TopGrows(a: int, x: int, v: int, p: int, h: int)
    requires x == v + p * h
    ensures a + B * x == (a + B * v) + (B * p) * h
  {
    assert B * (v + p * h) == B * v + (B * p) * h;
  }

  // ----- comparison -----

  /** mp_cmp compares the numbers. */
  method Compare(a: seq<limb>, b: seq<limb>) returns (c: int)
    requires |a| == |b|
    ensures c == (if Val(a) < Val(b) then -1 else if Val(a) > Val(b) then 1 else 0)
  {
    hide Val, Pow;
    var i := |a|;
    while i > 0
      invariant 0 <= i <= |a| && a[i..] == b[i..]
    {
      i := i - 1;
      if a[i] != b[i] {
        CompareAt(a, b, i);
        c := if a[i] < b[i] then -1 else 1;
        return;
      }
    }
    assert a == a[0..] && b == b[0..];
    c := 0;
  }

  lemma CompareAt(a: seq<limb>, b: seq<limb>, i: nat)
    requires i < |a| == |b| && a[i + 1..] == b[i + 1..] && a[i] != b[i]
    ensures a[i] < b[i] <==> Val(a) < Val(b)
    ensures Val(a) != Val(b)
  {
    hide Val, Pow;
    ValSplit(a, i + 1);
    ValSplit(b, i + 1);
    ValNext(a, i);
    ValNext(b, i);
    ValBound(a[..i]);
    ValBound(b[..i]);
    CompareCore(Val(a[..i]), Val(b[..i]), a[i], b[i], Pow(B, i));
  }

  lemma CompareCore(v: int, w: int, x: int, y: int, p: int)
    requires 0 <= v < p && 0 <= w < p && x != y
    ensures x < y <==> v + x * p < w + y * p
    ensures v + x * p != w + y * p
  {
    if x < y {
      MulLe(x + 1, y, p);
      assert (x + 1) * p == x * p + p;
    } else {
      MulLe(y + 1, x, p);
      assert (y + 1) * p == y * p + p;
    }
  }

  /** mp_scan_nz: whether some limb is nonzero. */
  method ScanNonZero(a: seq<limb>) returns (nz: bool)
    ensures nz <==> Val(a) != 0
  {
    hide Val, Pow;
    var i := 0;
    while i < |a|
      invariant 0 <= i <= |a| && forall t :: 0 <= t < i ==> a[t] == 0
    {
      if a[i] != 0 {
        ValPositive(a, i);
        return true;
      }
      i := i + 1;
    }
    ValZeros(a);
    return false;
  }

  lemma ValPositive(a: seq<limb>, i: nat)
    requires i < |a| && a[i] > 0
    ensures Val(a) > 0
  {
    hide Val, Pow;
    ValSplit(a, i + 1);
    ValNext(a, i);
    PowPos(B, i);
    PowPos(B, i + 1);
    MulLe(1, a[i], Pow(B, i));
    MulNonNeg(Pow(B, i + 1), Val(a[i + 1..]));
  }
}
