/** mp_sqrtrem: Karatsuba square root of a limb array, in place. */
module MpSqrt {
  import opened Arith
  import opened Word
  import opened Limbs
  import opened Bits
  import opened NttSize
  import opened MpBase
  import opened MpMul
  import opened MpDiv1
  import opened MpDivBase
  import opened MpRecip
  import opened MpDiv
  import opened MpSqrt1

  // ----- values of windows -----

  /** A window of l + h limbs splits into its low and high parts. */
  lemma WindowSplit(t: seq<limb>, o: nat, l: nat, h: nat)
    requires o + l + h <= |t|
    ensures Val(t[o..o + l + h]) == Val(t[o..o + l]) + Pow(B, l) * Val(t[o + l..o + l + h])
  {
    hide Val, Pow;
    var w := t[o..o + l + h];
    ValSplit(w, l);
    assert w[..l] == t[o..o + l] && w[l..] == t[o + l..o + l + h];
  }

  /** A window with a signed extra limb on top. */
  ghost function Tall(t: seq<limb>, o: nat, n: nat, top: int): int
    requires o + n <= |t|
  {
    Val(t[o..o + n]) + Mul(top, Pow(B, n))
  }

  // ----- the quotient of the Karatsuba step -----

  /** Halving the quotient by s1: num = total s1 + rem gives num = 2 s1 q + u. */
  lemma HalveQuotient(num: int, s1: int, total: int, rem: int, q: int, odd: int, u: int)
    requires num == total * s1 + rem && total == 2 * q + odd && u == rem + odd * s1
    ensures num == 2 * s1 * q + u
  {
    assert (2 * q + odd) * s1 == 2 * s1 * q + odd * s1;
  }

  /** The division of (qh B^h + r) B^l + c by s1, with qh s1 subtracted first. */
  lemma DividePart(r1: int, s1: int, qh: int, d: int, c1: int, pl: int, q: int, rem: int, num: int)
    requires d == c1 + pl * (r1 - qh * s1) && d == s1 * q + rem && num == r1 * pl + c1
    ensures num == (qh * pl + q) * s1 + rem
  {
    assert pl * (r1 - qh * s1) == pl * r1 - pl * (qh * s1);
    assert pl * (qh * s1) == (qh * pl) * s1;
    assert (qh * pl + q) * s1 == (qh * pl) * s1 + q * s1;
    MulSides(s1, q);
    MulSides(r1, pl);
  }

  /** The halved quotient as limbs plus a high bit. */
  lemma HalfLimbsOf(qh0: int, top: int, low: int, half: int, odd: int, pl: int)
    requires 0 <= qh0 + top && half * 2 + odd == low + pl * ((qh0 + top) % 2)
    ensures (qh0 + top) * pl + low == 2 * (half + ((qh0 + top) / 2) * pl) + odd
  {
    var t := qh0 + top;
    assert t == 2 * (t / 2) + t % 2;
    assert (2 * (t / 2) + t % 2) * pl == 2 * ((t / 2) * pl) + (t % 2) * pl;
    MulSides(pl, t % 2);
  }

  /** Removing s1 once when the high bit is set leaves a number of h limbs. */
  lemma DropHigh(r1: int, low: int, s1: int, w: int, k: int, ph: int, qh: int)
    requires r1 == low + qh * ph && 0 <= low < ph && qh == 1 && 0 <= r1 <= 2 * s1 && s1 < ph
    requires w - k * ph == low - s1 && 0 <= w < ph && 0 <= k <= 1
    ensures w == r1 - qh * s1
  {}

  lemma HighBit(r1: int, low: int, qh: int, s1: int, ph: int)
    requires r1 == low + Mul(qh, ph) && 0 <= low < ph && 0 <= r1 <= 2 * s1 && s1 < ph && qh >= 0
    ensures qh <= 1
  {
    if qh >= 2 { MulLe(2, qh, ph); }
  }

  /** What the first half of the step establishes about quotient and remainder. */
  ghost predicate QuotientPart(r1: int, c1: int, s1: int, pl: int, q: int, u: int) {
    r1 * pl + c1 == 2 * s1 * q + u && 0 <= u < 2 * s1
  }

  lemma QuotientPartOf(r1: int, c1: int, s1: int, pl: int, qh: int, d: int, q0: int, rem: int,
                       top: int, low: int, half: int, odd: int, u: int)
    requires d == c1 + pl * (r1 - qh * s1) && d == s1 * q0 + rem && 0 <= rem < s1
    requires q0 == low + top * pl && 0 <= qh + top && half * 2 + odd == low + pl * ((qh + top) % 2)
    requires 0 <= odd <= 1 && u == rem + odd * s1
    ensures QuotientPart(r1, c1, s1, pl, half + ((qh + top) / 2) * pl, u)
  {
    var num := r1 * pl + c1;
    DividePart(r1, s1, qh, d, c1, pl, q0, rem, num);
    HalfLimbsOf(qh, top, low, half, odd, pl);
    assert (qh + top) * pl == qh * pl + top * pl;
    HalveQuotient(num, s1, qh * pl + q0, rem, half + ((qh + top) / 2) * pl, odd, u);
    if odd == 0 { assert odd * s1 == 0; } else { assert odd * s1 == s1; }
  }

  lemma TallIs(t: seq<limb>, o: nat, n: nat, top: int, w: seq<limb>)
    requires o + n <= |t| && w == t[o..o + n]
    ensures Tall(t, o, n, top) == Val(w) + top * Pow(B, n)
  {}

  /** The high bit of the first remainder is removed by subtracting s1 once. */
  method DropHighBit(taba: array<limb>, o: nat, s: seq<limb>, qh: limb)
    requires |s| >= 1 && Normalized(s[|s| - 1]) && o + |s| <= taba.Length
    requires 0 <= Tall(taba[..], o, |s|, qh) <= 2 * Val(s)
    modifies taba
    ensures qh <= 1
    ensures Val(taba[o..o + |s|]) == old(Tall(taba[..], o, |s|, qh)) - qh * Val(s)
    ensures SameOutside(old(taba[..]), taba[..], o, o + |s|)
  {
    hide Val, Pow, Tall;
    var h := |s|;
    ghost var r1, low, ph := Tall(taba[..], o, h, qh), Val(taba[o..o + h]), Pow(B, h);
    TallIs(taba[..], o, h, qh, taba[o..o + h]);
    NormalizedBound(s);
    ValBound(taba[o..o + h]);
    HighBit(r1, low, qh, Val(s), ph);
    if qh != 0 {
      var k := Sub(taba, o, s, 0);
      ValBound(taba[o..o + h]);
      DropHigh(r1, low, Val(s), Val(taba[o..o + h]), k, ph, qh);
    }
  }

  /** The quotient is copied and halved; the bit shifted out is returned. */
  method HalveInto(tabs: array<limb>, os: nat, q: seq<limb>, high: limb) returns (odd: limb)
    requires os + |q| <= tabs.Length && high <= 1
    modifies tabs
    ensures odd <= 1
    ensures Val(tabs[os..os + |q|]) * 2 + odd == Val(q) + Pow(B, |q|) * high
    ensures SameOutside(old(tabs[..]), tabs[..], os, os + |q|)
  {
    hide Val, Pow, Two;
    CopyIn(tabs, os, q);
    TwoSmall();
    odd := ShiftRight(tabs, os, |q|, 1, high);
  }

  /** The remainder is completed when the quotient by s1 was odd. */
  method AddOdd(taba: array<limb>, o: nat, s: seq<limb>, odd: limb) returns (rh: limb)
    requires o + |s| <= taba.Length && odd <= 1
    modifies taba
    ensures rh <= 1
    ensures Tall(taba[..], o, |s|, rh) == old(Val(taba[o..o + |s|])) + odd * Val(s)
    ensures SameOutside(old(taba[..]), taba[..], o, o + |s|)
  {
    hide Val, Pow, Tall;
    if odd != 0 {
      rh := Add(taba, o, s, 0);
    } else {
      rh := 0;
    }
    TallIs(taba[..], o, |s|, rh, taba[o..o + |s|]);
  }

  /** First half of the recursive step: q in tabs[os..] with its high bit returned, u in taba[oa + l..]. */
  method RootQuotient(tabs: array<limb>, os: nat, taba: array<limb>, oa: nat, l: nat, h: nat, tmp: array<limb>, qh0: limb)
    returns (qh: limb, rh: limb)
    requires 1 <= l <= h <= l + 1 && os + l + h <= tabs.Length && oa + 2 * (l + h) <= taba.Length && tmp.Length >= l + 1
    requires tabs != taba && tabs != tmp && taba != tmp && 3 * (l + h) + 8 <= MAX_LEN
    requires Normalized(tabs[os + l + h - 1])
    requires 0 <= Tall(taba[..], oa + 2 * l, h, qh0) <= 2 * Val(tabs[os + l..os + l + h])
    modifies tabs, taba, tmp
    ensures rh <= 1 && qh <= 1
    ensures SameOutside(old(tabs[..]), tabs[..], os, os + l)
    ensures SameOutside(old(taba[..]), taba[..], oa + l, oa + 2 * l + h)
    ensures QuotientPart(old(Tall(taba[..], oa + 2 * l, h, qh0)), old(Val(taba[oa + l..oa + 2 * l])),
                         Val(tabs[os + l..os + l + h]), Pow(B, l),
                         Tall(tabs[..], os, l, qh), Tall(taba[..], oa + l, h, rh))
  {
    hide Val, Pow, QuotientPart, Tall, Divided;
    ghost var t0 := taba[..];
    ghost var r1, pl := Tall(t0, oa + 2 * l, h, qh0), Pow(B, l);
    var s := tabs[os + l..os + l + h];
    ghost var s1 := Val(s);
    assert s[h - 1] == tabs[os + l + h - 1];
    DropHighBit(taba, oa + 2 * l, s, qh0);
    ghost var t1 := taba[..];
    WindowSame(t0, t1, oa + 2 * l, oa + 2 * l + h, oa + l, l);
    WindowSplit(t1, oa + l, l, h);
    ghost var c := t0[oa + l..oa + 2 * l];
    assert c == taba[oa + l..oa + 2 * l] == t1[oa + l..oa + 2 * l];
    assert t1[oa + l + l..oa + l + l + h] == taba[oa + 2 * l..oa + 2 * l + h];
    assert t1[oa + l..oa + l + l + h] == taba[oa + l..oa + l + (l + h)];
    ghost var d := Val(taba[oa + l..oa + l + (l + h)]);
    assert d == Val(c) + pl * (r1 - qh0 * s1);
    DivNorm(tmp, taba, oa + l, l + h, s);
    ghost var rem := taba[oa + l..oa + l + h];
    ghost var q := tmp[..l + 1];
    DividedIs(d, s1, q, rem);
    assert q == tmp[..l] + [tmp[l]];
    ghost var low := tmp[..l];
    ValSnoc(low, tmp[l]);
    var total: limb := qh0 + tmp[l];
    var ql := HalveInto(tabs, os, tmp[..l], total % 2);
    rh := AddOdd(taba, oa + l, s, ql);
    qh := total / 2;
    QuotientPartOf(r1, Val(c), s1, pl, qh0, d, Val(q), Val(rem), total - qh0, Val(low), Val(tabs[os..os + l]), ql,
                   Val(rem) + ql as int * s1);
    TallIs(tabs[..], os, l, qh, tabs[os..os + l]);
    assert tabs[os + l..os + l + h] == s;
  }

  // ----- the square is subtracted -----

  lemma SquareOff(lo0: int, hi0: int, lo1: int, hi1: int, c: int, bor: int, p: int, q: int, sq: int, rh: int)
    requires lo1 - c * p == lo0 - sq && hi1 - bor * q == hi0 - c
    ensures (lo1 + p * hi1) + (rh - bor) * (p * q) == (lo0 + p * hi0) + rh * (p * q) - sq
  {
    assert p * (hi1 - bor * q) == p * hi1 - bor * (p * q);
    assert p * (hi0 - c) == p * hi0 - c * p;
    assert (rh - bor) * (p * q) == rh * (p * q) - bor * (p * q);
  }

  /** When the high bit of q is set, q is exactly B^l. */
  lemma FullQuotient(q: int, low: int, qh: int, p: int)
    requires q == low + qh * p && 0 <= low && q <= p && 0 <= qh <= 1 && p > 0
    ensures qh == 1 ==> low == 0 && q == p
    ensures qh == 0 ==> low == q
  {
    if qh == 0 { assert qh * p == 0; } else { assert qh * p == p; }
  }

  /** The low 2l limbs lose q^2; the limb to borrow above them is returned. When q = B^l the
      square is B^(2l) and only the borrow is left to do. */
  method SquareLow(tabs: array<limb>, os: nat, taba: array<limb>, oa: nat, l: nat, h: nat, qh: limb) returns (c: limb)
    requires 1 <= l <= h && os + l <= tabs.Length && oa + 2 * (l + h) <= taba.Length && tabs != taba
    requires qh <= 1 && Tall(tabs[..], os, l, qh) <= Pow(B, l) && 2 * l <= MAX_LEN
    modifies taba
    ensures c <= 1
    ensures var q := Tall(tabs[..], os, l, qh);
            Val(taba[oa..oa + 2 * l]) - c * Pow(B, 2 * l) == old(Val(taba[oa..oa + 2 * l])) - q * q
    ensures taba[oa + 2 * l..oa + l + h] == old(taba[oa + 2 * l..oa + l + h])
    ensures SameOutside(old(taba[..]), taba[..], oa, oa + 2 * (l + h))
  {
    hide Val, Pow, Tall;
    var n := l + h;
    ghost var t0 := taba[..];
    var ql := tabs[os..os + l];
    ghost var q, pl := Tall(tabs[..], os, l, qh), Pow(B, l);
    TallIs(tabs[..], os, l, qh, ql);
    PowPos(B, l);
    PowAdd(B, l, l);
    FullQuotient(q, Val(ql), qh, pl);
    if qh != 0 {
      c := qh;
    } else {
      Multiply(taba, oa + n, ql, ql);
      ghost var t1 := taba[..];
      WindowSame(t0, t1, oa + n, oa + n + 2 * l, oa, 2 * l);
      assert t1[oa..oa + 2 * l] == taba[oa..oa + 2 * l];
      c := Sub(taba, oa, taba[oa + n..oa + n + 2 * l], 0);
    }
  }

  /** q^2 is subtracted from the remainder; its signed top limb is the ghost result. */
  method SubtractSquare(tabs: array<limb>, os: nat, taba: array<limb>, oa: nat, l: nat, h: nat, qh: limb, rh: limb)
    returns (rh1: limb, ghost top: int)
    requires 1 <= l <= h <= l + 1 && os + l <= tabs.Length && oa + 2 * (l + h) <= taba.Length && tabs != taba
    requires qh <= 1 && rh <= 1 && Tall(tabs[..], os, l, qh) <= Pow(B, l) && 2 * l <= MAX_LEN
    modifies taba
    ensures -1 <= top <= 1 && rh1 == Lo(top)
    ensures var q := Tall(tabs[..], os, l, qh);
            Tall(taba[..], oa, l + h, top) == old(Tall(taba[..], oa, l + h, rh)) - q * q
    ensures SameOutside(old(taba[..]), taba[..], oa, oa + 2 * (l + h))
  {
    hide Val, Pow, Tall, Lo;
    var n := l + h;
    ghost var t0 := taba[..];
    ghost var q := Tall(tabs[..], os, l, qh);
    PowAdd(B, 2 * l, h - l);
    WindowSplit(t0, oa, 2 * l, h - l);
    assert t0[oa..oa + 2 * l] == taba[oa..oa + 2 * l];
    TallIs(t0, oa, n, rh, t0[oa..oa + n]);
    var c := SquareLow(tabs, os, taba, oa, l, h, qh);
    ghost var t2 := taba[..];
    ghost var lo1, hi0 := Val(t2[oa..oa + 2 * l]), Val(t0[oa + 2 * l..oa + n]);
    assert t2[oa..oa + 2 * l] == taba[oa..oa + 2 * l];
    assert taba[oa + 2 * l..oa + 2 * l + (h - l)] == t0[oa + 2 * l..oa + n];
    var bor := SubUi(taba, oa + 2 * l, h - l, c);
    ghost var t3 := taba[..];
    WindowSame(t2, t3, oa + 2 * l, oa + n, oa, 2 * l);
    WindowSplit(t3, oa, 2 * l, h - l);
    assert t3[oa + 2 * l..oa + n] == taba[oa + 2 * l..oa + 2 * l + (h - l)];
    top := rh - bor;
    SquareOff(Val(t0[oa..oa + 2 * l]), hi0, lo1, Val(t3[oa + 2 * l..oa + n]), c, bor, Pow(B, 2 * l), Pow(B, h - l), q * q, rh);
    TallIs(t3, oa, n, top, t3[oa..oa + n]);
    rh1 := Lo(rh as int - bor as int);
  }

  // ----- the final adjustment -----

  lemma TopSign(e: int, v: int, top: int, pn: int)
    requires e == v + Mul(top, pn) && 0 <= v < pn && -1 <= top <= 1
    ensures top < 0 <==> e < 0
  {
    if top == 0 { assert top * pn == 0; } else if top == 1 { assert top * pn == pn; } else { assert top * pn == -pn; }
  }

  /** After the decrement: the window holds s - 1 although the unadjusted root may have overflowed. */
  lemma WrappedRoot(v0: int, cy: int, s: int, v1: int, k: int, p: int)
    requires p > 0 && v0 + cy * p == s && v1 - k * p == v0 - 1 && 0 <= v1 < p && 0 <= s - 1 < p
    ensures v1 == s - 1
  {
    assert p * (cy - k) == cy * p - k * p;
    DivModUnique(s - 1, p, 0, s - 1);
    DivModUnique(s - 1, p, cy - k, v1);
  }

  lemma NoOverflow(v0: int, cy: int, s: int, p: int)
    requires p > 0 && v0 + cy * p == s && 0 <= v0 < p && 0 <= s < p
    ensures v0 == s
  {
    DivModUnique(s, p, 0, s);
    DivModUnique(s, p, cy, v0);
  }

  lemma LoSum(x: int, y: int)
    ensures Lo(Lo(x) as int + y) == Lo(x + y)
  {
    var q, r := (Lo(x) as int + y) / B, (Lo(x) as int + y) % B;
    assert x == B * (x / B) + Lo(x);
    DivModUnique(x + y, B, x / B + q, r);
  }

  lemma FinalTop(v: int, top: int, h1: int, h2: int, v1: int, v2: int, pn: int, s1: int, e: int)
    requires pn > 0 && e == v + Mul(top, pn) && v1 + h1 * pn == v + s1 * 2 && v2 + h2 * pn == v1 + 1 && 0 <= v2 < pn
    requires 0 <= e + 2 * s1 + 1 <= 2 * s1 && s1 < pn
    ensures 0 <= top + h1 + h2 <= 1 && e + 2 * s1 + 1 == v2 + Mul(top + h1 + h2, pn)
  {
    var t := top + h1 + h2;
    assert t * pn == top * pn + h1 * pn + h2 * pn;
    if t <= -1 { MulLe(t, -1, pn); }
    if t >= 2 { MulLe(2, t, pn); }
  }

  /** The sign test of mp_sqrtrem_rec: one decrement of the root when the remainder went negative. */
  method AdjustRoot(tabs: array<limb>, os: nat, taba: array<limb>, oa: nat, n: nat, rh1: limb,
                    ghost top: int, ghost cy: int, ghost s: int, ghost e: int) returns (rh: limb)
    requires n >= 1 && os + n <= tabs.Length && oa + n <= taba.Length && tabs != taba && rh1 == Lo(top) && -1 <= top <= 1
    requires Val(tabs[os..os + n]) + cy * Pow(B, n) == s && Tall(taba[..], oa, n, top) == e
    requires StepOk(s, e, Pow(B, n))
    modifies tabs, taba
    ensures rh <= 1 && IsRoot(s * s + e, Val(tabs[os..os + n]), Tall(taba[..], oa, n, rh))
    ensures SameOutside(old(tabs[..]), tabs[..], os, os + n)
    ensures SameOutside(old(taba[..]), taba[..], oa, oa + n)
  {
    hide Val, Pow, Tall, Lo, IsRoot;
    rh := rh1;
    ghost var pn, v := Pow(B, n), Val(taba[oa..oa + n]);
    PowPos(B, n);
    TallIs(taba[..], oa, n, top, taba[oa..oa + n]);
    MulIs(top, pn);
    ValBound(taba[oa..oa + n]);
    ValBound(tabs[os..os + n]);
    TopSign(e, v, top, pn);
    SignedWord(top);
    if rh >= HALF {
      ghost var v0 := Val(tabs[os..os + n]);
      var k := SubUi(tabs, os, n, 1);
      ValBound(tabs[os..os + n]);
      WrappedRoot(v0, cy, s, Val(tabs[os..os + n]), k, pn);
      var h1 := AddMul1(taba, oa, tabs[os..os + n], 2);
      ghost var v1 := Val(taba[oa..oa + n]);
      rh := Lo(rh as int + h1 as int);
      var h2 := AddUi(taba, oa, n, 1);
      ghost var v2 := Val(taba[oa..oa + n]);
      ValBound(taba[oa..oa + n]);
      LoSum(top, h1);
      LoSum(top + h1 as int, h2);
      rh := Lo(rh as int + h2 as int);
      FinalTop(v, top, h1, h2, v1, v2, pn, s - 1, e);
      SignedWord(top + h1 as int + h2 as int);
      MulIs(rh, pn);
      TallIs(taba[..], oa, n, rh, taba[oa..oa + n]);
      Decremented(s * s + e, s, e);
    } else {
      NoOverflow(Val(tabs[os..os + n]), cy, s, pn);
      RootHere(s * s + e, s, e);
      TallIs(taba[..], oa, n, rh, taba[oa..oa + n]);
    }
  }

  // ----- mp_sqrtrem -----

  /** The root of a normalized number is normalized. */
  lemma RootNormalized(a: seq<limb>, s: seq<limb>, r: int)
    requires |s| >= 1 && |a| == 2 * |s| && a[|a| - 1] >= HALF / 2 && IsRoot(Val(a), Val(s), r)
    ensures Normalized(s[|s| - 1]) && 2 * Val(s) >= Pow(B, |s|)
  {
    hide Val, Pow;
    var n := |s|;
    TopLimb(s);
    TopLimb(a);
    PowAdd(B, n, n - 1);
    PowNextB(n - 1);
    var p, v := Pow(B, n - 1), Val(s);
    MulLe(HALF / 2, a[2 * n - 1], Pow(B, 2 * n - 1));
    assert (HALF / 2) * 4 == 2 * HALF == B;
    ValBound(s);
    QuarterRoot(Val(a), v, r, B * p, p, Pow(B, 2 * n - 1));
    if s[n - 1] <= HALF - 1 { MulLe(s[n - 1], HALF - 1, p); }
    assert (HALF - 1) * p == HALF * p - p;
  }

  lemma QuarterRoot(a: int, s: int, r: int, pn: int, p: int, w: int)
    requires IsRoot(a, s, r) && p > 0 && pn == B * p && w == pn * p && a >= (HALF / 2) * w && s >= 0
    ensures 2 * s >= pn
  {
    assert 4 * a >= B * (pn * p);
    assert B * (pn * p) == pn * pn by { assert B * (pn * p) == pn * (B * p); }
    assert (2 * s + 1) * (2 * s + 1) == 4 * (s * s) + 4 * s + 1;
    assert (2 * s + 2) * (2 * s + 2) == 4 * (s * s) + 8 * s + 4;
    if 2 * s + 2 <= pn { SquareMono(2 * s + 2, pn); }
    assert pn == 2 * (HALF * p);
  }

  /** The number as limbs above, middle and low part of the Karatsuba split. */
  lemma RadicandParts(a: seq<limb>, l: nat, h: nat)
    requires |a| == 2 * (l + h)
    ensures Val(a) == Val(a[2 * l..]) * (Pow(B, l) * Pow(B, l)) + Val(a[l..2 * l]) * Pow(B, l) + Val(a[..l])
  {
    hide Val, Pow;
    ValSplit(a, l);
    ValSplit(a[l..], l);
    assert a[l..][..l] == a[l..2 * l] && a[l..][l..] == a[2 * l..];
    var p := Pow(B, l);
    assert p * (Val(a[l..2 * l]) + p * Val(a[2 * l..])) == Val(a[2 * l..]) * (p * p) + Val(a[l..2 * l]) * p;
  }

  /** Root estimate and signed remainder of one Karatsuba step. */
  function StepRoot(s1: int, pl: int, q: int): int { s1 * pl + q }

  function StepRem(u: int, pl: int, c0: int, q: int): int { u * pl + c0 - q * q }

  /** The estimate is right, or one too large exactly when the remainder is negative. */
  ghost predicate StepOk(s: int, e: int, pn: int) {
    && 0 <= s <= pn && e <= 2 * s && (s == pn ==> e < 0)
    && (e < 0 ==> s >= 1 && 0 <= e + 2 * s - 1 <= 2 * (s - 1))
  }

  lemma StepSizes(s1: int, pl: int, ph: int, q: int, e: int, a: int, pn: int)
    requires pn == pl * ph && 0 <= s1 < ph && 0 <= q <= pl && pl > 0 && ph > 0
    requires a == (s1 * pl + q) * (s1 * pl + q) + e && a < pn * pn
    ensures 0 <= s1 * pl + q <= pn && (s1 * pl + q == pn ==> e < 0)
  {
    MulNonNeg(s1, pl);
    MulLe(s1 + 1, ph, pl);
    assert (s1 + 1) * pl == s1 * pl + pl;
  }

  /** The facts that connect the recursive root, the quotient part and the final adjustment. */
  lemma KaratsubaStep(a: int, s1: int, r1: int, c1: int, c0: int, q: int, u: int, pl: int, ph: int, pn: int)
    requires pn == pl * ph && 1 <= pl <= ph && s1 < ph && ph <= 2 * s1 && 0 <= r1 <= 2 * s1 && 0 <= c1 < pl && 0 <= c0 < pl
    requires a == (s1 * s1 + r1) * (pl * pl) + c1 * pl + c0 && a < pn * pn && QuotientPart(r1, c1, s1, pl, q, u)
    ensures 0 <= q <= pl
    ensures var s := StepRoot(s1, pl, q); var e := StepRem(u, pl, c0, q);
            a == s * s + e && StepOk(s, e, pn)
  {
    StepIdentity(s1, r1, pl, c1, c0, q, u);
    StepRange(s1, r1, pl, c1, c0, q, u);
    StepSizes(s1, pl, ph, q, u * pl + c0 - q * q, a, pn);
  }

  /** One level of the recursion, on limb sequences: the root of the top half, then q and u. */
  lemma KaratsubaFacts(a: seq<limb>, sv: seq<limb>, l: nat, h: nat, r1: int, q: int, u: int)
    requires 1 <= l <= h && |a| == 2 * (l + h) && |sv| == h && a[|a| - 1] >= HALF / 2
    requires IsRoot(Val(a[2 * l..]), Val(sv), r1) && QuotientPart(r1, Val(a[l..2 * l]), Val(sv), Pow(B, l), q, u)
    ensures 0 <= q <= Pow(B, l)
    ensures var s := StepRoot(Val(sv), Pow(B, l), q); var e := StepRem(u, Pow(B, l), Val(a[..l]), q);
            Val(a) == s * s + e && StepOk(s, e, Pow(B, l + h))
  {
    hide Val, Pow, IsRoot, QuotientPart, StepRoot, StepRem, StepOk;
    var n := l + h;
    RootNormalized(a[2 * l..], sv, r1);
    RootParts(Val(a[2 * l..]), Val(sv), r1);
    RootIdentity(Val(a[2 * l..]), Val(sv), r1);
    RadicandParts(a, l, h);
    ValBound(a);
    ValBound(a[..l]);
    ValBound(a[l..2 * l]);
    ValBound(sv);
    PowPos(B, l);
    PowMono(B, l, h);
    PowAdd(B, l, h);
    PowAdd(B, n, n);
    KaratsubaStep(Val(a), Val(sv), r1, Val(a[l..2 * l]), Val(a[..l]), q, u, Pow(B, l), Pow(B, h), Pow(B, n));
  }

  /** The step after the recursive call on the top half. */
  method RootStep(tabs: array<limb>, os: nat, taba: array<limb>, oa: nat, l: nat, h: nat, tmp: array<limb>, qh0: limb, ghost a: seq<limb>)
    returns (rh: limb)
    requires 1 <= l <= h <= l + 1 && os + l + h <= tabs.Length && oa + 2 * (l + h) <= taba.Length && tmp.Length >= l + 1
    requires tabs != taba && tabs != tmp && taba != tmp && 3 * (l + h) + 8 <= MAX_LEN
    requires |a| == 2 * (l + h) && a[|a| - 1] >= HALF / 2
    requires taba[oa..oa + l] == a[..l] && taba[oa + l..oa + 2 * l] == a[l..2 * l]
    requires IsRoot(Val(a[2 * l..]), Val(tabs[os + l..os + l + h]), Tall(taba[..], oa + 2 * l, h, qh0))
    modifies tabs, taba, tmp
    ensures rh <= 1 && IsRoot(Val(a), Val(tabs[os..os + l + h]), Tall(taba[..], oa, l + h, rh))
    ensures SameOutside(old(tabs[..]), tabs[..], os, os + l + h)
    ensures SameOutside(old(taba[..]), taba[..], oa, oa + 2 * (l + h))
  {
    hide Val, Pow, Tall, IsRoot, QuotientPart, Lo, StepRoot, StepRem, StepOk, SameOutside;
    ghost var t1, s1 := taba[..], tabs[..];
    ghost var r1, sv := Tall(t1, oa + 2 * l, h, qh0), tabs[os + l..os + l + h];
    RootNormalized(a[2 * l..], sv, r1);
    RootParts(Val(a[2 * l..]), Val(sv), r1);
    assert tabs[os + l + h - 1] == sv[h - 1];
    var qh: limb, rh0: limb := RootQuotient(tabs, os, taba, oa, l, h, tmp, qh0);
    ghost var t2, s2 := taba[..], tabs[..];
    WindowSame(s1, s2, os, os + l, os + l, h);
    assert tabs[os + l..os + l + h] == s2[os + l..os + l + h];
    WindowSame(t1, t2, oa + l, oa + 2 * l + h, oa, l);
    assert taba[oa..oa + l] == t2[oa..oa + l];
    ghost var q, u := Tall(s2, os, l, qh), Tall(t2, oa + l, h, rh0);
    KaratsubaFacts(a, sv, l, h, r1, q, u);
    rh := FinishRoot(tabs, os, taba, oa, l, h, qh, rh0, Val(sv), q, u, Val(a[..l]));
    SameWiden(s1, s2, os, os + l, os, os + l + h);
    SameWiden(t1, t2, oa + l, oa + 2 * l + h, oa, oa + 2 * (l + h));
    SameTrans(s1, s2, tabs[..], os, os + l + h);
    SameTrans(t1, t2, taba[..], oa, oa + 2 * (l + h));
  }

  /** mp_sqrtrem_rec: the root in tabs, the low limbs of the remainder in taba, its top limb returned. */
  method SqrtRec(tabs: array<limb>, os: nat, taba: array<limb>, oa: nat, n: nat, tmp: array<limb>) returns (rh: limb)
    requires n >= 1 && os + n <= tabs.Length && oa + 2 * n <= taba.Length && tmp.Length >= n / 2 + 1
    requires tabs != taba && tabs != tmp && taba != tmp && 3 * n + 8 <= MAX_LEN
    requires taba[oa + 2 * n - 1] >= HALF / 2
    modifies tabs, taba, tmp
    ensures rh <= 1 && IsRoot(old(Val(taba[oa..oa + 2 * n])), Val(tabs[os..os + n]), Tall(taba[..], oa, n, rh))
    ensures SameOutside(old(tabs[..]), tabs[..], os, os + n)
    ensures SameOutside(old(taba[..]), taba[..], oa, oa + 2 * n)
    decreases n, 1
  {
    hide Val, Pow, Tall, IsRoot, Lo, SameOutside;
    if n == 1 {
      rh := SqrtOne(tabs, os, taba, oa);
      return;
    }
    ghost var t0, s0 := taba[..], tabs[..];
    ghost var a := t0[oa..oa + 2 * n];
    var l := n / 2;
    assert a[|a| - 1] == taba[oa + 2 * n - 1];
    var qh := SqrtTop(tabs, os, taba, oa, n, tmp, a);
    ghost var t1, s1 := taba[..], tabs[..];
    rh := RootStep(tabs, os, taba, oa, l, n - l, tmp, qh, a);
    SameTrans(s0, s1, tabs[..], os, os + n);
    SameTrans(t0, t1, taba[..], oa, oa + 2 * n);
  }

  /** The recursive call on the top half of the radicand a. */
  method SqrtTop(tabs: array<limb>, os: nat, taba: array<limb>, oa: nat, n: nat, tmp: array<limb>, ghost a: seq<limb>) returns (qh: limb)
    requires n >= 2 && os + n <= tabs.Length && oa + 2 * n <= taba.Length && tmp.Length >= n / 2 + 1
    requires tabs != taba && tabs != tmp && taba != tmp && 3 * n + 8 <= MAX_LEN
    requires a == taba[oa..oa + 2 * n] && a[2 * n - 1] >= HALF / 2
    modifies tabs, taba, tmp
    ensures var l := n / 2;
            && taba[oa..oa + l] == a[..l] && taba[oa + l..oa + 2 * l] == a[l..2 * l]
            && IsRoot(Val(a[2 * l..]), Val(tabs[os + l..os + n]), Tall(taba[..], oa + 2 * l, n - l, qh))
    ensures SameOutside(old(tabs[..]), tabs[..], os, os + n)
    ensures SameOutside(old(taba[..]), taba[..], oa, oa + 2 * n)
    decreases n, 0
  {
    hide Val, Pow, Tall, IsRoot, Lo, SameOutside;
    ghost var t0, s0 := taba[..], tabs[..];
    var l := n / 2;
    var h := n - l;
    SubWindow(t0, oa, 2 * n, 2 * l, 2 * n);
    assert a[2 * l..] == a[2 * l..2 * n] == taba[oa + 2 * l..oa + 2 * l + 2 * h];
    qh := SqrtRec(tabs, os + l, taba, oa + 2 * l, h, tmp);
    ghost var t1, s1 := taba[..], tabs[..];
    LowWindows(t0, t1, oa, l, n);
    assert taba[oa..oa + l] == t1[oa..oa + l] && taba[oa + l..oa + 2 * l] == t1[oa + l..oa + 2 * l];
    SameWiden(s0, s1, os + l, os + n, os, os + n);
    SameWiden(t0, t1, oa + 2 * l, oa + 2 * n, oa, oa + 2 * n);
  }

  /** The low parts of the radicand are not touched by the recursive call on its top half. */
  lemma LowWindows(t0: seq<limb>, t1: seq<limb>, oa: nat, l: nat, n: nat)
    requires 2 * l <= n && oa + 2 * n <= |t0| && SameOutside(t0, t1, oa + 2 * l, oa + 2 * n)
    ensures |t1| == |t0|
    ensures t1[oa..oa + l] == t0[oa..oa + 2 * n][..l] && t1[oa + l..oa + 2 * l] == t0[oa..oa + 2 * n][l..2 * l]
  {
    SubWindow(t0, oa, 2 * n, 0, l);
    SubWindow(t0, oa, 2 * n, l, 2 * l);
    WindowSame(t0, t1, oa + 2 * l, oa + 2 * n, oa, l);
    WindowSame(t0, t1, oa + 2 * l, oa + 2 * n, oa + l, l);
  }

  lemma RootIdentity(n: int, s: int, r: int)
    requires IsRoot(n, s, r)
    ensures n == s * s + r
  {}

  /** The base case of the recursion: mp_sqrtrem2. */
  method SqrtOne(tabs: array<limb>, os: nat, taba: array<limb>, oa: nat) returns (rh: limb)
    requires os < tabs.Length && oa + 2 <= taba.Length && tabs != taba && taba[oa + 1] >= HALF / 2
    modifies tabs, taba
    ensures rh <= 1 && IsRoot(old(Val(taba[oa..oa + 2])), Val(tabs[os..os + 1]), Tall(taba[..], oa, 1, rh))
    ensures SameOutside(old(tabs[..]), tabs[..], os, os + 1)
    ensures SameOutside(old(taba[..]), taba[..], oa, oa + 2)
  {
    hide Val, Pow, Tall, IsRoot;
    assert taba[oa..oa + 2] == [taba[oa]] + [taba[oa + 1]];
    ValCons(taba[oa], [taba[oa + 1]]);
    ValOne(taba[oa + 1]);
    var s, r0: limb;
    s, r0, rh := SqrtRem2(taba[oa + 1], taba[oa]);
    tabs[os] := s;
    taba[oa] := r0;
    assert tabs[os..os + 1] == [s] && taba[oa..oa + 1] == [r0];
    ValOne(s);
    ValOne(r0);
    PowUnitB();
    TallIs(taba[..], oa, 1, rh, taba[oa..oa + 1]);
  }

  lemma RootValue(low: int, qh: int, s1: int, hi: int, cy: int, pl: int, ph: int, q: int)
    requires q == low + qh * pl && hi + cy * ph == s1 + qh
    ensures low + pl * hi + cy * (pl * ph) == s1 * pl + q
  {
    assert pl * (hi + cy * ph) == pl * hi + cy * (pl * ph);
    assert pl * (s1 + qh) == s1 * pl + qh * pl;
  }

  lemma RemainderValue(c0: int, hi: int, rh: int, u: int, pl: int, ph: int)
    requires u == hi + rh * ph
    ensures c0 + pl * hi + rh * (pl * ph) == u * pl + c0
  {
    assert pl * (hi + rh * ph) == pl * hi + rh * (pl * ph);
    MulSides(u, pl);
  }

  /** Second half of the recursive step: add the high bit of q to the root, subtract q^2, adjust. */
  method FinishRoot(tabs: array<limb>, os: nat, taba: array<limb>, oa: nat, l: nat, h: nat, qh: limb, rh0: limb,
                    ghost s1: int, ghost q: int, ghost u: int, ghost c0: int) returns (rh: limb)
    requires 1 <= l <= h <= l + 1 && os + l + h <= tabs.Length && oa + 2 * (l + h) <= taba.Length && tabs != taba && 2 * l <= MAX_LEN
    requires qh <= 1 && rh0 <= 1 && Val(tabs[os + l..os + l + h]) == s1
    requires Tall(tabs[..], os, l, qh) == q <= Pow(B, l)
    requires Tall(taba[..], oa + l, h, rh0) == u && Val(taba[oa..oa + l]) == c0
    requires StepOk(StepRoot(s1, Pow(B, l), q), StepRem(u, Pow(B, l), c0, q), Pow(B, l + h))
    modifies tabs, taba
    ensures var s := StepRoot(s1, Pow(B, l), q); var e := StepRem(u, Pow(B, l), c0, q);
            rh <= 1 && IsRoot(s * s + e, Val(tabs[os..os + l + h]), Tall(taba[..], oa, l + h, rh))
    ensures SameOutside(old(tabs[..]), tabs[..], os, os + l + h)
    ensures SameOutside(old(taba[..]), taba[..], oa, oa + 2 * (l + h))
  {
    hide Val, Pow, Tall, IsRoot, Lo;
    var n := l + h;
    ghost var s0, t0, pl, ph := tabs[..], taba[..], Pow(B, l), Pow(B, h);
    PowAdd(B, l, h);
    assert s0[os..os + l] == tabs[os..os + l];
    TallIs(s0, os, l, qh, s0[os..os + l]);
    TallIs(t0, oa + l, h, rh0, t0[oa + l..oa + l + h]);
    WindowSplit(t0, oa, l, h);
    assert t0[oa..oa + l] == taba[oa..oa + l];
    TallIs(t0, oa, n, rh0, t0[oa..oa + n]);
    RemainderValue(c0, Val(t0[oa + l..oa + n]), rh0, u, pl, ph);
    var cy := AddUi(tabs, os + l, h, qh);
    ghost var s2 := tabs[..];
    WindowSame(s0, s2, os + l, os + n, os, l);
    WindowSplit(s2, os, l, h);
    assert s2[os + l..os + n] == tabs[os + l..os + n] && s2[os..os + n] == tabs[os..os + n];
    RootValue(Val(s0[os..os + l]), qh, s1, Val(s2[os + l..os + n]), cy, pl, ph, q);
    TallIs(s2, os, l, qh, s2[os..os + l]);
    var rh1: limb;
    ghost var top: int;
    rh1, top := SubtractSquare(tabs, os, taba, oa, l, h, qh, rh0);
    rh := AdjustRoot(tabs, os, taba, oa, n, rh1, top, cy, StepRoot(s1, pl, q), StepRem(u, pl, c0, q));
  }

  /** mp_sqrtrem: s = floor(sqrt a) and r = a - s^2 for every a of 2n limbs whose top limb is at least B / 4. */
  method SqrtRem(tabs: array<limb>, taba: array<limb>, n: nat) returns (rh: limb)
    requires n >= 1 && n <= tabs.Length && 2 * n <= taba.Length && tabs != taba && 3 * n + 8 <= MAX_LEN
    requires taba[2 * n - 1] >= HALF / 2
    modifies tabs, taba
    ensures var a := old(Val(taba[..2 * n])); var s := Val(tabs[..n]);
            s * s <= a < (s + 1) * (s + 1) && Val(taba[..n + 1]) == a - s * s && taba[n] == rh
  {
    hide Val, Pow, Tall, IsRoot;
    var tmp := new limb[n / 2 + 1];
    assert taba[0..2 * n] == taba[..2 * n];
    ghost var a := Val(taba[..2 * n]);
    rh := SqrtRec(tabs, 0, taba, 0, n, tmp);
    TallIs(taba[..], 0, n, rh, taba[..n]);
    taba[n] := rh;
    assert taba[..n + 1] == taba[..n] + [rh];
    ValSnoc(taba[..n], rh);
    assert tabs[0..n] == tabs[..n];
    RootBounds(a, Val(tabs[..n]), Val(taba[..n + 1]));
  }

  lemma RootBounds(a: int, s: int, r: int)
    requires IsRoot(a, s, r)
    ensures s * s <= a < (s + 1) * (s + 1) && r == a - s * s
  {
    assert (s + 1) * (s + 1) == s * s + 2 * s + 1;
  }
}
