/** The Newton step of mp_recip, without its recursive calls. */
module MpRecip {
  import opened Arith
  import opened Word
  import opened Limbs
  import opened Bits
  import opened NttSize
  import opened MpBase
  import opened MpMul
  import opened MpDiv1
  import opened MpDivBase

  /** r is a reciprocal of a at scale n = B^(2k): a r < n < a (r + 2). */
  ghost predicate IsRecip(a: int, r: int, n: int) {
    Mul(a, r) < n < Mul(a, r + 2)
  }

  lemma RecipIs(a: int, r: int, n: int)
    ensures IsRecip(a, r, n) <==> a * r < n < a * (r + 2)
  {}

  // ----- the numbers behind one Newton step -----

  /** (g - t)(g + t) = g^2 - t^2, in the shape the two bounds need. */
  lemma Squares(g: int, t: int, y: int)
    requires y == g - t
    ensures y * g + t * y == g * g - t * t
  {
    assert (g - t) * (g + t) == g * g - t * t;
    assert y * (g + t) == y * g + t * y;
  }

  lemma Scales(pl: int, ph: int, pn: int)
    requires pn == pl * ph
    ensures pn * ph == pl * (ph * ph)
    ensures (pl * (ph * ph)) * (pl * (ph * ph)) == (pn * pn) * (ph * ph)
  {
    assert (pl * ph) * ph == pl * (ph * ph);
    assert (pn * ph) * (pn * ph) == (pn * pn) * (ph * ph);
  }

  /** The combined value times the divisor, scaled by H = ph^2. */
  lemma Combined(a: int, x: int, v: int, pl: int, h: int, y: int)
    requires y == a * x
    ensures (a * (x * pl + v)) * h == y * (pl * h) + a * (v * h)
  {
    assert a * (x * pl + v) == y * pl + a * v by {
      assert a * (x * pl + v) == a * (x * pl) + a * v;
      assert a * (x * pl) == (a * x) * pl;
    }
    assert (y * pl + a * v) * h == (y * pl) * h + (a * v) * h;
    assert (y * pl) * h == y * (pl * h);
    assert (a * v) * h == a * (v * h);
  }

  lemma CancelLess(x: int, y: int, h: int)
    requires h > 0 && x * h < y * h
    ensures x < y
  {
    if x >= y { MulLe(y, x, h); }
  }

  lemma NewtonUpper(a: int, x: int, t: int, v: int, pl: int, ph: int, pn: int)
    requires pn == pl * ph && ph > 0 && a > 0 && t > 0 && t == pn * ph - a * x && v * (ph * ph) <= t * x
    ensures a * (x * pl + v) < pn * pn
  {
    var h := ph * ph;
    var g, y := pl * h, a * x;
    Scales(pl, ph, pn);
    Combined(a, x, v, pl, h, y);
    MulLe(v * h, t * x, a);
    assert a * (t * x) == t * y;
    Squares(g, t, y);
    assert t * t > 0;
    CancelLess(a * (x * pl + v), pn * pn, h);
  }

  lemma SquareLe(t: int, a: int)
    requires 0 < t < 2 * a
    ensures t * t <= 4 * (a * a)
  {
    MulLe(t, 2 * a, t);
    MulLe(t, 2 * a, 2 * a);
    assert (2 * a) * (2 * a) == 4 * (a * a);
  }

  lemma CrossLe(a: int, x: int, pl: int, ph: int, pn: int)
    requires pn == pl * ph && pl > 0 && a > 0 && x <= 2 * ph
    ensures pl * (a * x) <= 2 * (a * pn)
  {
    MulNonNeg(pl, a);
    MulLe(x, 2 * ph, pl * a);
    assert pl * (a * x) == (pl * a) * x;
    assert (pl * a) * (2 * ph) == 2 * (a * (pl * ph));
  }

  lemma SixLe(a: int, pl: int, ph: int, pn: int)
    requires pn == pl * ph && ph > 0 && a > 0 && 6 * pl <= ph
    ensures 6 * (a * pn) <= a * (ph * ph)
  {
    MulLe(6 * pl, ph, ph);
    assert (6 * pl) * ph == 6 * (pl * ph);
    MulLe(6 * pn, ph * ph, a);
    assert a * (6 * pn) == 6 * (a * pn);
  }

  lemma NewtonSlack(a: int, x: int, t: int, pl: int, ph: int, pn: int)
    requires pn == pl * ph && pl > 0 && ph > 0 && 0 < a <= pn && 0 < t < 2 * a && 0 <= x <= 2 * ph && 6 * pl <= ph
    ensures t * t + pl * (a * x) <= a * (ph * ph)
  {
    SquareLe(t, a);
    MulLe(a, pn, a);
    CrossLe(a, x, pl, ph, pn);
    SixLe(a, pl, ph, pn);
  }

  lemma ScaledUp(a: int, v: int, h: int, tx: int, px: int)
    requires a > 0 && (v + 1) * h > tx - px
    ensures a * ((v + 2) * h) >= a * tx - a * px + a + a * h
  {
    MulLe(tx - px + 1, (v + 1) * h, a);
    assert a * (tx - px + 1) == a * tx - a * px + a;
    assert (v + 2) * h == (v + 1) * h + h;
    assert a * ((v + 1) * h + h) == a * ((v + 1) * h) + a * h;
  }

  lemma Regroup(a: int, t: int, x: int, y: int)
    requires y == a * x
    ensures a * (t * x) == t * y
  {
    assert a * (t * x) == t * (a * x);
  }

  lemma NewtonLower(a: int, x: int, t: int, v: int, pl: int, ph: int, pn: int)
    requires pn == pl * ph && pl > 0 && ph > 0 && 0 < a <= pn && 0 < t < 2 * a && t == pn * ph - a * x
    requires 0 <= x <= 2 * ph && 6 * pl <= ph && (v + 1) * (ph * ph) > t * x - pl * x
    ensures pn * pn < a * (x * pl + v + 2)
  {
    var h, y := ph * ph, a * x;
    Scales(pl, ph, pn);
    Combined(a, x, v + 2, pl, h, y);
    ScaledUp(a, v, h, t * x, pl * x);
    Regroup(a, t, x, y);
    Regroup(a, pl, x, y);
    Squares(pl * h, t, y);
    NewtonSlack(a, x, t, pl, ph, pn);
    LowerSum(a * (x * pl + (v + 2)), pn * pn, h, y * (pl * h), a * ((v + 2) * h), t * y, pl * y, a, a * h, t * t);
  }

  lemma LowerSum(r: int, q: int, h: int, yg: int, e: int, ty: int, py: int, a: int, ah: int, tt: int)
    requires h > 0 && a > 0 && r * h == yg + e && e >= ty - py + a + ah && yg + ty == q * h - tt && tt + py <= ah
    ensures q < r
  {
    CancelLess(q, r, h);
  }

  /** The two truncations of the Newton correction: tm = floor(t / pl), v = floor(tm x / w), with w pl = ph^2. */
  lemma Truncations(t: int, tm: int, x: int, v: int, u: int, pl: int, w: int, hh: int)
    requires pl > 0 && w > 0 && x >= 0 && w * pl == hh && u == tm * x
    requires tm * pl <= t < tm * pl + pl && v * w <= u < v * w + w
    ensures v * hh <= t * x && (x > 0 ==> (v + 1) * hh > t * x - pl * x)
  {
    assert (v * w) * pl == v * hh && ((v + 1) * w) * pl == (v + 1) * hh;
    assert (v + 1) * w == v * w + w;
    MulLe(v * w, u, pl);
    assert u * pl == (tm * pl) * x;
    MulLe(tm * pl, t, x);
    MulLe(u + 1, (v + 1) * w, pl);
    assert (u + 1) * pl == u * pl + pl;
    MulLe(t - pl, tm * pl, x);
    assert (t - pl) * x == t * x - pl * x;
  }

  lemma StrictTimes(t: int, b: int, x: int)
    requires t < b && x >= 0
    ensures x > 0 ==> t * x < b * x
    ensures x == 0 ==> t * x == 0
  {}

  /** The correction is small: fewer than 4 units at limb l. */
  lemma CorrectionSmall(a: int, x: int, t: int, v: int, pl: int, ph: int, pn: int)
    requires pn == pl * ph && pl > 0 && ph > 0 && 0 < a <= pn && 0 < t < 2 * a && 0 <= x <= 2 * ph && v * (ph * ph) <= t * x
    ensures v < 4 * pl
  {
    MulLe(t, 2 * pn, x);
    MulLe(x, 2 * ph, 2 * pn);
    assert (2 * pn) * (2 * ph) == 4 * (pn * ph);
    Scales(pl, ph, pn);
    assert (4 * pl) * (ph * ph) == 4 * (pl * (ph * ph));
    StrictTimes(t, 2 * pn, x);
    CancelLess(v, 4 * pl, ph * ph);
  }

  /** A reciprocal of a normalized n-limb number has n + 1 limbs with top limb one. */
  lemma RecipRange(a: int, r: int, p: int)
    requires 0 < a < p && 2 * a >= p && a * r < p * p < a * (r + 2)
    ensures p <= r < 2 * p
  {
    assert a * (2 * p) == (2 * a) * p;
    assert (p - 1) * (p + 1) == p * p - 1;
    MulLe(p, 2 * a, p);
    MulLe(a, p - 1, p + 1);
    if r >= 2 * p { MulLe(2 * p, r, a); }
    if r <= p - 1 { MulLe(r + 2, p + 1, a); }
  }

  // ----- from the reciprocal of the top half to the residue -----

  /** The scaled reciprocal of the top half: before and after the correction loop. */
  lemma TopHalf(a: int, ah: int, al: int, x: int, pl: int, ph: int, pn: int)
    requires pn == pl * ph && a == al + pl * ah && 0 <= al && pl > 0 && x >= 0 && ph * ph < ah * (x + 2)
    ensures pn * ph < a * (x + 2)
  {
    Scales(pl, ph, pn);
    MulLe(ph * ph + 1, ah * (x + 2), pl);
    assert pl * (ph * ph + 1) == pl * (ph * ph) + pl;
    assert pl * (ah * (x + 2)) == (pl * ah) * (x + 2);
    MulNonNeg(al, x + 2);
    assert (al + pl * ah) * (x + 2) == al * (x + 2) + (pl * ah) * (x + 2);
  }

  /** One step of the correction loop. */
  lemma LowerOnce(a: int, x: int, pn: int, ph: int)
    requires 0 < a < pn && ph > 0 && x >= ph && a * x >= pn * ph
    ensures x - 1 >= ph && a * (x - 1) == a * x - a && pn * ph < a * (x - 1 + 2)
  {
    assert a * (x - 1) == a * x - a;
    assert a * (x + 1) == a * x + a;
    MulLe(a + 1, pn, ph);
    assert (a + 1) * ph == a * ph + ph;
    assert x == ph ==> a * x == a * ph;
  }

  /** a borrow-free subtraction on a window split at limb n. */
  lemma SplitSub(lo0: int, hi0: int, lo1: int, hi1: int, c: int, k: int, p: int, q: int, a: int)
    requires lo1 - c * p == lo0 - a && hi1 - k * q == hi0 - c && 0 <= lo1 < p && 0 <= hi1 < q && 0 <= k
    requires lo0 + p * hi0 >= a && p > 0
    ensures k == 0 && lo1 + p * hi1 == lo0 + p * hi0 - a
  {
    assert p * (hi1 - k * q) == p * hi1 - k * (p * q);
    assert p * (hi0 - c) == p * hi0 - c * p;
    MulLe(hi1 + 1, q, p);
    assert p * (hi1 + 1) == p * hi1 + p;
    if k >= 1 { MulLe(1, k, p * q); }
  }

  lemma TopNonZero(s: seq<limb>, n: nat)
    requires |s| == n + 1
    ensures s[n] != 0 <==> Val(s) >= Pow(B, n)
  {
    hide Val, Pow;
    assert s[..n + 1] == s;
    ValNext(s, n);
    ValBound(s[..n]);
    PowPos(B, n);
    if s[n] != 0 { MulLe(1, s[n], Pow(B, n)); }
  }

  /** Negation modulo B p followed by the increment of the top limb gives p - t. */
  lemma NegTop(s: seq<limb>, n: nat, t: int, k: limb)
    requires |s| == n + 1 && 0 < t < Pow(B, n) && k <= 1 && Val(s) - k * Pow(B, n + 1) == -t
    ensures s[n] == B - 1 && Val(s[..n]) == Pow(B, n) - t
  {
    hide Val, Pow;
    assert s[..n + 1] == s;
    ValNext(s, n);
    ValBound(s[..n]);
    PowNextB(n);
    var p := Pow(B, n);
    assert k == 1;
    assert (B - 2) * p == B * p - 2 * p;
    assert (B - 1) * p == B * p - p;
    if s[n] <= B - 2 { MulLe(s[n], B - 2, p); }
  }

  /** What the correction loop keeps: t = a x, x still has top limb one, and x is not too small. */
  ghost predicate ResidueInv(a: int, x: int, t: int, pn: int, ph: int) {
    t == a * x && x >= ph && pn * ph < a * (x + 2)
  }

  /** The middle part of mp_recip: t = a x, lower x until t < B^(n + h), then t = B^(n + h) - a x. */
  method Residue(tabt: array<limb>, tabx: array<limb>, ox: nat, a: seq<limb>, h: nat)
    requires |a| >= 1 && Normalized(a[|a| - 1]) && tabt != tabx && ox + h + 1 <= tabx.Length && tabt.Length == |a| + h + 1
    requires h >= 1 && |a| + h + 1 <= MAX_LEN
    requires Val(tabx[ox..ox + h + 1]) >= Pow(B, h)
    requires Pow(B, |a|) * Pow(B, h) < Val(a) * (Val(tabx[ox..ox + h + 1]) + 2)
    modifies tabt, tabx
    ensures SameOutside(old(tabx[..]), tabx[..], ox, ox + h + 1)
    ensures Pow(B, h) <= Val(tabx[ox..ox + h + 1]) <= old(Val(tabx[ox..ox + h + 1]))
    ensures Val(tabt[..]) == Pow(B, |a|) * Pow(B, h) - Val(a) * Val(tabx[ox..ox + h + 1])
    ensures 0 < Val(tabt[..]) < 2 * Val(a)
  {
    hide Val, Pow, Lo;
    var n := |a|;
    ghost var av, pn, ph := Val(a), Pow(B, n), Pow(B, h);
    ghost var x0 := Val(tabx[ox..ox + h + 1]);
    NormalizedBound(a);
    PowAdd(B, n, h);
    PowPos(B, h);
    Multiply(tabt, 0, a, tabx[ox..ox + h + 1]);
    assert tabt[..] == tabt[0..n + h + 1];
    TopNonZero(tabt[..], n + h);
    while tabt[n + h] != 0
      invariant SameOutside(old(tabx[..]), tabx[..], ox, ox + h + 1)
      invariant ResidueInv(av, Val(tabx[ox..ox + h + 1]), Val(tabt[..]), pn, ph)
      invariant tabt[n + h] != 0 <==> Val(tabt[..]) >= pn * ph
      invariant Val(tabx[ox..ox + h + 1]) <= x0
      decreases Val(tabt[..])
    {
      LowerStep(tabt, tabx, ox, a, h);
      TopNonZero(tabt[..], n + h);
    }
    ghost var x, t := Val(tabx[ox..ox + h + 1]), Val(tabt[..]);
    ResiduePositive(av, x, t, pn, ph);
    assert tabt[..] == tabt[0..n + h + 1];
    var k := Neg(tabt, 0, n + h + 1, 0);
    assert tabt[..] == tabt[0..n + h + 1];
    ghost var s := tabt[..];
    NegTop(s, n + h, t, k);
    LoIs(B, 1, 0);
    tabt[n + h] := Lo(tabt[n + h] as int + 1);
    assert tabt[..] == s[..n + h] + [0];
    ValSnoc(s[..n + h], 0);
  }

  lemma ResiduePositive(a: int, x: int, t: int, pn: int, ph: int)
    requires 0 < a && ph > 0 && ResidueInv(a, x, t, pn, ph)
    ensures t > 0 && pn * ph - t < 2 * a
  {
    MulLe(1, x, a);
    assert a * (x + 2) == a * x + 2 * a;
  }

  /** The loop body: x is decremented and a subtracted from t. */
  method LowerStep(tabt: array<limb>, tabx: array<limb>, ox: nat, a: seq<limb>, h: nat)
    requires |a| >= 1 && 0 < Val(a) < Pow(B, |a|) && tabt != tabx && ox + h + 1 <= tabx.Length && tabt.Length == |a| + h + 1
    requires ResidueInv(Val(a), Val(tabx[ox..ox + h + 1]), Val(tabt[..]), Pow(B, |a|), Pow(B, h))
    requires Val(tabt[..]) >= Pow(B, |a|) * Pow(B, h)
    modifies tabt, tabx
    ensures SameOutside(old(tabx[..]), tabx[..], ox, ox + h + 1)
    ensures Val(tabx[ox..ox + h + 1]) == old(Val(tabx[ox..ox + h + 1])) - 1
    ensures Val(tabt[..]) == old(Val(tabt[..])) - Val(a)
    ensures ResidueInv(Val(a), Val(tabx[ox..ox + h + 1]), Val(tabt[..]), Pow(B, |a|), Pow(B, h))
  {
    hide Val, Pow;
    var n := |a|;
    ghost var av, pn, ph, x, t := Val(a), Pow(B, n), Pow(B, h), Val(tabx[ox..ox + h + 1]), Val(tabt[..]);
    PowPos(B, h);
    LowerOnce(av, x, pn, ph);
    var k := SubUi(tabx, ox, h + 1, 1);
    ValBound(tabx[ox..ox + h + 1]);
    NoBorrow(Val(tabx[ox..ox + h + 1]), k, Pow(B, h + 1), x, 1);
    ghost var s0 := tabt[..];
    ValSplit(s0, n);
    assert s0[..n] == tabt[0..n];
    var c := Sub(tabt, 0, a, 0);
    ghost var mid := tabt[..];
    assert mid[n..] == s0[n..] && tabt[n..n + h + 1] == mid[n..] && tabt[0..n] == mid[..n];
    var k2 := SubUi(tabt, n, h + 1, c);
    ghost var s1 := tabt[..];
    assert s1[..n] == mid[..n] && tabt[n..n + h + 1] == s1[n..];
    ValSplit(s1, n);
    ValBound(s1[..n]);
    ValBound(s1[n..]);
    PowAdd(B, n, h);
    PowPos(B, n);
    MulNonNeg(pn, ph);
    EnoughLeft(av, pn, ph, t);
    SplitSub(Val(s0[..n]), Val(s0[n..]), Val(s1[..n]), Val(s1[n..]), c, k2, pn, Pow(B, h + 1), av);
  }

  lemma EnoughLeft(a: int, pn: int, ph: int, t: int)
    requires 0 < a < pn && ph >= 1 && t >= pn * ph
    ensures t >= a
  {
    MulLe(1, ph, pn);
  }

  // ----- the combination -----

  /** The last part of mp_recip: the high limbs of the correction are added to the scaled x. */
  method Combine(tabr: array<limb>, off: nat, u: seq<limb>, l: nat, h: nat, ghost a: int)
    requires h > l >= 1 && off + l + h + 1 <= tabr.Length && |u| == 3 * h + 2
    requires Val(u[2 * h - l..]) < 4 * Pow(B, l) && tabr[off + l + h] == 1
    requires Val(tabr[off + l..off + l + h + 1]) * Pow(B, l) + Val(u[2 * h - l..]) < 2 * Pow(B, l + h)
    modifies tabr
    ensures SameOutside(old(tabr[..]), tabr[..], off, off + l + h + 1)
    ensures tabr[off + l + h] == 1
    ensures Val(tabr[off..off + l + h + 1]) == old(Val(tabr[off + l..off + l + h + 1])) * Pow(B, l) + Val(u[2 * h - l..])
  {
    hide Val, Pow;
    var k := 2 * h - l;
    ghost var t0 := tabr[..];
    ghost var xs := tabr[off + l..off + l + h + 1];
    CopyIn(tabr, off, u[k..k + l]);
    ghost var t1 := tabr[..];
    assert t1[off..off + l] == u[k..k + l];
    WindowSame(t0, t1, off, off + l, off + l, h);
    assert tabr[off + l..off + l + h] == t1[off + l..off + l + h] && xs[..h] == t0[off + l..off + l + h];
    var c := Add(tabr, off + l, u[2 * h..3 * h], 0);
    ghost var t2 := tabr[..];
    WindowSame(t1, t2, off + l, off + l + h, off, l);
    ghost var res, v := t2[off..off + l + h + 1], u[k..];
    assert tabr[off + l..off + l + h] == t2[off + l..off + l + h] && tabr[off..off + l + h + 1] == res;
    SubWindows(res, t2, off, l, h);
    SubWindows(v, u, k, l, h);
    CombineValue(res, xs, v, l, h, c);
  }

  /** A window that does not meet the changed range keeps its limbs. */
  lemma WindowSame(s: seq<limb>, t: seq<limb>, lo: int, hi: int, o: nat, n: nat)
    requires SameOutside(s, t, lo, hi) && o + n <= |s| && (hi <= o || o + n <= lo)
    ensures |s| == |t| && s[o..o + n] == t[o..o + n]
  {
    var a, b := s[o..o + n], t[o..o + n];
    forall u | 0 <= u < n ensures a[u] == b[u] {}
  }

  lemma SubWindows(w: seq<limb>, t: seq<limb>, o: nat, l: nat, h: nat)
    requires l + h <= |w| && o + |w| <= |t| && w == t[o..o + |w|]
    ensures w[..l] == t[o..o + l] && w[l..l + h] == t[o + l..o + l + h]
  {}

  lemma CombineValue(r: seq<limb>, xs: seq<limb>, v: seq<limb>, l: nat, h: nat, c: limb)
    requires |r| == l + h + 1 && |xs| == h + 1 && |v| == l + h + 2 && h >= 1 && xs[h] == r[l + h] == 1 && c <= 1
    requires r[..l] == v[..l] && Val(r[l..l + h]) + c * Pow(B, h) == Val(xs[..h]) + Val(v[l..l + h])
    requires Val(v) < 4 * Pow(B, l) && Val(xs) * Pow(B, l) + Val(v) < 2 * Pow(B, l + h)
    ensures Val(r) == Val(xs) * Pow(B, l) + Val(v)
  {
    hide Val, Pow;
    var pl, ph := Pow(B, l), Pow(B, h);
    PowPos(B, l);
    PowPos(B, h);
    PowAdd(B, l, h);
    ValSplit(v, l);
    SmallTop(v, l);
    PowMono(B, 1, h);
    PowUnitB();
    HighDrop(v[l..], h);
    assert v[l..][..h] == v[l..l + h];
    assert xs[..h + 1] == xs;
    ValNext(xs, h);
    assert r[..l + h + 1] == r;
    ValNext(r, l + h);
    ValSplit(r[..l + h], l);
    assert r[..l + h][..l] == r[..l] && r[..l + h][l..] == r[l..l + h];
    MulLe(0, Val(r[l..l + h]), pl);
    CombineAlgebra(Val(r[..l]), Val(r[l..l + h]), c, Val(xs[..h]), Val(v[l..l + h]), pl, ph, Val(r), Val(xs), Val(v));
  }

  lemma CombineAlgebra(lo: int, s: int, c: int, x: int, hi: int, pl: int, ph: int, r: int, xs: int, v: int)
    requires s + c * ph == x + hi && r == lo + pl * s + 1 * (pl * ph) && xs == x + 1 * ph && v == lo + pl * hi
    requires xs * pl + v < 2 * (pl * ph) && 0 <= c <= 1 && lo >= 0 && pl * s >= 0 && pl * ph > 0
    ensures r == xs * pl + v
  {
    assert (x + ph) * pl == x * pl + pl * ph;
    assert pl * (x + hi) == pl * x + pl * hi;
    assert pl * (s + c * ph) == pl * s + c * (pl * ph);
  }

  lemma SmallTop(v: seq<limb>, l: nat)
    requires l <= |v| && Val(v) < 4 * Pow(B, l)
    ensures Val(v[l..]) < 4
  {
    hide Val, Pow;
    ValSplit(v, l);
    PowPos(B, l);
    if Val(v[l..]) >= 4 { MulLe(4, Val(v[l..]), Pow(B, l)); }
  }

  /** A number below B^h is not changed by dropping the limbs from h on. */
  lemma HighDrop(s: seq<limb>, h: nat)
    requires h <= |s| && Val(s) < Pow(B, h)
    ensures Val(s[..h]) == Val(s)
  {
    hide Val, Pow;
    ValSplit(s, h);
    PowPos(B, h);
    if Val(s[h..]) >= 1 { MulLe(1, Val(s[h..]), Pow(B, h)); }
  }
}
