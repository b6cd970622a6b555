/** mp_divnorm below the large threshold: schoolbook long division in place. */
module MpDivBase {
  import opened Arith
  import opened Word
  import opened Limbs
  import opened Bits
  import opened MpBase
  import opened MpMul
  import opened MpDiv1

  // ----- the quotient digit estimate -----

  /** The estimate from the two top limbs of the dividend and the top limb of the divisor is never
      too small and at most two too large. p is the weight of the divisor's top limb. */
  lemma DigitEstimate(u: int, b: int, u2: int, b1: int, b0: int, u0: int, p: int, qHat: int, q: int)
    requires p > 0 && u == u2 * p + u0 && 0 <= u0 < p && b == b1 * p + b0 && 0 <= b0 < p && HALF <= b1 < B
    requires 0 <= u < b * B && b * q <= u < b * q + b
    requires b1 * qHat <= u2 && 0 <= qHat < B && (qHat == B - 1 || u2 < b1 * qHat + b1)
    ensures 0 <= q <= qHat <= q + 2
  {
    assert b * (q + 1) == b * q + b;
    if q <= -1 { MulLe(q + 1, 0, b); }
    NotTooSmall(u, b, u2, b1, b0, u0, p, qHat, q);
    NotTooLarge(u, b, u2, b1, b0, u0, p, qHat, q);
  }

  lemma NotTooSmall(u: int, b: int, u2: int, b1: int, b0: int, u0: int, p: int, qHat: int, q: int)
    requires p > 0 && u == u2 * p + u0 && 0 <= u0 < p && b == b1 * p + b0 && 0 <= b0 < p && b1 > 0
    requires 0 <= u < b * B && b * q <= u && q >= 0
    requires b1 * qHat <= u2 && (qHat == B - 1 || u2 < b1 * qHat + b1)
    ensures q <= qHat
  {
    MulNonNeg(b1, p);
    assert b1 * (qHat + 1) == b1 * qHat + b1;
    assert (u2 + 1) * p == u2 * p + p;
    assert (b1 * q) * p == (b1 * p) * q;
    MulLe(b1 * p, b, q);
    if q > qHat {
      if qHat == B - 1 {
        MulLe(B, q, b);
      } else {
        MulLe(qHat + 1, q, b1);
        MulLe(u2 + 1, b1 * q, p);
      }
    }
  }

  lemma NotTooLarge(u: int, b: int, u2: int, b1: int, b0: int, u0: int, p: int, qHat: int, q: int)
    requires p > 0 && u == u2 * p + u0 && 0 <= u0 < p && b == b1 * p + b0 && 0 <= b0 < p && HALF <= b1 < B
    requires u < b * q + b && q >= 0 && b1 * qHat <= u2 && qHat < B
    ensures qHat <= q + 2
  {
    assert b * (q + 1) == b * q + b;
    MulLe(b1 * qHat, u2, p);
    assert (b1 + 1) * p == b1 * p + p;
    assert ((b1 + 1) * p) * (qHat - 2) == ((b1 + 1) * (qHat - 2)) * p;
    assert (b1 + 1) * (qHat - 2) == b1 * qHat - 2 * b1 + qHat - 2;
    MulLe((b1 + 1) * (qHat - 2), b1 * qHat, p);
    if qHat >= q + 3 {
      MulLe(b, (b1 + 1) * p, qHat - 2);
      MulLe(q + 1, qHat - 2, b);
    }
  }

  /** Splitting off the top of a number of nb + 1 limbs, and of the divisor. */
  lemma TopLimbs(s: seq<limb>, nb: nat)
    requires nb >= 2 && |s| == nb + 1
    ensures var p := Pow(B, nb - 1); p > 0 && Val(s) == (s[nb] * B + s[nb - 1]) * p + Val(s[..nb - 1]) && 0 <= Val(s[..nb - 1]) < p
  {
    hide Val, Pow;
    assert s[..nb + 1] == s;
    ValNext(s, nb);
    ValNext(s, nb - 1);
    PowNextB(nb - 1);
    ValBound(s[..nb - 1]);
    var p := Pow(B, nb - 1);
    assert (s[nb] * B + s[nb - 1]) * p == s[nb] * (B * p) + s[nb - 1] * p;
  }

  lemma TopLimb(s: seq<limb>)
    requires |s| >= 1
    ensures var p := Pow(B, |s| - 1); p > 0 && Val(s) == s[|s| - 1] * p + Val(s[..|s| - 1]) && 0 <= Val(s[..|s| - 1]) < p
  {
    hide Val, Pow;
    assert s[..|s|] == s;
    ValNext(s, |s| - 1);
    PowPos(B, |s| - 1);
    ValBound(s[..|s| - 1]);
  }

  /** A normalized divisor is at least half of B^nb. */
  lemma NormalizedBound(b: seq<limb>)
    requires |b| >= 1 && Normalized(b[|b| - 1])
    ensures Val(b) > 0 && 2 * Val(b) >= Pow(B, |b|) && Val(b) < Pow(B, |b|)
  {
    hide Val, Pow;
    TopLimb(b);
    PowNextB(|b| - 1);
    MulLe(HALF, b[|b| - 1], Pow(B, |b| - 1));
    ValBound(b);
  }

  /** The top limb of u is at most the top limb of b when u < b B. */
  lemma TopAtMost(u: seq<limb>, b: seq<limb>)
    requires |b| >= 2 && |u| == |b| + 1 && Val(u) < Val(b) * B
    ensures u[|b|] <= b[|b| - 1]
  {
    hide Val, Pow;
    var nb := |b|;
    TopLimbs(u, nb);
    TopLimb(b);
    var p, b1 := Pow(B, nb - 1), b[nb - 1];
    assert ((b1 + 1) * B) * p == (b1 * p + p) * B;
    MulLe(Val(b), b1 * p + p, B);
    if u[nb] > b1 { MulLe((b1 + 1) * B, u[nb] * B + u[nb - 1], p); }
  }

  /** What the source's choice of the digit estimate guarantees. */
  lemma EstimateOk(u: seq<limb>, b: seq<limb>, qHat: limb)
    requires |b| >= 2 && |u| == |b| + 1 && Normalized(b[|b| - 1]) && Val(u) < Val(b) * B
    requires if u[|b|] >= b[|b| - 1] then qHat == B - 1
             else qHat == (u[|b|] * B + u[|b| - 1]) / b[|b| - 1] as int
    ensures Val(b) > 0 && 0 <= Val(u) / Val(b) <= qHat <= Val(u) / Val(b) + 2
  {
    hide Val, Pow;
    var nb := |b|;
    var b1 := b[nb - 1] as int;
    TopLimbs(u, nb);
    TopLimb(b);
    NormalizedBound(b);
    TopAtMost(u, b);
    var u2: int := u[nb] as int * B + u[nb - 1] as int;
    if u[nb] as int >= b1 {
      assert b1 * (B - 1) <= u2;
    } else {
      DivBounds(u2, b1);
    }
    DivBounds(Val(u), Val(b));
    DigitEstimate(Val(u), Val(b), u2, b1, Val(b[..nb - 1]), Val(u[..nb - 1]), Pow(B, nb - 1), qHat, Val(u) / Val(b));
  }

  // ----- one quotient digit -----

  lemma WindowTop(t: seq<limb>, o: nat, n: nat)
    requires o + n + 1 <= |t|
    ensures Val(t[o..o + n + 1]) == Val(t[o..o + n]) + t[o + n] * Pow(B, n)
  {
    assert t[o..o + n + 1] == t[o..o + n] + [t[o + n]];
    ValSnoc(t[o..o + n], t[o + n]);
  }

  /** A carry of at most one, at weight n. */
  function Carry(c: int, n: int): int { if c == 0 then 0 else n }

  /** Subtracting the estimate's multiple from a window: c = 1 exactly when the result went negative. */
  lemma SubtractCore(u: int, low0: int, low1: int, v: int, a: int, r: int, c: int, p: int, bq: int)
    requires 0 <= c <= 1 && u == low0 + v * p && low1 - r * p == low0 - bq && a - c * B == v - r
    ensures low1 + a * p == u - bq + Carry(c, B * p)
  {
    assert (a - c * B) * p == a * p - c * (B * p);
    assert (v - r) * p == v * p - r * p;
  }

  lemma AddBackCore(w0: int, low0: int, low1: int, v: int, a: int, k: int, c: int, p: int, b: int)
    requires 0 <= c <= 1 && w0 == low0 + v * p && low1 + k * p == low0 + b && a + c * B == v + k
    ensures low1 + a * p == w0 + b - Carry(c, B * p)
  {
    assert (a + c * B) * p == a * p + c * (B * p);
    assert (v + k) * p == v * p + k * p;
  }

  /** The borrow decides on which side of zero u - b q is. */
  lemma DigitSigns(u: int, b: int, q: int, qs: int, w: int, c: int, n: int)
    requires b > 0 && Quotient(u, b, qs) && 0 <= w < n && w == u - Mul(b, q) + Carry(c, n) && 0 <= c <= 1
    ensures c == 0 ==> q <= qs
    ensures c == 1 ==> q > qs
  {
    DivBounds(u, b);
    if c == 0 {
      DivAtLeast(u, b, q);
    } else {
      DivLess(u, b, q);
    }
  }

  lemma DigitDone(u: int, b: int, q: int, qs: int, w: int)
    requires b > 0 && Quotient(u, b, qs) && q <= qs && q >= qs && w == u - Mul(b, q)
    ensures w == u % b && 0 <= w < b
  {
    DivBounds(u, b);
  }

  /** One add-back: b is added to the window of |b| + 1 limbs; c tells whether it overflowed. */
  method AddBack(tab: array<limb>, o: nat, b: seq<limb>) returns (c: limb)
    requires o + |b| + 1 <= tab.Length
    modifies tab
    ensures c <= 1
    ensures Val(tab[o..o + |b| + 1]) == old(Val(tab[o..o + |b| + 1])) + Val(b) - Carry(c, Pow(B, |b| + 1))
    ensures SameOutside(old(tab[..]), tab[..], o, o + |b| + 1)
  {
    hide Val, Pow, Lo;
    var nb := |b|;
    ghost var t0 := tab[..];
    WindowTop(t0, o, nb);
    assert t0[o..o + nb + 1] == tab[o..o + nb + 1] && t0[o..o + nb] == tab[o..o + nb];
    var k := Add(tab, o, b, 0);
    ghost var low := Val(tab[o..o + nb]);
    assert tab[o + nb] == t0[o + nb];
    c := 0;
    if k != 0 {
      AddLimb(tab[o + nb], k);
      AddOneWraps(tab[o + nb]);
      tab[o + nb] := Lo(tab[o + nb] as int + 1);
      if tab[o + nb] == 0 { c := 1; }
    }
    ghost var t1 := tab[..];
    WindowTop(t1, o, nb);
    assert t1[o..o + nb + 1] == tab[o..o + nb + 1] && t1[o..o + nb] == tab[o..o + nb];
    PowNextB(nb);
    AddBackCore(Val(t0[o..o + nb + 1]), Val(t0[o..o + nb]), low, t0[o + nb], t1[o + nb], k, c, Pow(B, nb), Val(b));
  }

  lemma AddOneWraps(v: limb)
    ensures Lo(v as int + 1) as int + (if Lo(v as int + 1) == 0 then 1 else 0) * B == v as int + 1
  {}

  /** The multiply-and-subtract step: the window of |b| + 1 limbs loses qHat b; c = 1 when it went negative. */
  method SubtractMultiple(tab: array<limb>, o: nat, b: seq<limb>, qHat: limb) returns (c: limb)
    requires o + |b| + 1 <= tab.Length
    modifies tab
    ensures c <= 1
    ensures Val(tab[o..o + |b| + 1]) == old(Val(tab[o..o + |b| + 1])) - Mul(Val(b), qHat) + Carry(c, Pow(B, |b| + 1))
    ensures SameOutside(old(tab[..]), tab[..], o, o + |b| + 1)
  {
    hide Val, Pow, Lo, Mul;
    var nb := |b|;
    ghost var t0 := tab[..];
    WindowTop(t0, o, nb);
    assert t0[o..o + nb + 1] == tab[o..o + nb + 1] && t0[o..o + nb] == tab[o..o + nb];
    var r := SubMul1(tab, o, b, qHat);
    MulIs(Val(b), qHat);
    ghost var low := Val(tab[o..o + nb]);
    var v := tab[o + nb];
    assert v == t0[o + nb];
    var a := Lo(v as int - r as int);
    SubLimb(v, r);
    c := if a > v then 1 else 0;
    tab[o + nb] := a;
    ghost var t1 := tab[..];
    WindowTop(t1, o, nb);
    assert t1[o..o + nb + 1] == tab[o..o + nb + 1] && t1[o..o + nb] == tab[o..o + nb];
    PowNextB(nb);
    SubtractCore(Val(t0[o..o + nb + 1]), Val(t0[o..o + nb]), low, v, a, r, c, Pow(B, nb), Mul(Val(b), qHat));
  }

  /** q is the quotient of u by b. */
  ghost predicate Quotient(u: int, b: int, q: int)
    requires b > 0
  {
    q == u / b
  }

  /** Multiply, subtract and correct: the window of |b| + 1 limbs becomes its remainder, with at most
      two add-backs (their number is the ghost result). */
  method DivDigit(tab: array<limb>, o: nat, b: seq<limb>, qHat: limb, ghost qs: nat) returns (q: limb, ghost adds: nat)
    requires o + |b| + 1 <= tab.Length && Val(b) > 0
    requires Quotient(Val(tab[o..o + |b| + 1]), Val(b), qs) && qs <= qHat <= qs + 2
    modifies tab
    ensures adds <= 2 && q + adds == qHat
    ensures q == qs
    ensures Val(tab[o..o + |b| + 1]) == old(Val(tab[o..o + |b| + 1])) % Val(b)
    ensures SameOutside(old(tab[..]), tab[..], o, o + |b| + 1)
  {
    hide Val, Pow, Lo, Mul, Quotient;
    var nb := |b|;
    ghost var t0 := tab[..];
    ghost var u, bv, n := Val(tab[o..o + nb + 1]), Val(b), Pow(B, nb + 1);
    var c := SubtractMultiple(tab, o, b, qHat);
    ValBound(tab[o..o + nb + 1]);
    DigitSigns(u, bv, qHat, qs, Val(tab[o..o + nb + 1]), c, n);
    q, adds := qHat, 0;
    while c != 0
      invariant c <= 1 && q + adds == qHat && qs + c <= q && (c == 0 ==> q <= qs)
      invariant Val(tab[o..o + nb + 1]) == u - Mul(bv, q) + Carry(c, n)
      invariant SameOutside(t0, tab[..], o, o + nb + 1)
      decreases q + c
    {
      q := q - 1;
      var overflow := AddBack(tab, o, b);
      MinusOne(bv, q);
      ValBound(tab[o..o + nb + 1]);
      c := 1 - overflow;
      DigitSigns(u, bv, q, qs, Val(tab[o..o + nb + 1]), c, n);
      adds := adds + 1;
    }
    DigitDone(u, bv, q, qs, Val(tab[o..o + nb + 1]));
  }

  lemma MinusOne(b: int, q: int)
    ensures Mul(b, q + 1) == Mul(b, q) + b
  {
    assert b * (q + 1) == b * q + b;
  }

  // ----- the whole division -----

  /** What mp_divnorm leaves behind: quotient in tabq[..n + 1], remainder in the low limbs of the dividend. */
  ghost predicate Divided(a: int, b: int, q: seq<limb>, r: seq<limb>)
  {
    b > 0 && Val(q) == a / b && Val(r) == a % b
  }

  /** The invariant of the digit loop: the limbs a[i..] equal q b plus the window, which is below b. */
  ghost predicate DivInv(a: seq<limb>, b: int, q: seq<limb>, w: seq<limb>, i: nat) {
    i <= |a| && Val(a[i..]) == Val(q) * b + Val(w) && Val(w) < b
  }

  lemma DivInvStep(a: seq<limb>, b: int, q: seq<limb>, w: seq<limb>, i: nat, u: seq<limb>, d: limb, w1: seq<limb>)
    requires i < |a| && DivInv(a, b, q, w, i + 1) && b > 0 && u == [a[i]] + w
    requires d == Val(u) / b && Val(w1) == Val(u) % b
    ensures DivInv(a, b, [d] + q, w1, i)
  {
    hide Val;
    assert a[i..] == [a[i]] + a[i + 1..];
    ValCons(a[i], a[i + 1..]);
    ValCons(a[i], w);
    ValCons(d, q);
    DivBounds(Val(u), b);
    QuotientDigits(Val(a[i + 1..]), Val(q), b, Val(w), a[i], Val(u), d, Val(w1));
  }

  lemma QuotientDigits(x: int, q: int, b: int, w: int, a: int, u: int, d: int, w1: int)
    requires x == q * b + w && u == a + B * w && u == b * d + w1
    ensures a + B * x == (d + B * q) * b + w1
  {
    assert (d + B * q) * b == b * d + B * (q * b);
    assert B * (q * b + w) == B * (q * b) + B * w;
  }

  /** The window before a digit: a limb of the dividend below a remainder. */
  lemma DigitRange(a: limb, w: seq<limb>, b: int)
    requires Val(w) < b
    ensures Val([a] + w) < b * B
  {
    hide Val;
    ValCons(a, w);
  }

  lemma SmallWindow(s: seq<limb>, n: nat, b: int)
    requires |s| == n + 1 && Val(s) < b <= Pow(B, n)
    ensures Val(s[..n]) == Val(s)
  {
    hide Val, Pow;
    assert s[..n + 1] == s;
    ValNext(s, n);
    PowPos(B, n);
    if s[n] >= 1 { MulLe(1, s[n], Pow(B, n)); }
    assert s[n] == 0;
  }

  /** First iteration: the leading quotient limb is 1 when the top of the dividend is at least the divisor. */
  method TopQuotient(a: seq<limb>, b: seq<limb>) returns (q: limb)
    requires |a| == |b|
    ensures q == if Val(a) >= Val(b) then 1 else 0
  {
    hide Val;
    q := 1;
    var j := |b|;
    while j > 0
      invariant 0 <= j <= |b| && q == 1 && a[j..] == b[j..]
    {
      j := j - 1;
      if a[j] != b[j] {
        CompareAt(a, b, j);
        if a[j] < b[j] { q := 0; }
        return;
      }
    }
    assert a == a[0..] && b == b[0..];
  }

  lemma TopDone(a: int, b: int, q: int, w: int, n: int)
    requires 0 <= a < n && 2 * b >= n && q == (if a >= b then 1 else 0) && w == a - q * b
    ensures a == q * b + w && 0 <= w < b
  {}

  lemma Finished(a: seq<limb>, b: int, q: seq<limb>, w: seq<limb>)
    requires b > 0 && DivInv(a, b, q, w, 0)
    ensures Divided(Val(a), b, q, w)
  {
    hide Val;
    assert a[0..] == a;
    MulSides(Val(q), b);
    DivModUnique(Val(a), b, Val(q), Val(w));
  }

  /** The first iteration of the digit loop, for any normalized divisor. */
  method TopDigit(tabq: array<limb>, taba: array<limb>, oa: nat, na: nat, b: seq<limb>)
    requires |b| >= 1 && Normalized(b[|b| - 1]) && na >= |b| && oa + na <= taba.Length && na - |b| < tabq.Length && tabq != taba
    modifies tabq, taba
    ensures tabq[na - |b|] <= 1
    ensures SameOutside(old(tabq[..]), tabq[..], na - |b|, na - |b| + 1)
    ensures SameOutside(old(taba[..]), taba[..], oa + na - |b|, oa + na)
    ensures DivInv(old(taba[oa..oa + na]), Val(b), [tabq[na - |b|]], taba[oa + na - |b|..oa + na], na - |b|)
  {
    hide Val, Pow;
    var nb := |b|;
    var n := na - nb;
    ghost var a0 := taba[oa..oa + na];
    ghost var top := taba[oa + n..oa + na];
    assert a0[n..] == top;
    NormalizedBound(b);
    ValBound(top);
    var q := TopQuotient(taba[oa + n..oa + na], b);
    tabq[n] := q;
    ValOne(q);
    if q != 0 {
      var k := Sub(taba, oa + n, b, 0);
      ValBound(taba[oa + n..oa + na]);
      NoBorrow(Val(taba[oa + n..oa + na]), k, Pow(B, nb), Val(top), Val(b));
    }
    TopDone(Val(top), Val(b), q, Val(taba[oa + n..oa + na]), Pow(B, nb));
  }

  lemma NoBorrow(w: int, k: int, p: int, a: int, b: int)
    requires 0 <= w < p && 0 <= k <= 1 && w - k * p == a - b && a >= b
    ensures k == 0 && w == a - b
  {}

  /** mp_divnorm with at least two divisor limbs, below the large threshold (the method itself is right for all sizes). */
  method DivNormBase(tabq: array<limb>, taba: array<limb>, oa: nat, na: nat, b: seq<limb>)
    requires |b| >= 2 && Normalized(b[|b| - 1]) && na >= |b| && oa + na <= taba.Length && na - |b| < tabq.Length && tabq != taba
    modifies tabq, taba
    ensures Divided(old(Val(taba[oa..oa + na])), Val(b), tabq[..na - |b| + 1], taba[oa..oa + |b|])
    ensures tabq[na - |b|] <= 1
    ensures SameOutside(old(tabq[..]), tabq[..], 0, na - |b| + 1)
    ensures SameOutside(old(taba[..]), taba[..], oa, oa + na)
  {
    hide Val, Pow, Udiv1Init, DivInv;
    var nb := |b|;
    var n := na - nb;
    var b1 := b[nb - 1];
    ghost var t0, q0 := taba[..], tabq[..];
    ghost var a0, bv := taba[oa..oa + na], Val(b);
    NormalizedBound(b);
    TopDigit(tabq, taba, oa, na, b);
    assert tabq[n..n + 1] == [tabq[n]];
    var i := n;
    while i > 0
      invariant 0 <= i <= n
      invariant DivInv(a0, bv, tabq[i..n + 1], taba[oa + i..oa + i + nb], i)
      invariant tabq[n] <= 1
      invariant SameOutside(t0, taba[..], oa + i, oa + na)
      invariant SameOutside(q0, tabq[..], i, n + 1)
    {
      i := i - 1;
      ghost var w, qs := taba[oa + i + 1..oa + i + 1 + nb], tabq[i + 1..n + 1];
      ghost var u := taba[oa + i..oa + i + nb + 1];
      assert taba[oa + i] == t0[oa + i] == a0[i];
      assert u == [a0[i]] + w;
      DivInvBelow(a0, bv, qs, w, i + 1);
      DigitRange(a0[i], w, bv);
      assert u[nb] == taba[oa + i + nb] && u[nb - 1] == taba[oa + i + nb - 1];
      var qHat := EstimateDigit(taba[oa + i + nb], taba[oa + i + nb - 1], b1, n);
      EstimateOk(u, b, qHat);
      var q, adds := DivDigit(taba, oa + i, b, qHat, Val(u) / bv);
      ghost var w1 := taba[oa + i..oa + i + nb + 1];
      DivBounds(Val(u), bv);
      SmallWindow(w1, nb, bv);
      assert taba[oa + i..oa + i + nb] == w1[..nb];
      tabq[i] := q;
      assert tabq[i..n + 1] == [q] + qs;
      DivInvStep(a0, bv, qs, w, i, u, q, taba[oa + i..oa + i + nb]);
    }
    assert tabq[..n + 1] == tabq[0..n + 1];
    Finished(a0, bv, tabq[..n + 1], taba[oa..oa + nb]);
  }

  lemma DivInvBelow(a: seq<limb>, b: int, q: seq<limb>, w: seq<limb>, i: nat)
    requires DivInv(a, b, q, w, i)
    ensures Val(w) < b
  {}

  /** The three ways the source estimates a quotient digit agree on the value they must give. */
  method EstimateDigit(u1: limb, u0: limb, b1: limb, n: nat) returns (q: limb)
    requires Normalized(b1)
    ensures if u1 >= b1 then q == B - 1 else q == (u1 * B + u0) / b1 as int
  {
    hide Udiv1Init;
    if u1 >= b1 {
      q := B - 1;
    } else if n >= UDIV1NORM_THRESHOLD && Udiv1Init(b1) != 0 {
      var dummy: limb;
      q, dummy := Udiv1Norm(u1, u0, b1, Udiv1Init(b1));
    } else {
      TwoLimbQuotient(u1, u0, b1);
      q := (u1 as int * B + u0 as int) / b1 as int;
    }
  }
}
