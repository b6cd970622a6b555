/** mp_recip, mp_divnorm_large and mp_divnorm: Newton reciprocal and the division built on it. */
module MpDiv {
  import opened Arith
  import opened Word
  import opened Limbs
  import opened Bits
  import opened NttSize
  import opened MpBase
  import opened MpMul
  import opened MpDiv1
  import opened MpDivBase
  import opened MpRecip

  const DIVNORM_LARGE_THRESHOLD: nat := 50

  // ----- the small reciprocal -----

  lemma SmallRecip(a: int, n: int, q: int, rem: int, r: int)
    requires a > 0 && n == a * q + rem && 0 <= rem < a && r == if rem == 0 then q - 1 else q
    ensures IsRecip(a, r, n)
  {
    assert a * (q - 1) == a * q - a && a * (q + 1) == a * q + a && a * (q + 2) == a * q + 2 * a;
    RecipIs(a, r, n);
  }

  /** The quotient B^(2n) / a needs n + 1 limbs only. */
  lemma SmallQuotient(a: int, p: int, q: int, rem: int)
    requires 0 < a && 2 * a >= p && p > 0 && p * p == a * q + rem && 0 <= rem
    ensures q <= 2 * p
  {
    assert a * (2 * p) == (2 * a) * p;
    MulLe(p, 2 * a, p);
    assert a * (2 * p + 1) == a * (2 * p) + a;
    if q >= 2 * p + 1 { MulLe(2 * p + 1, q, a); }
  }

  /** B^(2n) as a limb sequence. */
  lemma UnitAbove(s: seq<limb>, n: nat)
    requires |s| == 2 * n + 1 && s[2 * n] == 1 && forall i :: 0 <= i < 2 * n ==> s[i] == 0
    ensures Val(s) == Pow(B, n) * Pow(B, n)
  {
    hide Val, Pow;
    assert s[..2 * n + 1] == s;
    ValNext(s, 2 * n);
    ValZeros(s[..2 * n]);
    PowAdd(B, n, n);
  }

  // ----- the numbers behind the large division -----

  lemma CancelLe(x: int, y: int, h: int)
    requires h > 0 && x * h <= y * h
    ensures x <= y
  {
    assert (y + 1) * h == y * h + h;
    if x > y { MulLe(y + 1, x, h); }
  }

  /** The approximate quotient never exceeds the exact one. */
  lemma LargeUpper(a: int, ah: int, p: int, b: int, inv: int, q: int, s: int)
    requires ah * p <= a && b * inv <= s * p && q * s <= ah * inv && s > 0 && b > 0 && ah >= 0
    ensures b * q <= a
  {
    MulLe(q * s, ah * inv, b);
    assert b * (q * s) == (b * q) * s;
    assert b * (ah * inv) == ah * (b * inv);
    MulLe(b * inv, s * p, ah);
    assert ah * (s * p) == (ah * p) * s;
    CancelLe(b * q, ah * p, s);
  }

  lemma Expand(ah: int, inv: int)
    ensures (ah + 1) * (inv + 2) == ah * inv + 2 * ah + inv + 2
  {}

  /** With an exact divisor in the inverse the quotient is at most three too small. */
  lemma LargeLowerExact(a: int, ah: int, p: int, b: int, inv: int, q: int, s: int)
    requires a < (ah + 1) * p && s * p <= b * (inv + 2) && ah * inv < q * s + s && s > 0 && b > 0 && ah >= 0
    requires 2 * ah + inv + 2 <= 3 * s
    ensures a < b * (q + 4)
  {
    MulLe(a + 1, (ah + 1) * p, s);
    assert s * (a + 1) == a * s + s;
    assert s * ((ah + 1) * p) == (ah + 1) * (s * p);
    MulLe(s * p, b * (inv + 2), ah + 1);
    assert (ah + 1) * (b * (inv + 2)) == b * ((ah + 1) * (inv + 2));
    Expand(ah, inv);
    MulLe((ah + 1) * (inv + 2), (q + 4) * s, b) by { assert (q + 4) * s == q * s + 4 * s; }
    assert b * ((q + 4) * s) == (b * (q + 4)) * s;
    CancelLess(a, b * (q + 4), s);
  }

  /** With a truncated divisor the same holds, the truncation costing less than one more unit. */
  lemma LargeLowerTruncated(a: int, ah: int, p: int, b: int, inv: int, q: int, s: int, z: int)
    requires a < (ah + 1) * p && s * p <= (b + z) * (inv + 2) && ah * inv < q * s + s && s > 0 && b > 0 && ah >= 0
    requires 2 * ah + inv + 2 <= s && z * ((ah + 1) * (inv + 2)) <= b * s
    ensures a < b * (q + 4)
  {
    var e := (ah + 1) * (inv + 2);
    TruncatedTop(a, ah, p, b, inv, s, z, e);
    Expand(ah, inv);
    TimesUnits(b, e, q, s);
    CancelLess(a, b * (q + 3), s);
    assert b * (q + 4) == b * (q + 3) + b;
  }

  lemma TruncatedTop(a: int, ah: int, p: int, b: int, inv: int, s: int, z: int, e: int)
    requires a < (ah + 1) * p && s * p <= (b + z) * (inv + 2) && s > 0 && ah >= 0 && e == (ah + 1) * (inv + 2)
    ensures a * s < b * e + z * e
  {
    MulLe(a + 1, (ah + 1) * p, s);
    assert s * (a + 1) == a * s + s;
    assert s * ((ah + 1) * p) == (ah + 1) * (s * p);
    MulLe(s * p, (b + z) * (inv + 2), ah + 1);
    assert (ah + 1) * ((b + z) * (inv + 2)) == (b + z) * ((ah + 1) * (inv + 2));
    assert (b + z) * e == b * e + z * e;
  }

  lemma TimesUnits(b: int, e: int, q: int, s: int)
    requires b > 0 && e <= q * s + 2 * s
    ensures b * e + b * s <= (b * (q + 3)) * s
  {
    MulLe(e, q * s + 2 * s, b);
    assert b * (q * s + 2 * s) == (b * q) * s + 2 * (b * s);
    assert (b * (q + 3)) * s == (b * q) * s + 3 * (b * s);
  }

  /** What the inverse of the padded divisor says about the divisor. */
  lemma PaddedInverse(b: int, z: int, d: int, inv: int, n: int, sp: int)
    requires z > 0 && d == b * z && n == sp * z && d * inv <= n <= d * (inv + 2)
    ensures b * inv <= sp <= b * (inv + 2)
  {
    assert (b * z) * inv == (b * inv) * z && (b * z) * (inv + 2) == (b * (inv + 2)) * z;
    CancelLe(b * inv, sp, z);
    CancelLe(sp, b * (inv + 2), z);
  }

  /** What the inverse of the rounded-up truncated divisor says about the divisor. */
  lemma TruncatedInverse(b: int, z: int, d: int, inv: int, n: int, sp: int)
    requires z > 0 && b <= d * z <= b + z && sp == n * z && d * inv <= n <= d * (inv + 2) && inv >= 0
    ensures b * inv <= sp <= (b + z) * (inv + 2)
  {
    MulLe(b, d * z, inv);
    assert (d * z) * inv == (d * inv) * z;
    MulLe(d * inv, n, z);
    MulLe(n, d * (inv + 2), z);
    assert (d * (inv + 2)) * z == (d * z) * (inv + 2);
    MulLe(d * z, b + z, inv + 2);
  }

  /** The slack that the truncation may use up. */
  lemma TruncationSlack(b: int, z: int, u: int, v: int, s: int, pn: int, pb: int, t: int)
    requires pn >= 1 && z > 0 && pb == Mul(pn, z) && 2 * b >= pb && t == B * pn && s == B * t && 0 < u <= t && 0 < v <= 4 * pn
    ensures Mul(z, Mul(u, v)) <= Mul(b, s)
  {
    MulLe(u, t, v);
    MulLe(v, 4 * pn, t);
    MulLe(u * v, 4 * B * (pn * pn), z);
    assert z * (4 * B * (pn * pn)) == (4 * B) * (pb * pn);
    MulLe(pb, 2 * b, pn);
    MulNonNeg(b, pn);
  }

  lemma TruncatedRoom(ah: int, inv: int, s: int, pn: int)
    requires pn >= 1 && s == B * (B * pn) && 0 <= ah < B * pn && 0 <= inv < 2 * pn
    ensures 2 * ah + inv + 2 <= s
  {}

  lemma PaddedSlack(ah: int, inv: int, s: int, pn: int)
    requires pn >= 1 && 0 <= ah < B * pn && 0 <= inv < 2 * pn && s >= B * pn
    ensures 2 * ah + inv + 2 <= 3 * s
  {}

  // ----- the divisor of the large division -----

  /** d is the n-limb divisor whose inverse is taken: b padded below, or b cut and rounded up. */
  ghost predicate LargeDivisor(b: int, d: int, nb: nat, n: nat) {
    if n >= nb then d == b * Pow(B, n - nb)
    else b <= d * Pow(B, nb - n) <= b + Pow(B, nb - n)
  }

  lemma PaddedDivisor(t: seq<limb>, b: seq<limb>, k: nat)
    requires |t| == k + |b| && t[k..] == b && forall i :: 0 <= i < k ==> t[i] == 0
    ensures Val(t) == Val(b) * Pow(B, k)
  {
    hide Val, Pow;
    ValSplit(t, k);
    ValZeros(t[..k]);
  }

  lemma TruncatedDivisor(b: seq<limb>, n: nat, d: int)
    requires n < |b| && d == Val(b[|b| - n..]) + 1
    ensures LargeDivisor(Val(b), d, |b|, n)
  {
    hide Val, Pow;
    var k := |b| - n;
    ValSplit(b, k);
    ValBound(b[..k]);
    var z := Pow(B, k);
    assert (Val(b[k..]) + 1) * z == z * Val(b[k..]) + z;
  }

  /** Everything the inverse and the truncated product guarantee. */
  ghost predicate LargeInverse(b: int, inv: int, nb: nat, n: nat) {
    exists d :: LargeDivisor(b, d, nb, n) && d * inv <= Pow(B, n) * Pow(B, n) <= d * (inv + 2)
  }

  lemma LargeSizes(na: nat, nb: nat, nq: nat, n: nat)
    requires na == nq + nb && nq >= 1 && nb >= 2 && n == (if nq < nb then nq + 1 else nq)
    ensures n + 1 <= na && 2 * n + 1 >= nq && n >= 1
    ensures Pow(B, 2 * n + 1 - nq) * Pow(B, na - n - 1) == Pow(B, n) * Pow(B, nb)
    ensures n >= nb ==> Pow(B, n) * Pow(B, n) == (Pow(B, n) * Pow(B, nb)) * Pow(B, n - nb)
    ensures n < nb ==> Pow(B, n) * Pow(B, nb) == (Pow(B, n) * Pow(B, n)) * Pow(B, nb - n) && Pow(B, nb) == Pow(B, n) * Pow(B, nb - n)
    ensures n < nb ==> Pow(B, 2 * n + 1 - nq) == B * (B * Pow(B, n))
    ensures Pow(B, 2 * n + 1 - nq) >= B * Pow(B, n) && Pow(B, n) >= 1 && Pow(B, na - n - 1) > 0
  {
    hide Pow;
    PowAdd(B, 2 * n + 1 - nq, na - n - 1);
    PowAdd(B, n, nb);
    PowNextB(n);
    PowPos(B, n);
    PowPos(B, na - n - 1);
    PowMono(B, n + 1, 2 * n + 1 - nq);
    if n >= nb {
      PowAdd(B, nb, n - nb);
      assert Pow(B, n) * (Pow(B, nb) * Pow(B, n - nb)) == (Pow(B, n) * Pow(B, nb)) * Pow(B, n - nb);
    } else {
      PowAdd(B, n, nb - n);
      assert Pow(B, n) * (Pow(B, n) * Pow(B, nb - n)) == (Pow(B, n) * Pow(B, n)) * Pow(B, nb - n);
      PowNextB(n + 1);
    }
  }

  /** The approximate quotient: between a / b - 4 and a / b. */
  lemma LargeQuotient(a: int, ah: int, b: int, inv: int, q: int, na: nat, nb: nat, nq: nat, n: nat)
    requires na == nq + nb && nq >= 1 && nb >= 2 && n == (if nq < nb then nq + 1 else nq)
    requires LargeInverse(b, inv, nb, n) && 0 <= inv < 2 * Pow(B, n) && b > 0 && 2 * b >= Pow(B, nb)
    requires 0 <= ah < Pow(B, n + 1) && n + 1 <= na && 2 * n + 1 >= nq
    requires ah * Pow(B, na - n - 1) <= a < (ah + 1) * Pow(B, na - n - 1)
    requires q * Pow(B, 2 * n + 1 - nq) <= ah * inv < q * Pow(B, 2 * n + 1 - nq) + Pow(B, 2 * n + 1 - nq)
    ensures b * q <= a < b * (q + 4)
  {
    hide Pow, Val;
    LargeSizes(na, nb, nq, n);
    PowNextB(n);
    var s, p, pn, pb := Pow(B, 2 * n + 1 - nq), Pow(B, na - n - 1), Pow(B, n), Pow(B, nb);
    var d :| LargeDivisor(b, d, nb, n) && d * inv <= pn * pn <= d * (inv + 2);
    if n >= nb {
      PowPos(B, n - nb);
      PaddedInverse(b, Pow(B, n - nb), d, inv, pn * pn, s * p);
      PaddedSlack(ah, inv, s, pn);
      LargeUpper(a, ah, p, b, inv, q, s);
      LargeLowerExact(a, ah, p, b, inv, q, s);
    } else {
      PowPos(B, nb - n);
      TruncatedInverse(b, Pow(B, nb - n), d, inv, pn * pn, s * p);
      TruncationSlack(b, Pow(B, nb - n), ah + 1, inv + 2, s, pn, pb, B * pn);
      TruncatedRoom(ah, inv, s, pn);
      LargeUpper(a, ah, p, b, inv, q, s);
      LargeLowerTruncated(a, ah, p, b, inv, q, s, Pow(B, nb - n));
    }
  }

  // ----- the remainder and the corrections -----

  /** Subtracting on the low limbs only gives the exact difference when that is small. */
  lemma LowDifference(a: int, x: int, al: int, ah: int, xl: int, xh: int, w: int, k: int, m: int)
    requires a == al + m * ah && x == xl + m * xh && w - k * m == al - xl && 0 <= w < m && 0 <= a - x < m
    ensures w == a - x
  {
    assert m * (ah - xh) == m * ah - m * xh;
    assert m * (ah - xh - k) == m * (ah - xh) - k * m;
    DivModUnique(a - x, m, 0, a - x);
    DivModUnique(a - x, m, ah - xh - k, w);
  }

  lemma RemainderRoom(a: int, b: int, q: int, pb: int)
    requires b * q <= a < b * (q + 4) && 0 < b < pb
    ensures 0 <= a - q * b < B * pb && a - q * b < 4 * b
  {
    assert b * (q + 4) == q * b + 4 * b;
  }

  /** One correction: b is subtracted from a window of |b| + 1 limbs that holds at least b. */
  method SubtractOnce(taba: array<limb>, o: nat, b: seq<limb>)
    requires o + |b| + 1 <= taba.Length && Val(taba[o..o + |b| + 1]) >= Val(b)
    modifies taba
    ensures Val(taba[o..o + |b| + 1]) == old(Val(taba[o..o + |b| + 1])) - Val(b)
    ensures SameOutside(old(taba[..]), taba[..], o, o + |b| + 1)
  {
    hide Val, Pow, Lo;
    var nb := |b|;
    ghost var t0 := taba[..];
    WindowTop(t0, o, nb);
    assert t0[o..o + nb + 1] == taba[o..o + nb + 1] && t0[o..o + nb] == taba[o..o + nb];
    var k := Sub(taba, o, b, 0);
    ghost var t1 := taba[..];
    assert t1[o..o + nb] == taba[o..o + nb] && t1[o + nb] == t0[o + nb];
    ValBound(t1[o..o + nb]);
    PowPos(B, nb);
    TopKeeps(Val(t0[o..o + nb]), t0[o + nb], Val(t1[o..o + nb]), k, Pow(B, nb), Val(b));
    LoIs(taba[o + nb] as int - k as int, 0, taba[o + nb] as int - k as int);
    taba[o + nb] := Lo(taba[o + nb] as int - k as int);
    ghost var t2 := taba[..];
    WindowTop(t2, o, nb);
    assert t2[o..o + nb] == t1[o..o + nb] && t2[o..o + nb + 1] == taba[o..o + nb + 1];
  }

  lemma TopKeeps(lo0: int, top: int, lo1: int, k: int, p: int, b: int)
    requires p > 0 && 0 <= lo1 < p && lo1 - k * p == lo0 - b && lo0 + top * p >= b && 0 <= k <= 1 && top >= 0
    ensures top - k >= 0 && lo1 + (top - k) * p == lo0 + top * p - b
  {
    assert (top - k) * p == top * p - k * p;
    if top == 0 { assert top * p == 0; }
  }

  /** The test at the head of the correction loop. */
  method RemainderBelow(taba: array<limb>, o: nat, b: seq<limb>) returns (below: bool)
    requires o + |b| + 1 <= taba.Length
    ensures below <==> Val(taba[o..o + |b| + 1]) < Val(b)
  {
    hide Val, Pow;
    var nb := |b|;
    ghost var w := taba[o..o + nb + 1];
    assert w[..nb] == taba[o..o + nb] && w[..nb + 1] == w;
    ValNext(w, nb);
    ValBound(b);
    TopNonZero(w, nb);
    if taba[o + nb] == 0 {
      var c := Compare(taba[o..o + nb], b);
      below := c < 0;
    } else {
      below := false;
    }
  }

  /** The correction loop of mp_divnorm_large: at most three increments of the quotient, counted by the ghost result. */
  method Correct(tabq: array<limb>, nq: nat, taba: array<limb>, o: nat, b: seq<limb>, ghost a: int) returns (ghost steps: nat)
    requires o + |b| + 1 <= taba.Length && nq + 1 <= tabq.Length && tabq != taba && Val(b) > 0
    requires a == Val(tabq[..nq + 1]) * Val(b) + Val(taba[o..o + |b| + 1])
    requires Val(taba[o..o + |b| + 1]) < 4 * Val(b) && a < Val(b) * Pow(B, nq + 1)
    modifies tabq, taba
    ensures steps <= 3
    ensures a == Val(tabq[..nq + 1]) * Val(b) + Val(taba[o..o + |b| + 1])
    ensures Val(taba[o..o + |b| + 1]) < Val(b)
    ensures Val(tabq[..nq + 1]) == old(Val(tabq[..nq + 1])) + steps
    ensures SameOutside(old(taba[..]), taba[..], o, o + |b| + 1)
    ensures SameOutside(old(tabq[..]), tabq[..], 0, nq + 1)
  {
    hide Val, Pow;
    steps := 0;
    ghost var bv := Val(b);
    var below := RemainderBelow(taba, o, b);
    while !below
      invariant below <==> Val(taba[o..o + |b| + 1]) < bv
      invariant a == Val(tabq[..nq + 1]) * bv + Val(taba[o..o + |b| + 1])
      invariant Val(taba[o..o + |b| + 1]) < 4 * bv - steps * bv
      invariant Val(tabq[..nq + 1]) == old(Val(tabq[..nq + 1])) + steps
      invariant SameOutside(old(taba[..]), taba[..], o, o + |b| + 1)
      invariant SameOutside(old(tabq[..]), tabq[..], 0, nq + 1)
      decreases Val(taba[o..o + |b| + 1])
    {
      ghost var q, w := Val(tabq[..nq + 1]), Val(taba[o..o + |b| + 1]);
      SubtractOnce(taba, o, b);
      assert tabq[..nq + 1] == tabq[0..nq + 1];
      var k := AddUi(tabq, 0, nq + 1, 1);
      assert tabq[..nq + 1] == tabq[0..nq + 1];
      ValBound(tabq[0..nq + 1]);
      PowPos(B, nq + 1);
      CorrectOnce(a, q, bv, w, Val(tabq[0..nq + 1]), k, Pow(B, nq + 1), steps);
      steps := steps + 1;
      below := RemainderBelow(taba, o, b);
    }
    StepsBound(steps, bv, Val(taba[o..o + |b| + 1]));
  }

  lemma CorrectOnce(a: int, q: int, b: int, w: int, q1: int, k: int, p: int, steps: int)
    requires b > 0 && a == q * b + w && w >= b && a < b * p && p > 0 && 0 <= k && 0 <= q1 && q1 + k * p == q + 1
    requires w < 4 * b - steps * b
    ensures q1 == q + 1 && a == q1 * b + (w - b) && w - b < 4 * b - (steps + 1) * b
  {
    assert (q + 1) * b == q * b + b;
    assert (steps + 1) * b == steps * b + b;
    MulSides(b, p);
    if q + 1 >= p { MulLe(p, q + 1, b); }
    if k >= 1 { MulLe(1, k, p); }
  }

  lemma StepsBound(steps: int, b: int, w: int)
    requires b > 0 && 0 <= w && w < 4 * b - steps * b
    ensures steps <= 3
  {
    if steps >= 4 { MulLe(4, steps, b); }
  }

  // ----- mp_recip, mp_divnorm_large, mp_divnorm -----

  /** Measure for the mutual recursion: a division only recurses when it takes the large path. */
  function DivRank(na: nat, nb: nat): nat {
    if na >= nb && Min(na - nb, nb) >= DIVNORM_LARGE_THRESHOLD then 4 * na + 2 else 0
  }

  /** mp_recip: n + 1 limbs with top limb one, a r < B^(2n) < a (r + 2). */
  method Recip(tabr: array<limb>, off: nat, a: seq<limb>)
    requires |a| >= 1 && Normalized(a[|a| - 1]) && off + |a| + 1 <= tabr.Length && 3 * |a| + 8 <= MAX_LEN
    modifies tabr
    ensures IsRecip(Val(a), Val(tabr[off..off + |a| + 1]), Pow(B, |a|) * Pow(B, |a|))
    ensures tabr[off + |a|] == 1
    ensures SameOutside(old(tabr[..]), tabr[..], off, off + |a| + 1)
    decreases 4 * |a|, 1
  {
    hide Val, Pow, IsRecip;
    var n := |a|;
    NormalizedBound(a);
    if n <= 2 {
      RecipSmall(tabr, off, a);
    } else {
      var l := (n - 1) / 2;
      var h := n - l;
      assert n == l + h && l < h && l >= 1 && a[l..][h - 1] == a[n - 1];
      Recip(tabr, off + l, a[l..]);
      ghost var pl, ph, pn, av := Pow(B, l), Pow(B, h), Pow(B, n), Val(a);
      PowPos(B, l);
      PowPos(B, h);
      PowAdd(B, l, h);
      ValSplit(a, l);
      NormalizedBound(a[l..]);
      ghost var x0 := Val(tabr[off + l..off + l + h + 1]);
      RecipIs(Val(a[l..]), x0, ph * ph);
      RecipRange(Val(a[l..]), x0, ph);
      TopHalf(av, Val(a[l..]), Val(a[..l]), x0, pl, ph, pn);
      var tabt := new limb[n + h + 1];
      var tabu := new limb[n + 2 * h - l + 2];
      Residue(tabt, tabr, off + l, a, h);
      ghost var x, t := Val(tabr[off + l..off + l + h + 1]), Val(tabt[..]);
      Multiply(tabu, 0, tabt[l..n + h + 1], tabr[off + l..off + l + h + 1]);
      ghost var u := tabu[..];
      assert u == tabu[0..n + 2 * h - l + 2] && tabt[l..n + h + 1] == tabt[..][l..];
      ghost var k := 2 * h - l;
      NewtonFacts(tabt[..], u, av, x, l, h);
      TopIsOne(tabr[off + l..off + l + h + 1], h);
      Combine(tabr, off, tabu[..], l, h, av);
      RecipIs(av, Val(tabr[off..off + n + 1]), pn * pn);
    }
  }

  lemma TopIsOne(s: seq<limb>, h: nat)
    requires |s| == h + 1 && Pow(B, h) <= Val(s) < 2 * Pow(B, h)
    ensures s[h] == 1
  {
    hide Val, Pow;
    TopNonZero(s, h);
    assert s[..h + 1] == s;
    ValNext(s, h);
    if s[h] >= 2 { MulLe(2, s[h], Pow(B, h)); }
  }

  /** The value assembled by the Newton step is a reciprocal. */
  lemma NewtonFacts(t: seq<limb>, u: seq<limb>, a: int, x: int, l: nat, h: nat)
    requires h > l >= 1 && |t| == l + 2 * h + 1 && |u| == 3 * h + 2
    requires 0 < a < Pow(B, l + h) <= 2 * a && Pow(B, h) <= x < 2 * Pow(B, h)
    requires Val(t) == Pow(B, l + h) * Pow(B, h) - a * x && 0 < Val(t) < 2 * a
    requires Val(u) == Val(t[l..]) * x
    ensures Val(u[2 * h - l..]) < 4 * Pow(B, l)
    ensures var r := x * Pow(B, l) + Val(u[2 * h - l..]); var pn := Pow(B, l + h);
            a * r < pn * pn < a * (r + 2) && pn <= r < 2 * pn
  {
    hide Val, Pow;
    var k := 2 * h - l;
    var pl, ph, pn, w := Pow(B, l), Pow(B, h), Pow(B, l + h), Pow(B, k);
    var tm, v := Val(t[l..]), Val(u[k..]);
    PowPos(B, l);
    PowPos(B, h);
    PowPos(B, k);
    PowAdd(B, l, h);
    PowAdd(B, k, l);
    PowAdd(B, h, h);
    ValSplit(t, l);
    ValBound(t[..l]);
    ValSplit(u, k);
    ValBound(u[..k]);
    MulSides(tm, pl);
    MulSides(v, w);
    Truncations(Val(t), tm, x, v, Val(u), pl, w, ph * ph);
    CorrectionSmall(a, x, Val(t), v, pl, ph, pn);
    HalfScale(l, h);
    NewtonUpper(a, x, Val(t), v, pl, ph, pn);
    NewtonLower(a, x, Val(t), v, pl, ph, pn);
    RecipRange(a, x * pl + v, pn);
  }

  lemma HalfScale(l: nat, h: nat)
    requires h > l
    ensures 6 * Pow(B, l) <= Pow(B, h)
  {
    hide Pow;
    PowNextB(l);
    PowMono(B, l + 1, h);
  }

  /** mp_recip for one and two limbs: ceil(B^(2n) / a) - 1. */
  method RecipSmall(tabr: array<limb>, off: nat, a: seq<limb>)
    requires 1 <= |a| <= 2 && Normalized(a[|a| - 1]) && off + |a| + 1 <= tabr.Length
    modifies tabr
    ensures IsRecip(Val(a), Val(tabr[off..off + |a| + 1]), Pow(B, |a|) * Pow(B, |a|))
    ensures tabr[off + |a|] == 1
    ensures SameOutside(old(tabr[..]), tabr[..], off, off + |a| + 1)
    decreases 4 * |a|, 0
  {
    hide Val, Pow, IsRecip;
    var n := |a|;
    ghost var av, pn := Val(a), Pow(B, n);
    NormalizedBound(a);
    PowNextB(n);
    var tabu := new limb[2 * n + 1](i => if i == 2 * n then 1 else 0);
    var tabt := new limb[n + 2];
    UnitAbove(tabu[..], n);
    assert tabu[0..2 * n + 1] == tabu[..];
    DivNorm(tabt, tabu, 0, 2 * n + 1, a);
    ghost var q, rem := Val(tabt[..n + 2]), Val(tabu[0..n]);
    DividedIs(pn * pn, av, tabt[..n + 2], tabu[0..n]);
    SmallQuotient(av, pn, q, rem);
    assert tabt[..n + 2][..n + 1] == tabt[..n + 1];
    HighDrop(tabt[..n + 2], n + 1);
    CopyIn(tabr, off, tabt[..n + 1]);
    var nz := ScanNonZero(tabu[0..n]);
    if !nz {
      var k := SubUi(tabr, off, n + 1, 1);
      ValBound(tabr[off..off + n + 1]);
      QuotientPositive(av, pn, q, rem);
      NoBorrow(Val(tabr[off..off + n + 1]), k, Pow(B, n + 1), q, 1);
    }
    ghost var r := Val(tabr[off..off + n + 1]);
    SmallRecip(av, pn * pn, q, rem, r);
    RecipIs(av, r, pn * pn);
    RecipRange(av, r, pn);
    TopIsOne(tabr[off..off + n + 1], n);
  }

  lemma QuotientPositive(a: int, p: int, q: int, rem: int)
    requires 0 < a < p && p * p == a * q + rem && 0 <= rem < a
    ensures q >= 1
  {
    MulLe(1, p, p);
    if q <= 0 { MulLe(q, 0, a); }
  }

  lemma DividedIs(a: int, b: int, q: seq<limb>, r: seq<limb>)
    requires Divided(a, b, q, r)
    ensures a == b * Val(q) + Val(r) && 0 <= Val(r) < b
  {
    hide Val;
    DivBounds(a, b);
  }

  lemma DividedFrom(a: int, b: int, q: seq<limb>, r: seq<limb>)
    requires b > 0 && a == Val(q) * b + Val(r) && Val(r) < b
    ensures Divided(a, b, q, r)
  {
    hide Val;
    MulSides(Val(q), b);
    DivModUnique(a, b, Val(q), Val(r));
  }

  /** Quotients of a normalized divisor have leading limb at most one. */
  lemma LeadingQuotient(q: seq<limb>, n: nat, a: int, b: int, pb: int)
    requires |q| == n + 1 && b > 0 && 2 * b >= pb && Val(q) * b <= a < pb * Pow(B, n)
    ensures q[n] <= 1
  {
    hide Val, Pow;
    assert q[..n + 1] == q;
    ValNext(q, n);
    var p := Pow(B, n);
    PowPos(B, n);
    assert (2 * p) * b == (2 * b) * p;
    MulLe(pb, 2 * b, p);
    if q[n] >= 2 {
      MulLe(2, q[n], p);
      MulLe(2 * p, Val(q), b);
    }
  }

  /** The inverse that mp_divnorm_large multiplies by. */
  method LargeInverseOf(b: seq<limb>, n: nat) returns (inv: array<limb>)
    requires |b| >= 2 && Normalized(b[|b| - 1]) && n >= 1 && 3 * n + 8 <= MAX_LEN
    ensures fresh(inv) && inv.Length == n + 1
    ensures LargeInverse(Val(b), Val(inv[..]), |b|, n) && Val(inv[..]) < 2 * Pow(B, n)
    decreases 4 * n, 2
  {
    hide Val, Pow, LargeDivisor, IsRecip;
    var nb := |b|;
    ghost var pn := Pow(B, n);
    PowPos(B, n);
    inv := new limb[n + 1];
    var tabt := new limb[2 * (n + 1)];
    ghost var d: int;
    if n >= nb {
      ZeroFill(tabt, n - nb);
      CopyIn(tabt, n - nb, b);
      d := Val(tabt[..n]);
      PaddedDivisor(tabt[..n], b, n - nb);
      LargeDivisorPad(Val(b), d, nb, n);
    } else {
      CopyIn(tabt, 0, b[nb - n..]);
      assert tabt[0..n] == b[nb - n..];
      var c := AddUi(tabt, 0, n, 1);
      ValBound(tabt[0..n]);
      d := Val(b[nb - n..]) + 1;
      TruncatedDivisor(b, n, d);
      if c != 0 {
        ValBound(b[nb - n..]);
        FullCarry(Val(tabt[0..n]), c, pn, d);
        ZeroFill(inv, n);
        inv[n] := 1;
        assert inv[..] == inv[..n] + [1];
        ValSnoc(inv[..n], 1);
        ValZeros(inv[..n]);
        UnitInverse(pn);
        return;
      }
      assert tabt[..n] == tabt[0..n];
      TopStays(b[nb - n..], tabt[..n]);
    }
    assert tabt[..n][n - 1] == tabt[n - 1];
    Recip(inv, 0, tabt[..n]);
    assert inv[..] == inv[0..n + 1];
    RecipIs(d, Val(inv[..]), pn * pn);
    NormalizedBound(tabt[..n]);
    RecipRange(d, Val(inv[..]), pn);
  }

  lemma LargeDivisorPad(b: int, d: int, nb: nat, n: nat)
    requires n >= nb && d == b * Pow(B, n - nb)
    ensures LargeDivisor(b, d, nb, n)
  {}

  /** The loop or memset that clears the low limbs. */
  method ZeroFill(tab: array<limb>, n: nat)
    requires n <= tab.Length
    modifies tab
    ensures forall j :: 0 <= j < n ==> tab[j] == 0
    ensures SameOutside(old(tab[..]), tab[..], 0, n)
  {
    var i := 0;
    while i < n
      invariant 0 <= i <= n && forall j :: 0 <= j < i ==> tab[j] == 0
      invariant SameOutside(old(tab[..]), tab[..], 0, n)
    {
      tab[i] := 0;
      i := i + 1;
    }
  }

  lemma UnitInverse(p: int)
    requires p > 0
    ensures p * p <= p * p <= p * (p + 2)
  {}

  lemma FullCarry(v: int, c: int, p: int, d: int)
    requires 0 <= v < p && c >= 1 && v + c * p == d <= p
    ensures d == p
  {
    MulLe(1, c, p);
  }

  /** Adding one without carry-out does not lower the top limb. */
  lemma TopStays(s: seq<limb>, t: seq<limb>)
    requires |s| == |t| >= 1 && Normalized(s[|s| - 1]) && Val(t) == Val(s) + 1
    ensures Normalized(t[|t| - 1])
  {
    hide Val, Pow;
    var n := |s| - 1;
    TopLimb(s);
    TopLimb(t);
    var p := Pow(B, n);
    assert (t[n] + 1) * p == t[n] * p + p;
    if t[n] < s[n] { MulLe(t[n] + 1, s[n], p); }
  }

  /** The first half of mp_divnorm_large: the approximate quotient. */
  method ApproxQuotient(tabq: array<limb>, a: seq<limb>, b: seq<limb>)
    requires |b| >= 2 && Normalized(b[|b| - 1]) && |a| > |b| && |a| - |b| < tabq.Length && 3 * |a| + 8 <= MAX_LEN
    modifies tabq
    ensures Val(b) * Val(tabq[..|a| - |b| + 1]) <= Val(a) < Val(b) * (Val(tabq[..|a| - |b| + 1]) + 4)
    ensures SameOutside(old(tabq[..]), tabq[..], 0, |a| - |b| + 1)
    decreases 4 * |a|, 2
  {
    hide Val, Pow, LargeInverse;
    var na, nb := |a|, |b|;
    var nq := na - nb;
    var n := if nq < nb then nq + 1 else nq;
    LargeSizes(na, nb, nq, n);
    var inv := LargeInverseOf(b, n);
    var tabt := new limb[2 * (n + 1)];
    Multiply(tabt, 0, inv[..], a[na - (n + 1)..]);
    ghost var t := tabt[..];
    assert t == tabt[0..2 * (n + 1)];
    var s := 2 * n + 1 - nq;
    CopyIn(tabq, 0, tabt[s..]);
    assert tabq[..nq + 1] == tabq[0..nq + 1] == t[s..];
    ghost var ah := a[na - (n + 1)..];
    NormalizedBound(b);
    ValSplit(a, na - (n + 1));
    ValBound(a[..na - (n + 1)]);
    ValBound(ah);
    ValSplit(t, s);
    ValBound(t[..s]);
    ghost var P, S := Pow(B, na - n - 1), Pow(B, s);
    MulSides(Val(ah), P);
    assert (Val(ah) + 1) * P == P * Val(ah) + P;
    MulSides(Val(t[s..]), S);
    MulSides(Val(inv[..]), Val(ah));
    LargeQuotient(Val(a), Val(ah), Val(b), Val(inv[..]), Val(t[s..]), na, nb, nq, n);
  }

  /** mp_divnorm_large: the same contract as the base case, with at most three corrections. */
  method DivNormLarge(tabq: array<limb>, taba: array<limb>, oa: nat, na: nat, b: seq<limb>) returns (ghost steps: nat)
    requires |b| >= 2 && Normalized(b[|b| - 1]) && na > |b| && oa + na <= taba.Length && na - |b| < tabq.Length && tabq != taba
    requires 3 * na + 8 <= MAX_LEN
    modifies tabq, taba
    ensures steps <= 3
    ensures Divided(old(Val(taba[oa..oa + na])), Val(b), tabq[..na - |b| + 1], taba[oa..oa + |b|])
    ensures tabq[na - |b|] <= 1
    ensures SameOutside(old(tabq[..]), tabq[..], 0, na - |b| + 1)
    ensures SameOutside(old(taba[..]), taba[..], oa, oa + na)
    decreases 4 * na, 3
  {
    hide Val, Pow;
    var nb := |b|;
    var nq := na - nb;
    ghost var a := taba[oa..oa + na];
    ghost var av, bv, pb := Val(a), Val(b), Pow(B, nb);
    NormalizedBound(b);
    ApproxQuotient(tabq, taba[oa..oa + na], b);
    ghost var q := Val(tabq[..nq + 1]);
    var tabt := new limb[na + 1];
    Multiply(tabt, 0, tabq[..nq + 1], b);
    ghost var x := tabt[..];
    assert x == tabt[0..na + 1];
    ghost var m := Pow(B, nb + 1);
    PowNextB(nb);
    RemainderRoom(av, bv, q, pb);
    ValSplit(a, nb + 1);
    ValSplit(x, nb + 1);
    assert a[..nb + 1] == taba[oa..oa + nb + 1] && x[..nb + 1] == tabt[..nb + 1];
    var k := Sub(taba, oa, tabt[..nb + 1], 0);
    ValBound(taba[oa..oa + nb + 1]);
    LowDifference(av, q * bv, Val(a[..nb + 1]), Val(a[nb + 1..]), Val(x[..nb + 1]), Val(x[nb + 1..]),
                  Val(taba[oa..oa + nb + 1]), k, m);
    ValBound(a);
    PowAdd(B, nb, nq);
    QuotientFits(av, bv, pb, nq);
    steps := Correct(tabq, nq, taba, oa, b, av);
    ghost var w := taba[oa..oa + nb + 1];
    SmallWindow(w, nb, bv);
    assert w[..nb] == taba[oa..oa + nb];
    DividedFrom(av, bv, tabq[..nq + 1], taba[oa..oa + nb]);
    LeadingQuotient(tabq[..nq + 1], nq, av, bv, pb);
  }

  lemma QuotientFits(a: int, b: int, pb: int, nq: nat)
    requires 2 * b >= pb && b > 0 && a < pb * Pow(B, nq)
    ensures a < b * Pow(B, nq + 1)
  {
    hide Pow;
    PowNextB(nq);
    MulLe(pb, 2 * b, Pow(B, nq));
    assert (2 * b) * Pow(B, nq) == b * (2 * Pow(B, nq));
    MulLe(2 * Pow(B, nq), B * Pow(B, nq), b);
  }

  /** mp_divnorm: quotient and remainder for every normalized divisor, whichever algorithm runs. */
  method DivNorm(tabq: array<limb>, taba: array<limb>, oa: nat, na: nat, b: seq<limb>)
    requires |b| >= 1 && Normalized(b[|b| - 1]) && na >= |b| && oa + na <= taba.Length && na - |b| < tabq.Length && tabq != taba
    requires 3 * na + 8 <= MAX_LEN
    modifies tabq, taba
    ensures Divided(old(Val(taba[oa..oa + na])), Val(b), tabq[..na - |b| + 1], taba[oa..oa + |b|])
    ensures tabq[na - |b|] <= 1
    ensures SameOutside(old(tabq[..]), tabq[..], 0, na - |b| + 1)
    ensures SameOutside(old(taba[..]), taba[..], oa, oa + na)
    decreases DivRank(na, |b|)
  {
    hide Val, Pow;
    var nb := |b|;
    if nb == 1 {
      ghost var a := taba[oa..oa + na];
      assert b[..] == [b[0]];
      ValOne(b[0]);
      NormalizedBound(b);
      var r := Div1Norm(tabq, taba[oa..oa + na], b[0], 0);
      taba[oa] := r;
      assert taba[oa..oa + 1] == [r];
      ValOne(r);
      DividedFrom(Val(a), Val(b), tabq[..na], taba[oa..oa + 1]);
      ValBound(a);
      PowNextB(na - 1);
      PowUnitB();
      LeadingQuotient(tabq[..na], na - 1, Val(a), Val(b), Pow(B, 1));
    } else if Min(na - nb, nb) >= DIVNORM_LARGE_THRESHOLD {
      ghost var steps := DivNormLarge(tabq, taba, oa, na, b);
    } else {
      DivNormBase(tabq, taba, oa, na, b);
    }
  }
}
