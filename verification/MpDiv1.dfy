/** udiv1norm and mp_div1norm: division of a double limb and of a limb array by one normalized limb. */
module MpDiv1 {
  import opened Arith
  import opened Word
  import opened Limbs
  import opened Bits
  import opened MpBase
  import opened MpMul

  const UDIV1NORM_THRESHOLD: nat := 3

  /** A limb with its top bit set. */
  predicate Normalized(d: limb) { d >= HALF }

  // ----- udiv1norm -----

  /** udiv1norm_init: (B^2 - 1) / d - B. */
  function Udiv1Init(d: limb): (r: limb)
    requires Normalized(d)
  {
    InverseExact(d);
    ((Lo(-(d as int) - 1) as int) * B + (B - 1)) / d
  }

  /** The inverse with its error term: (r + B) d = B^2 - k with 1 <= k <= d. */
  lemma InverseExact(d: limb)
    requires Normalized(d)
    ensures Lo(-(d as int) - 1) == B - d - 1
    ensures 0 <= (((B - d - 1) * B + (B - 1)) as int) / d < B
    ensures var r := (((B - d - 1) * B + (B - 1)) as int) / d; BB - d <= (r + B) * d < BB
  {
    LoIs(-(d as int) - 1, -1, B - d - 1);
    var x := (B - d - 1) * B + (B - 1);
    DivBounds(x, d);
    DivNonNeg(x, d);
    DivLess(x, d, B);
    SumTimes(x / d, B, d);
  }

  /** Product identity behind the quotient estimate when the low limb has its top bit clear. */
  lemma EstimateLow(a1: int, a0: int, d: int, mi: int, k: int, h: int, g: int)
    requires (mi + B) * d == BB - k && mi * a1 + a0 == B * h + g
    ensures B * (a1 * B + a0 - (a1 + h) * d) == a1 * k + a0 * (B - d) + d * g
  {
    assert (mi + B) * d == mi * d + B * d;
    assert d * (mi * a1) == (mi * d) * a1;
    assert (BB - k - B * d) * a1 == BB * a1 - k * a1 - (B * d) * a1;
    assert d * (B * h + g) == d * (mi * a1 + a0) == d * (mi * a1) + d * a0;
    assert d * (B * h + g) == d * (B * h) + d * g;
    assert B * ((a1 + h) * d) == (B * d) * a1 + d * (B * h);
    assert a0 * (B - d) == a0 * B - d * a0;
    assert B * (a1 * B + a0 - (a1 + h) * d) == BB * a1 + B * a0 - B * ((a1 + h) * d);
  }

  lemma EstimateHigh(a1: int, a0: int, d: int, mi: int, k: int, h: int, g: int)
    requires (mi + B) * d == BB - k && mi * (a1 + 1) + a0 + d - B == B * h + g
    ensures B * (a1 * B + a0 - (a1 + h) * d) == (a1 + 1) * k + (B - d) * (a0 + d - B) + d * g
  {
    EstimateLow(a1 + 1, a0 + d - B, d, mi, k, h, g);
    var x, y := (a1 + 1) * B + (a0 + d - B) - (a1 + 1 + h) * d, a1 * B + a0 - (a1 + h) * d;
    assert (a1 + 1 + h) * d == (a1 + h) * d + d;
    assert x == y;
    assert (a0 + d - B) * (B - d) == (B - d) * (a0 + d - B);
  }

  /** From the scaled remainder to the remainder itself. */
  lemma Unscale(e: int, d: int, s: int, g: int)
    requires B * e == s + d * g && 0 <= s < B * d && 0 <= g < B && d > 0
    ensures 0 <= e < 2 * d
  {
    MulNonNeg(d, g);
    MulLe(g, B, d);
  }

  lemma LowRange(a1: int, a0: int, d: int, k: int)
    requires HALF <= d < B && 0 <= a1 < d && 0 <= a0 < HALF && 1 <= k <= d
    ensures 0 <= a1 * k + a0 * (B - d) < B * d
  {
    MulNonNeg(a1, k);
    MulNonNeg(a0, B - d);
    MulLe(a1, d - 1, k);
    MulLe(k, d, d - 1);
    MulLe(a0, d, B - d);
    assert (d - 1) * d == d * d - d && d * (B - d) == B * d - d * d;
  }

  lemma HighRange(a1: int, a0: int, d: int, k: int)
    requires HALF <= d < B && 0 <= a1 < d && HALF <= a0 < B && 1 <= k <= d
    ensures 0 <= (a1 + 1) * k + (B - d) * (a0 + d - B) < B * d
  {
    MulNonNeg(a1 + 1, k);
    MulNonNeg(B - d, a0 + d - B);
    MulLe(a1 + 1, d, k);
    MulLe(k, d, d);
    MulLe(a0 + d - B, d - 1, B - d);
    assert (B - d) * (d - 1) == B * d - d * d - (B - d);
  }

  /** The estimate q = a1 + Hi(dInv (a1 + n1) + nAdj) leaves a remainder in [0, 2d). */
  lemma UdivEstimate(a1: limb, a0: limb, d: limb, mi: limb)
    requires Normalized(d) && a1 < d && mi == Udiv1Init(d)
    ensures var n1 := if a0 < HALF then 0 else 1;
            var t := mi * (a1 + n1) + (if a0 < HALF then a0 as int else a0 + d - B);
            0 <= t < BB && 0 <= a1 * B + a0 - (a1 + t / B) * d < 2 * d
  {
    InverseExact(d);
    var k := BB - (mi as int + B) * d as int;
    var n1 := if a0 < HALF then 0 else 1;
    var adj: int := if a0 < HALF then a0 as int else a0 as int + d as int - B;
    var t: int := mi as int * (a1 as int + n1) + adj;
    MulNonNeg(mi, a1 + n1);
    MulLe(mi, B - 1, a1 + n1);
    MulLe(a1 + n1, B - 1, B - 1);
    var h, g := t / B, t % B;
    if a0 < HALF {
      EstimateLow(a1, a0, d, mi, k, h, g);
      LowRange(a1, a0, d, k);
    } else {
      EstimateHigh(a1, a0, d, mi, k, h, g);
      HighRange(a1, a0, d, k);
    }
    var s: int := if a0 < HALF then a1 as int * k + a0 as int * (B - d) else (a1 as int + 1) * k + (B - d) * (a0 as int + d as int - B);
    Unscale(a1 as int * B + a0 as int - (a1 as int + h) * d as int, d, s, g);
  }

  /** The branch-free correction at the end of udiv1norm. */
  lemma UdivFix(n: int, q: int, d: int, a: dlimb)
    requires HALF <= d < B && 0 <= n < d * B && 0 <= q < B && 0 <= n - q * d < 2 * d && a == Wide(n - q * d - d)
    ensures Hi(a) == 0 || Hi(a) == B - 1
    ensures Lo(q + 1 + Hi(a)) == n / d
    ensures Lo(Lo(a) + MaskAnd(d, Hi(a))) == n % d
  {
    var v := n - q * d - d;
    if v < 0 {
      LoIs2(v, BB, -1, v + BB);
      HiOf(v + BB, B - 1, v + B);
      DivModUnique(n, d, q, v + d);
      LoIs(q + B, 1, q);
      LoIs(v + B + d, 1, v + d);
    } else {
      LoIs2(v, BB, 0, v);
      HiOf(v, 0, v);
      assert (q + 1) * d == q * d + d;
      DivModUnique(n, d, q + 1, v);
      DivLess(n, d, B);
      LoIs(q + 1, 0, q + 1);
      LoIs(v, 0, v);
    }
  }

  lemma LoIs2(x: int, m: int, q: int, r: int)
    requires m > 0 && x == m * q + r && 0 <= r < m
    ensures x % m == r
  {
    DivModUnique(x, m, q, r);
  }

  /** udiv1norm: exact quotient and remainder of a1 B + a0 by d, without a division. */
  method Udiv1Norm(a1: limb, a0: limb, d: limb, dInv: limb) returns (q: limb, r: limb)
    requires Normalized(d) && a1 < d && dInv == Udiv1Init(d)
    ensures q == (a1 * B + a0) / d && r == (a1 * B + a0) % d
  {
    hide Udiv1Init, Wide, Lo, Hi;
    var n1m := SignMask(a0);
    var nAdj: limb := Lo(a0 as int + MaskAnd(d, n1m) as int);
    UdivWords(a1, a0, d);
    UdivEstimate(a1, a0, d, dInv);
    var t: int := dInv as int * Lo(a1 as int - n1m as int) as int + nAdj as int;
    ghost var n := a1 as int * B + a0 as int;
    NumeratorRange(a1, a0, d);
    QuotientRange(n, d, a1 as int + t / B);
    HiIs(t);
    q := Lo(Hi(t) as int + a1 as int);
    LoIs(Hi(t) as int + a1 as int, 0, Hi(t) as int + a1 as int);
    var a := Wide(a1 as int * B + a0 as int - q as int * d as int - d as int);
    UdivFix(n, q, d, a);
    var ah := Hi(a);
    q := Lo(q as int + 1 + ah as int);
    r := Lo(Lo(a) as int + MaskAnd(d, ah) as int);
  }

  lemma HiIs(t: dlimb)
    ensures Hi(t) == t / B
  {}

  lemma UdivWords(a1: limb, a0: limb, d: limb)
    requires Normalized(d) && a1 < d
    ensures SignMask(a0) == (if a0 < HALF then 0 else B - 1)
    ensures Lo(a0 as int + MaskAnd(d, SignMask(a0)) as int) == (if a0 < HALF then a0 as int else a0 as int + d as int - B)
    ensures Lo(a1 as int - SignMask(a0) as int) == a1 + (if a0 < HALF then 0 else 1)
  {}

  lemma NumeratorRange(a1: limb, a0: limb, d: limb)
    requires a1 < d
    ensures 0 <= a1 * B + a0 < d * B
  {}

  lemma QuotientRange(n: int, d: int, q: int)
    requires d > 0 && n < d * B && 0 <= n - q * d
    ensures q < B
  {
    if q >= B { MulLe(B, q, d); }
  }

  // ----- mp_div1norm -----

  lemma TwoLimbQuotient(a1: limb, a0: limb, d: limb)
    requires d > 0 && a1 < d
    ensures 0 <= (a1 * B + a0) / d < B && 0 <= (a1 * B + a0) % d < d
    ensures a1 * B + a0 == d * ((a1 * B + a0) / d) + (a1 * B + a0) % d
  {
    NumeratorRange(a1, a0, d);
    DivNonNeg(a1 * B + a0, d);
    DivLess(a1 * B + a0, d, B);
  }

  /** One more limb of the quotient: with v d + r = x, dividing r B + a by d gives the next step. */
  lemma QuotientStep(v: int, d: int, r: int, x: int, a: int, q: int, e: int)
    requires v * d + r == x && r * B + a == d * q + e
    ensures (q + B * v) * d + e == a + B * x
  {
    assert (q + B * v) * d == d * q + B * (v * d);
    assert B * (v * d + r) == B * (v * d) + r * B;
  }

  /** mp_div1norm: tab = (a + r0 B^n) / b, the remainder is returned. */
  method Div1Norm(tab: array<limb>, a: seq<limb>, b: limb, r0: limb) returns (r: limb)
    requires |a| <= tab.Length && Normalized(b) && r0 < b
    modifies tab
    ensures r < b
    ensures Val(tab[..|a|]) * b + r == Val(a) + Pow(B, |a|) * r0
    ensures SameOutside(old(tab[..]), tab[..], 0, |a|)
  {
    hide Val, Pow, Udiv1Init;
    r := r0;
    var n := |a|;
    var i := n;
    ghost var x: int := r0;
    assert a[n..] == [] && tab[n..n] == [];
    ValZeros([]);
    PowZero(B);
    var fast := n >= UDIV1NORM_THRESHOLD;
    var bInv := if fast then Udiv1Init(b) else 0;
    while i > 0
      invariant 0 <= i <= n && r < b
      invariant Val(tab[i..n]) * b + r == x == Val(a[i..]) + Pow(B, n - i) * r0
      invariant SameOutside(old(tab[..]), tab[..], 0, n)
    {
      i := i - 1;
      ghost var w := tab[i + 1..n];
      TwoLimbQuotient(r, a[i], b);
      var q: limb, e: limb;
      if fast {
        q, e := Udiv1Norm(r, a[i], b, bInv);
      } else {
        q, e := (r as int * B + a[i] as int) / b as int, (r as int * B + a[i] as int) % b as int;
      }
      QuotientStep(Val(w), b, r, x, a[i], q, e);
      tab[i] := q;
      assert tab[i..n] == [q] + w;
      assert a[i..] == [a[i]] + a[i + 1..];
      ValCons(q, w);
      ValCons(a[i], a[i + 1..]);
      PowNextB(n - i - 1);
      TopGrows(a[i], x, Val(a[i + 1..]), Pow(B, n - i - 1), r0);
      x := a[i] + B * x;
      r := e;
    }
    assert a[0..] == a && tab[..n] == tab[0..n];
  }
}
