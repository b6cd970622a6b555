/** bf_get_fft_size: digit width, number of moduli and transform length for a product of len limbs. */
module NttSize {
  import opened Arith
  import opened Word
  import opened Bits
  import opened NttMods

  const LIMB_BITS: nat := 64
  const MOD_LOG2_MIN: nat := 61
  const MOD_LOG2_MAX: nat := 62
  const MAX_LEN: int := 0x10_0000_0000_0000

  function Min(a: int, b: int): int { if a < b then a else b }

  /** ceil_log2: the least e with a <= 2^e. */
  function CeilLog2(a: int): (e: nat)
    ensures a <= Two(e) && (e > 0 ==> Two(e - 1) < a)
    decreases a
  {
    if a <= 1 then TwoSmall(); 0
    else
      var e := CeilLog2((a + 1) / 2);
      TwoAdd(e, 1);
      TwoSmall();
      assert e > 0 ==> Two(e - 1) * 2 == Two(e) by { if e > 0 { TwoAdd(e - 1, 1); } }
      e + 1
  }

  /** Number of digits of width d that cover len limbs. */
  function DigitCount(len: int, d: int): int
    requires d > 0
  {
    (len * LIMB_BITS + d - 1) / d
  }

  lemma DigitCountIs(len: int, d: int)
    requires d > 0
    ensures len * 64 <= d * DigitCount(len, d) < len * 64 + d
  {
    DivBounds(len * 64 + d - 1, d);
  }

  /** What makes a choice of parameters safe for a product of len limbs. */
  ghost predicate Fits(len: int, k: nat, d: nat, nb: nat) {
    && 3 <= nb <= NB_MODS && k <= PROOT_2EXP && 1 <= d
    && len * 64 <= d * Two(k)
    && k + 2 * d <= INT_BITS[NB_MODS - nb]
  }

  lemma FitsFromDigits(len: int, k: nat, d: nat)
    requires d >= 1 && DigitCount(len, d) <= Two(k)
    ensures len * 64 <= d * Two(k)
  {
    DigitCountIs(len, d);
    MulLe(DigitCount(len, d), Two(k), d);
  }

  /** Any safe choice is for at most 2^52 limbs. */
  lemma FitsLimit(len: int, k: nat, d: nat, nb: nat)
    requires Fits(len, k, d, nb)
    ensures len <= MAX_LEN
  {
    TwoWord();
    TwoSmall();
    TwoAdd(16, 16); TwoAdd(32, 16); TwoAdd(48, 2); TwoAdd(50, 1); TwoAdd(1, 1);
    if k <= 50 {
      TwoMono(k, 50);
      MulLe(Two(k), Two(50), d);
      MulLe(d, 153, Two(50));
    } else {
      MulLe(d, 128, Two(51));
    }
  }

  lemma WideCount(len: int, d: nat, t: int)
    requires len * 64 <= 128 * t && d >= 128 && t > 0
    ensures DigitCount(len, d) <= t
  {
    MulLe(128, d, t);
    assert d * (t + 1) == d * t + d;
    DivLess(len * 64 + d - 1, d, t + 1);
  }

  /** With 128-bit digits, every length up to 2^52 gives a transform of order at most 2^51. */
  lemma WideDigits(len: int, d: nat)
    requires 1 <= len <= MAX_LEN && d >= 128
    ensures CeilLog2(DigitCount(len, d)) <= PROOT_2EXP
  {
    hide Two, DigitCount;
    TwoWord();
    TwoSmall();
    TwoAdd(32, 16); TwoAdd(48, 2); TwoAdd(50, 1); TwoAdd(1, 1);
    WideCount(len, d, Two(51));
    var e := CeilLog2(DigitCount(len, d));
    if e > PROOT_2EXP { TwoMono(51, e - 1); }
  }

  /** Cost estimates stay below the initial minimum 2^64 - 1. */
  lemma CostFits(k: nat, nb: nat)
    requires k <= PROOT_2EXP && nb <= NB_MODS
    ensures 0 <= (k + 1) * Two(k) * nb < B - 1
  {
    TwoWord();
    TwoSmall();
    TwoAdd(32, 16); TwoAdd(48, 2); TwoAdd(50, 1); TwoAdd(1, 1);
    TwoMono(k, 51);
    MulLe(k + 1, 52, Two(k));
    MulLe(Two(k), Two(51), 52);
    MulNonNeg(k + 1, Two(k));
    MulLe(nb, 5, (k + 1) * Two(k));
    MulNonNeg((k + 1) * Two(k), nb);
  }

  /** Two limbs fit one digit of the widest kind. */
  lemma ShortDigits(len: int)
    requires len >= 1
    ensures len <= 2 ==> CeilLog2(DigitCount(len, 151)) == 0
  {}

  lemma CostAtLeast(k: nat, nb: nat)
    requires nb >= 3
    ensures k == 0 ==> (k + 1) * Two(k) * nb == nb
    ensures k >= 1 ==> (k + 1) * Two(k) * nb >= 12
  {
    TwoSmall();
    if k >= 1 {
      TwoMono(1, k);
      MulLe(2, k + 1, Two(k));
      MulLe(3, nb, (k + 1) * Two(k));
    }
  }

  // ----- candidates -----

  /** Order of the transform for digits of width d. */
  function Order(len: int, d: int): nat
    requires d > 0
  {
    CeilLog2(DigitCount(len, d))
  }

  /** Width at which the search for nb moduli starts. */
  function StartWidth(nb: nat): nat { if nb == 5 then 151 else if nb == 4 then 121 else 90 }

  /** Digits of width d give a transform that exists, with coefficients below the product of the nb largest moduli. */
  ghost predicate DigitFits(len: int, nb: nat, d: int)
    requires 3 <= nb <= NB_MODS
  {
    1 <= d && Order(len, d) <= PROOT_2EXP && Order(len, d) + 2 * d <= INT_BITS[NB_MODS - nb]
  }

  ghost predicate NoneAbove(len: int, nb: nat, d: int)
    requires 3 <= nb <= NB_MODS
  {
    forall e :: d < e <= StartWidth(nb) ==> !DigitFits(len, nb, e)
  }

  /** d is the candidate for nb moduli: the largest width from the start downwards that fits. */
  ghost predicate Widest(len: int, nb: nat, d: int)
    requires 3 <= nb <= NB_MODS
  {
    d <= StartWidth(nb) && DigitFits(len, nb, d) && NoneAbove(len, nb, d)
  }

  function Cost(k: nat, nb: nat): int { (k + 1) * Two(k) * nb }

  /** The candidate for m moduli, if any, costs more, or as much with at least as many moduli. */
  ghost predicate NotCheaper(len: int, k: nat, nb: nat, m: nat)
    requires 3 <= m <= NB_MODS
  {
    forall e :: Widest(len, m, e) ==> Cost(k, nb) <= Cost(Order(len, e), m) && (Cost(k, nb) == Cost(Order(len, e), m) ==> nb <= m)
  }

  /** The cheapest candidate, with the fewest moduli among equals. */
  ghost predicate Cheapest(len: int, k: nat, nb: nat, d: int)
    requires 3 <= nb <= NB_MODS
  {
    Widest(len, nb, d) && k == Order(len, d) && forall m :: 3 <= m <= NB_MODS ==> NotCheaper(len, k, nb, m)
  }

  /** Wider digits never need a longer transform. */
  lemma OrderDown(len: int, d: int, e: int)
    requires len >= 1 && 0 < d <= e
    ensures Order(len, e) <= Order(len, d)
  {
    hide Two, DigitCount, CeilLog2;
    CountDown(len, d, e);
    var m, n := Order(len, e), Order(len, d);
    if n < m { TwoMono(n, m - 1); }
  }

  lemma CountDown(len: int, d: int, e: int)
    requires len >= 1 && 0 < d <= e
    ensures DigitCount(len, e) <= DigitCount(len, d)
  {
    DigitCountIs(len, d);
    DigitCountIs(len, e);
    var m, n := DigitCount(len, d), DigitCount(len, e);
    assert e * (m + 1) == e * m + e;
    if m < n { MulLe(m + 1, n, e); }
    if m >= 0 { MulLe(d, e, m); }
  }

  lemma OneWidest(len: int, nb: nat, d: int, e: int)
    requires 3 <= nb <= NB_MODS && Widest(len, nb, d) && Widest(len, nb, e)
    ensures d == e
  {
    hide DigitFits;
  }

  /** Beyond a width whose transform is too long there is no candidate. */
  lemma TooLong(len: int, nb: nat, d: int)
    requires len >= 1 && 3 <= nb <= NB_MODS && d >= 1 && Order(len, d) > PROOT_2EXP && NoneAbove(len, nb, d)
    ensures NoneAbove(len, nb, 0)
  {
    hide Order;
    forall e | 0 < e <= StartWidth(nb) ensures !DigitFits(len, nb, e) {
      if e <= d { OrderDown(len, e, d); }
    }
  }

  /** The inner loop: the widest digit that keeps every coefficient below the moduli product. */
  method WidestDigit(len: int, nb: nat) returns (ok: bool, k: nat, d: nat)
    requires len >= 1 && 3 <= nb <= NB_MODS
    ensures ok ==> Fits(len, k, d, nb) && Widest(len, nb, d) && k == Order(len, d)
    ensures !ok ==> NoneAbove(len, nb, 0)
    ensures nb == NB_MODS && len <= MAX_LEN ==> ok
    ensures nb == NB_MODS && len <= 2 ==> k == 0
  {
    hide Two, CeilLog2, DigitCount;
    ShortDigits(len);
    var intBits := INT_BITS[NB_MODS - nb];
    d := Min((intBits - 4) / 2, 2 * LIMB_BITS + 2 * MOD_LOG2_MIN - MOD_LOG2_MAX);
    ok, k := false, 0;
    while true
      invariant 1 <= d <= StartWidth(nb) && 2 * d <= intBits - 3 && !ok && NoneAbove(len, nb, d)
      invariant nb == NB_MODS && len <= MAX_LEN ==> d >= 128
      invariant nb == NB_MODS && len <= 2 ==> d == 151
      decreases d
    {
      k := CeilLog2(DigitCount(len, d));
      if nb == NB_MODS && len <= MAX_LEN { WideDigits(len, d); }
      if k > PROOT_2EXP {
        TooLong(len, nb, d);
        return;
      }
      if k + 2 * d <= intBits {
        FitsFromDigits(len, k, d);
        ok := true;
        return;
      }
      d := d - 1;
      if d == 0 { return; }
    }
  }

  /** What the search has kept after the candidates for 3 .. nb - 1 moduli. */
  ghost predicate Kept(len: int, nb: nat, ok: bool, k: nat, d: int, nbMods: nat, minCost: int)
    requires 3 <= nb <= NB_MODS + 1
  {
    && (forall m :: 3 <= m < nb && !ok ==> NoneAbove(len, m, 0))
    && (ok ==> 3 <= nbMods < nb && Widest(len, nbMods, d) && k == Order(len, d) && minCost == Cost(k, nbMods))
    && (ok ==> forall m :: 3 <= m < nb ==> NotCheaper(len, k, nbMods, m))
  }

  lemma KeptNew(len: int, nb: nat, ok: bool, k: nat, d: int, nbMods: nat, minCost: int, l: nat, e: int)
    requires 3 <= nb <= NB_MODS && Kept(len, nb, ok, k, d, nbMods, minCost) && Widest(len, nb, e) && l == Order(len, e)
    requires ok ==> Cost(l, nb) < minCost
    ensures Kept(len, nb + 1, true, l, e, nb, Cost(l, nb))
  {
    hide Order, Cost, DigitFits;
    forall m | 3 <= m < nb + 1 ensures NotCheaper(len, l, nb, m) {
      if m < nb && !ok { NoneNotCheaper(len, l, nb, m); }
      forall f | Widest(len, nb, f) ensures f == e { OneWidest(len, nb, e, f); }
      assert m < nb && ok ==> NotCheaper(len, k, nbMods, m);
    }
  }

  lemma NoneNotCheaper(len: int, k: nat, nb: nat, m: nat)
    requires 3 <= m <= NB_MODS && NoneAbove(len, m, 0)
    ensures NotCheaper(len, k, nb, m)
  {
    hide Order, Cost, DigitFits;
    forall f | Widest(len, m, f) ensures false { WidestPositive(len, m, f); }
  }

  lemma WidestPositive(len: int, nb: nat, d: int)
    requires 3 <= nb <= NB_MODS && Widest(len, nb, d)
    ensures 0 < d <= StartWidth(nb)
  {
    hide Order;
  }

  lemma KeptOld(len: int, nb: nat, k: nat, d: int, nbMods: nat, minCost: int, l: nat, e: int)
    requires 3 <= nb <= NB_MODS && Kept(len, nb, true, k, d, nbMods, minCost) && Widest(len, nb, e) && l == Order(len, e)
    requires Cost(l, nb) >= minCost
    ensures Kept(len, nb + 1, true, k, d, nbMods, minCost)
  {
    hide Order, Cost, DigitFits;
    forall f | Widest(len, nb, f) ensures f == e { OneWidest(len, nb, e, f); }
    assert NotCheaper(len, k, nbMods, nb);
  }

  lemma KeptNone(len: int, nb: nat, ok: bool, k: nat, d: int, nbMods: nat, minCost: int)
    requires 3 <= nb <= NB_MODS && Kept(len, nb, ok, k, d, nbMods, minCost) && NoneAbove(len, nb, 0)
    ensures Kept(len, nb + 1, ok, k, d, nbMods, minCost)
  {
    hide Order, Cost, DigitFits;
    forall f | Widest(len, nb, f) ensures false { WidestPositive(len, nb, f); }
    assert ok ==> NotCheaper(len, k, nbMods, nb);
  }

  /** bf_get_fft_size. It finds parameters exactly when len is at most 2^52 limbs; the source aborts otherwise. They are the
      cheapest candidate, its digit width cut to 125 where that still covers len limbs. From 2^58 limbs on the number of
      bits would no longer fit a limb. */
  method FftSize(len: int) returns (ok: bool, k: nat, dpl: nat, nbMods: nat, ghost width: int)
    requires 1 <= len < B / 64
    ensures ok <==> len <= MAX_LEN
    ensures ok ==> Fits(len, k, dpl, nbMods)
    ensures ok ==> (k == 0 <==> len <= 2)
    ensures ok ==> Cheapest(len, k, nbMods, width) && dpl == (if width > 125 && 125 * Two(k) >= 64 * len then 125 else width)
  {
    hide Two, Fits, Cost, Widest, NoneAbove, NotCheaper, Order;
    var minCost := B - 1;
    ok, k, dpl, nbMods, width := false, 0, 0, 4, 0;
    var nb := 3;
    while nb <= NB_MODS
      invariant 3 <= nb <= NB_MODS + 1
      invariant ok ==> Fits(len, k, dpl, nbMods)
      invariant !ok ==> minCost == B - 1
      invariant ok && k >= 1 ==> minCost >= 12
      invariant nb > NB_MODS && len <= MAX_LEN ==> ok
      invariant nb > NB_MODS && len <= 2 ==> k == 0
      invariant Kept(len, nb, ok, k, dpl, nbMods, minCost)
    {
      var found, l, d := WidestDigit(len, nb);
      if found {
        FitsRange(len, l, d, nb);
        CostFits(l, nb);
        CostAtLeast(l, nb);
        CostIs(l, nb);
        var cost := (l + 1) * Two(l) * nb;
        if cost < minCost {
          KeptNew(len, nb, ok, k, dpl, nbMods, minCost, l, d);
          minCost := cost;
          ok, k, dpl, nbMods := true, l, d, nb;
        } else {
          KeptOld(len, nb, k, dpl, nbMods, minCost, l, d);
        }
      } else {
        KeptNone(len, nb, ok, k, dpl, nbMods, minCost);
      }
      nb := nb + 1;
    }
    width := dpl;
    if ok {
      KeptAll(len, k, width, nbMods, minCost);
      FitsLimit(len, k, dpl, nbMods);
      if len >= 3 { FitsOrder(len, k, dpl, nbMods); }
      if dpl > LIMB_BITS + MOD_LOG2_MIN && (LIMB_BITS + MOD_LOG2_MIN) * Two(k) >= len * LIMB_BITS {
        FitsSmaller(len, k, dpl, LIMB_BITS + MOD_LOG2_MIN, nbMods);
        dpl := LIMB_BITS + MOD_LOG2_MIN;
      }
    }
  }

  lemma CostIs(k: nat, nb: nat)
    ensures Cost(k, nb) == (k + 1) * Two(k) * nb
  {}

  lemma KeptAll(len: int, k: nat, d: int, nbMods: nat, minCost: int)
    requires Kept(len, NB_MODS + 1, true, k, d, nbMods, minCost)
    ensures 3 <= nbMods <= NB_MODS && Cheapest(len, k, nbMods, d)
  {
    hide Widest, NotCheaper, Order, Cost;
  }

  lemma FitsRange(len: int, k: nat, d: nat, nb: nat)
    requires Fits(len, k, d, nb)
    ensures k <= PROOT_2EXP && 1 <= d <= 153
  {}

  lemma FitsSmaller(len: int, k: nat, d: nat, e: nat, nb: nat)
    requires Fits(len, k, d, nb) && 1 <= e <= d && len * 64 <= e * Two(k)
    ensures Fits(len, k, e, nb)
  {}

  /** From three limbs on the transform has length at least two. */
  lemma FitsOrder(len: int, k: nat, d: nat, nb: nat)
    requires Fits(len, k, d, nb) && len >= 3
    ensures k >= 1
  {
    TwoSmall();
  }
}
