/** Modular reduction by multiplication with a precomputed inverse, for moduli
    strictly between 2^61 and 2^62. */
module ModMul {
  import opened Arith
  import opened Word

  const P61: int := 0x2000_0000_0000_0000
  const P125: int := 0x2000_0000_0000_0000_0000_0000_0000_0000

  /** The moduli of the transform. The lower bound is strict: at m = 2^61 the
      precomputed inverse of InitModFast would not fit in a limb. */
  ghost predicate Modulus(m: int) { P61 < m < 2 * P61 }

  function AddMod(a: limb, b: limb, m: limb): (r: limb)
    requires a < m && b < m && 2 * m <= B
    ensures r == a + b || r == a + b - m
    ensures r < m
  {
    var r := Lo(a + b);
    if r >= m then r - m else r
  }

  function SubMod(a: limb, b: limb, m: limb): (r: limb)
    requires a < m && b < m
    ensures r == a - b || r == a - b + m
    ensures r < m
  {
    var r := Lo(a - b);
    if r > a then Lo(r + m) else r
  }

  /** init_mul_mod_fast2: the multiplier b scaled by 2^64 / m. */
  function InitMulMod(b: limb, m: limb): limb
    requires b < m
  {
    Lo((b * B) / m)
  }

  lemma InitMulModExact(b: limb, m: limb)
    requires b < m
    ensures InitMulMod(b, m) == (b * B) / m
  {
    DivNonNeg(b * B, m);
    DivLess(b * B, m, B);
  }

  lemma Sandwich(a: int, b: int, m: int, inv: int, q: int, e: int, g: int)
    requires 0 <= a < B && 0 < m
    requires b * B == m * inv + e && 0 <= e < m
    requires a * inv == B * q + g && 0 <= g < B
    ensures B * (a * b - q * m) == a * e + m * g
  {
    assert a * (b * B) == a * (m * inv) + a * e by { Distribute(a, m * inv, e, b * B); }
    assert m * (a * inv) == m * (B * q) + m * g by { Distribute(m, B * q, g, a * inv); }
    assert a * (m * inv) == m * (a * inv);
    assert m * (B * q) == B * (q * m);
    assert a * (b * B) == B * (a * b);
  }

  lemma Distribute(a: int, x: int, y: int, s: int)
    requires s == x + y
    ensures a * s == a * x + a * y
  {}

  /** q = floor(a floor(bB/m) / B) underestimates ab/m by less than two. */
  lemma ScaledQuotient(a: int, b: int, m: int, inv: int, q: int)
    requires 0 <= a < B && 0 <= b < m && inv == (b * B) / m && q == (a * inv) / B
    ensures 0 <= a * b - q * m < 2 * m
  {
    DivBounds(b * B, m);
    DivBounds(a * inv, B);
    var e, g := b * B - m * inv, a * inv - B * q;
    Sandwich(a, b, m, inv, q, e, g);
    MulNonNeg(a, e);
    MulNonNeg(m, g);
    assert a * e <= B * e by { MulLe(a, B, e); }
    assert m * g <= m * (B - 1) by { MulLe(g, B - 1, m); }
  }

  /** mul_mod_fast3: ab mod m, up to one extra m. */
  function MulModFast3(a: limb, b: limb, m: limb, inv: limb): (r: limb)
    requires b < m && 2 * m <= B && inv == InitMulMod(b, m)
    ensures r < 2 * m && Cong(r, a * b, m)
  {
    var q := Lo((a * inv) / B);
    var r := Lo(Lo(a * b) - Lo(q * m));
    assert r == a * b - ((a * inv) / B) * m && r < 2 * m by { MulMod3Exact(a, b, m, inv, q); }
    assert Cong(r, a * b, m) by { CongIntro(r, a * b, m, -((a * inv) / B)); }
    r
  }

  lemma MulMod3Exact(a: limb, b: limb, m: limb, inv: limb, q: limb)
    requires b < m && 2 * m <= B && inv == InitMulMod(b, m) && q == Lo((a * inv) / B)
    ensures Lo(Lo(a * b) - Lo(q * m)) == a * b - ((a * inv) / B) * m < 2 * m
  {
    InitMulModExact(b, m);
    ProductBounds(a, inv);
    LoExact((a * inv) / B);
    ScaledQuotient(a, b, m, inv, (a * inv) / B);
    SubWrap(a * b, q * m);
  }

  /** mul_mod_fast2: exactly ab mod m. */
  function MulModFast2(a: limb, b: limb, m: limb, inv: limb): (r: limb)
    requires b < m && 2 * m <= B && inv == InitMulMod(b, m)
    ensures r < m && Cong(r, a * b, m)
  {
    var r := MulModFast3(a, b, m, inv);
    assert Cong(r - m, a * b, m) by { CongMinus(r, a * b, m); }
    if r >= m then r - m else r
  }

  lemma CongMinus(r: int, x: int, m: int)
    requires m > 0 && Cong(r, x, m)
    ensures Cong(r - m, x, m) && Cong(r + m, x, m)
  {
    CongIntro(r - m, r, m, -1);
    CongTrans(r - m, r, x, m);
    CongIntro(r + m, r, m, 1);
    CongTrans(r + m, r, x, m);
  }

  /** init_mul_mod_fast: 2^125 / m, truncated to a limb. */
  function InitModFast(m: limb): limb
    requires m > 0
  {
    Lo(P125 / m)
  }

  /** Over the asserted range 2^61 <= m < 2^62 the inverse fits a limb exactly when m > 2^61. */
  lemma InitModFastExact(m: limb)
    requires P61 <= m < 2 * P61
    ensures InitModFast(m) == P125 / m <==> m > P61
  {
    DivNonNeg(P125, m);
    if m > P61 {
      DivLess(P125, m, B);
    } else {
      assert P125 / P61 == B;
    }
  }

  /** The quotient estimate of mod_fast is at most the true one and short by less than three. */
  lemma FastQuotient(r: int, m: int, a1: int, inv: int, q: int)
    requires P61 < m < 2 * P61 && 0 <= r < P125
    requires inv == P125 / m && a1 == r / P61 && q == (a1 * inv) / B
    ensures 0 <= r - q * m < 3 * m
    ensures 0 <= a1 < B && 0 <= inv < B
  {
    DivBounds(P125, m);
    DivNonNeg(P125, m);
    DivLess(P125, m, B);
    DivBounds(a1 * inv, B);
    var e, f, g := P125 - m * inv, r - P61 * a1, a1 * inv - B * q;
    // B (r - q m) = B f + a1 e + m g
    assert m * (a1 * inv) == m * (B * q) + m * g by { Distribute(m, B * q, g, a1 * inv); }
    assert m * (B * q) == B * (q * m);
    assert m * (a1 * inv) == a1 * (m * inv);
    assert a1 * P125 == a1 * (m * inv) + a1 * e by { Distribute(a1, m * inv, e, P125); }
    assert B * (r - q * m) == B * f + a1 * e + m * g;
    MulNonNeg(a1, e);
    MulNonNeg(m, g);
    assert a1 * e <= B * e by { MulLe(a1, B, e); }
    assert m * g <= m * (B - 1) by { MulLe(g, B - 1, m); }
  }

  /** The branch-free tail of mod_fast: a signed value in [-2m, m) is brought into [0, m). */
  function Fold(s: dlimb, m: limb): (res: limb)
    requires m < 2 * P61 && -2 * m <= Signed(s) < m
    ensures res < m
    ensures res == Signed(s) || res == Signed(s) + m || res == Signed(s) + 2 * m
  {
    var t := SignedHalf(Hi(s));
    assert t == if Signed(s) < 0 then B - 1 else 0;
    var u := Wide(s + MaskAnd(m, t));
    assert Signed(u) == Signed(s) + if Signed(s) < 0 then m else 0;
    Lo(Lo(u) + MaskAnd(m, Hi(u)))
  }

  /** mod_fast: reduction of any r below 2^125. */
  function ModFast(r: dlimb, m: limb, inv: limb): (res: limb)
    requires Modulus(m) && inv == InitModFast(m) && r < P125
    ensures res < m && Cong(res, r, m)
  {
    var a1 := Lo(r / P61);
    var q := Lo((a1 * inv) / B);
    var s := Wide(r - Wide(q * m) - Lo(m * 2));
    assert Signed(s) == r - q * m - 2 * m && -2 * m <= Signed(s) < m by {
      ModFastEstimate(r, m, inv, a1, q, s);
    }
    var res := Fold(s, m);
    assert Cong(res, r, m) by { FoldCong(r, q, m, res); }
    res
  }

  lemma ModFastEstimate(r: dlimb, m: limb, inv: limb, a1: limb, q: limb, s: dlimb)
    requires Modulus(m) && inv == InitModFast(m) && r < P125
    requires a1 == Lo(r / P61) && q == Lo((a1 * inv) / B)
    requires s == Wide(r - Wide(q * m) - Lo(m * 2))
    ensures Signed(s) == r - q * m - 2 * m && -2 * m <= Signed(s) < m
  {
    hide Wide, Signed, InitModFast;
    InitModFastExact(m);
    FastQuotient(r, m, r / P61, inv, ((r / P61) * inv) / B);
    assert a1 == r / P61;
    ProductBounds(a1, inv);
    assert q == (a1 * inv) / B;
    SignedExact(r, q * m, m);
  }

  lemma SignedExact(r: dlimb, p: int, m: limb)
    requires 0 <= r - p < 3 * m && m < 2 * P61
    ensures Signed(Wide(r - Wide(p) - Lo(m * 2))) == r - p - 2 * m
  {}

  lemma FoldCong(r: int, q: int, m: int, res: int)
    requires m > 0
    requires var d := r - q * m - 2 * m; res == d || res == d + m || res == d + 2 * m
    ensures Cong(res, r, m)
  {
    var d := r - q * m - 2 * m;
    assert m * (-q) == -(q * m);
    assert m * (-q - 2) == -(q * m) - 2 * m;
    assert m * (-q - 1) == -(q * m) - m;
    CongIntro(res, r, m, if res == d then -q - 2 else if res == d + m then -q - 1 else -q);
  }

  /** mul_mod_fast. */
  function MulModFast(a: limb, b: limb, m: limb, inv: limb): (res: limb)
    requires Modulus(m) && inv == InitModFast(m) && a * b < P125
    ensures res < m && Cong(res, a * b, m)
  {
    ProductBounds(a, b);
    ModFast(a * b, m, inv)
  }
}
