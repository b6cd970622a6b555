/** Integer arithmetic shared by every component: Euclidean division seen as a
    unique decomposition, powers, and congruence. */
module Arith {

  // ----- products -----

  lemma MulLe(x: int, y: int, c: int)
    requires x <= y && 0 <= c
    ensures x * c <= y * c && c * x <= c * y
  {}

  lemma MulNonNeg(x: int, y: int)
    requires 0 <= x && 0 <= y
    ensures 0 <= x * y
  {}

  lemma MulSides(a: int, b: int)
    ensures a * b == b * a
  {}

  lemma MulAssoc(a: int, b: int, c: int, p: int)
    requires p == b * c
    ensures a * p == (a * b) * c
  {}

  lemma Interchange(a: int, b: int, x: int, y: int, p: int)
    requires p == x * y
    ensures (a * b) * p == (a * x) * (b * y)
  {
    assert (a * b) * (x * y) == (a * x) * (b * y);
  }

  /** A multiple of m that lies strictly between -m and m is zero. */
  lemma SmallMultiple(m: int, k: int)
    requires m > 0 && -m < m * k < m
    ensures k == 0
  {
    if k >= 1 { MulLe(1, k, m); }
    if k <= -1 { MulLe(k, -1, m); }
  }

  /** Quotient and remainder are determined by a = m * q + r with 0 <= r < m. */
  lemma DivModUnique(a: int, m: int, q: int, r: int)
    requires m > 0 && a == m * q + r && 0 <= r < m
    ensures a / m == q && a % m == r
  {
    var q1, r1 := a / m, a % m;
    assert a == m * q1 + r1;
    assert m * (q - q1) == m * q - m * q1 == r1 - r;
    SmallMultiple(m, q - q1);
  }

  /** Bounds that a truncated quotient satisfies. */
  lemma DivBounds(a: int, m: int)
    requires m > 0
    ensures m * (a / m) <= a < m * (a / m) + m
  {
    assert a == m * (a / m) + a % m;
  }

  lemma DivNonNeg(a: int, m: int)
    requires 0 <= a && m > 0
    ensures 0 <= a / m
  {
    if a / m <= -1 { DivBounds(a, m); MulLe(a / m, -1, m); }
  }

  /** a / m < c exactly when a < m * c. */
  lemma DivLess(a: int, m: int, c: int)
    requires m > 0 && a < m * c
    ensures a / m < c
  {
    DivBounds(a, m);
    if a / m >= c { MulLe(c, a / m, m); }
  }

  lemma DivAtLeast(a: int, m: int, c: int)
    requires m > 0 && m * c <= a
    ensures c <= a / m
  {
    DivBounds(a, m);
    if a / m <= c - 1 { MulLe(a / m + 1, c, m); }
  }

  lemma DivMul(m: int, q: int)
    requires m > 0
    ensures (m * q) / m == q && (m * q) % m == 0
  {
    DivModUnique(m * q, m, q, 0);
  }

  // ----- powers -----

  /** b to the power e; exponents below zero count as zero so that the function is total. */
  function Pow(b: int, e: int): int
    decreases e
  {
    if e <= 0 then 1 else b * Pow(b, e - 1)
  }

  lemma PowZero(b: int)
    ensures Pow(b, 0) == 1
  {}

  lemma {:induction false} PowPos(b: int, e: int)
    requires b > 0
    ensures Pow(b, e) > 0
    decreases e
  {
    if e > 0 { PowPos(b, e - 1); }
  }

  lemma {:induction false} PowAdd(b: int, d: nat, e: nat)
    ensures Pow(b, d + e) == Pow(b, d) * Pow(b, e)
  {
    if d > 0 {
      PowAdd(b, d - 1, e);
      MulAssoc(b, Pow(b, d - 1), Pow(b, e), Pow(b, d - 1 + e));
    }
  }

  lemma {:induction false} PowMulBase(a: int, b: int, c: int, e: int)
    requires c == a * b
    ensures Pow(c, e) == Pow(a, e) * Pow(b, e)
    decreases e
  {
    if e > 0 {
      PowMulBase(a, b, c, e - 1);
      Interchange(a, b, Pow(a, e - 1), Pow(b, e - 1), Pow(c, e - 1));
    }
  }

  lemma {:induction false} PowPow(b: int, d: nat, e: nat)
    ensures 0 <= d * e
    ensures Pow(Pow(b, d), e) == Pow(b, d * e)
  {
    MulNonNeg(d, e);
    if e > 0 {
      PowPow(b, d, e - 1);
      assert d * e == d + d * (e - 1);
      MulNonNeg(d, e - 1);
      PowAdd(b, d, d * (e - 1));
    }
  }

  lemma {:induction false} PowOne(e: int)
    ensures Pow(1, e) == 1
    decreases e
  {
    if e > 0 { PowOne(e - 1); }
  }

  lemma PowMono(b: int, d: nat, e: nat)
    requires b >= 1 && d <= e
    ensures Pow(b, d) <= Pow(b, e)
  {
    PowAdd(b, d, e - d);
    PowPos(b, d);
    PowPos(b, e - d);
    MulLe(1, Pow(b, e - d), Pow(b, d));
  }

  // ----- congruence -----

  ghost predicate Cong(a: int, b: int, m: int)
    requires m > 0
  {
    (a - b) % m == 0
  }

  lemma CongIntro(a: int, b: int, m: int, t: int)
    requires m > 0 && a == b + m * t
    ensures Cong(a, b, m)
  {
    DivMul(m, t);
  }

  lemma CongWitness(a: int, b: int, m: int) returns (t: int)
    requires m > 0 && Cong(a, b, m)
    ensures a == b + m * t
  {
    t := (a - b) / m;
    assert a - b == m * t + (a - b) % m;
  }

  lemma CongRefl(a: int, m: int)
    requires m > 0
    ensures Cong(a, a, m)
  {}

  lemma CongSym(a: int, b: int, m: int)
    requires m > 0 && Cong(a, b, m)
    ensures Cong(b, a, m)
  {
    var t := CongWitness(a, b, m);
    CongIntro(b, a, m, -t);
  }

  lemma CongTrans(a: int, b: int, c: int, m: int)
    requires m > 0 && Cong(a, b, m) && Cong(b, c, m)
    ensures Cong(a, c, m)
  {
    var t := CongWitness(a, b, m);
    var u := CongWitness(b, c, m);
    assert m * (t + u) == m * t + m * u;
    CongIntro(a, c, m, t + u);
  }

  lemma CongAdd(a: int, b: int, c: int, d: int, m: int)
    requires m > 0 && Cong(a, b, m) && Cong(c, d, m)
    ensures Cong(a + c, b + d, m)
  {
    var t := CongWitness(a, b, m);
    var u := CongWitness(c, d, m);
    assert m * (t + u) == m * t + m * u;
    CongIntro(a + c, b + d, m, t + u);
  }

  lemma CongSub(a: int, b: int, c: int, d: int, m: int)
    requires m > 0 && Cong(a, b, m) && Cong(c, d, m)
    ensures Cong(a - c, b - d, m)
  {
    var t := CongWitness(a, b, m);
    var u := CongWitness(c, d, m);
    assert m * (t - u) == m * t - m * u;
    CongIntro(a - c, b - d, m, t - u);
  }

  lemma CongScale(a: int, b: int, c: int, m: int)
    requires m > 0 && Cong(a, b, m)
    ensures Cong(a * c, b * c, m) && Cong(c * a, c * b, m)
  {
    var t := CongWitness(a, b, m);
    assert a * c == b * c + m * (t * c) by {
      assert (m * t) * c == m * (t * c);
    }
    CongIntro(a * c, b * c, m, t * c);
  }

  lemma CongMul(a: int, b: int, c: int, d: int, m: int)
    requires m > 0 && Cong(a, b, m) && Cong(c, d, m)
    ensures Cong(a * c, b * d, m)
  {
    CongScale(a, b, c, m);
    CongScale(c, d, b, m);
    CongTrans(a * c, b * c, b * d, m);
  }

  /** Two congruent numbers in [0, m) are equal. */
  lemma CongUnique(a: int, b: int, m: int)
    requires m > 0 && 0 <= a < m && 0 <= b < m && Cong(a, b, m)
    ensures a == b
  {
    var t := CongWitness(a, b, m);
    SmallMultiple(m, t);
  }

  lemma CongMod(a: int, m: int)
    requires m > 0
    ensures Cong(a % m, a, m)
  {
    assert a % m == a + m * (-(a / m));
    CongIntro(a % m, a, m, -(a / m));
  }

  lemma {:induction false} CongPow(a: int, b: int, e: int, m: int)
    requires m > 0 && Cong(a, b, m)
    ensures Cong(Pow(a, e), Pow(b, e), m)
    decreases e
  {
    if e > 0 {
      CongPow(a, b, e - 1, m);
      CongMul(a, b, Pow(a, e - 1), Pow(b, e - 1), m);
    } else {
      CongRefl(1, m);
    }
  }

  // ----- products as terms -----

  /** The product as a named function: equal arguments give equal products by
      substitution alone, without any reasoning about multiplication. */
  function Mul(a: int, b: int): int { a * b }

  lemma PowSplit(b: int, d: nat, e: nat, s: int)
    requires s == d + e
    ensures Pow(b, s) == Mul(Pow(b, d), Pow(b, e))
  {
    PowAdd(b, d, e);
  }

  lemma MulComm(a: int, b: int)
    ensures Mul(a, b) == Mul(b, a)
  {}

  lemma MulShift(a: int, b: int, c: int)
    ensures Mul(a, Mul(b, c)) == Mul(Mul(a, b), c)
  {
    MulAssoc(a, b, c, b * c);
  }

  lemma MulSwap(a: int, b: int, p: int, q: int)
    ensures Mul(Mul(a, b), Mul(p, q)) == Mul(Mul(a, p), Mul(b, q))
  {
    Interchange(a, b, p, q, p * q);
  }

  lemma MulCong(a: int, b: int, c: int, m: int)
    requires m > 0 && Cong(a, b, m)
    ensures Cong(Mul(a, c), Mul(b, c), m) && Cong(Mul(c, a), Mul(c, b), m)
  {
    CongScale(a, b, c, m);
  }

  lemma MulCong2(a: int, b: int, c: int, d: int, m: int)
    requires m > 0 && Cong(a, b, m) && Cong(c, d, m)
    ensures Cong(Mul(a, c), Mul(b, d), m)
  {
    CongMul(a, b, c, d, m);
  }

  lemma MulOne(a: int)
    ensures Mul(a, 1) == a && Mul(1, a) == a && Mul(a, 0) == 0 && Mul(0, a) == 0
  {}

  lemma PowUnit(w: int)
    ensures Pow(w, 1) == w && Pow(2, 0) == 1
  {
    assert Pow(w, 1) == w * Pow(w, 0);
  }

  lemma MulIs(a: int, b: int)
    ensures Mul(a, b) == a * b == b * a
  {}
}
