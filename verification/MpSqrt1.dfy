/** mp_sqrtrem1 and mp_sqrtrem2: square roots of one and two limbs. */
module MpSqrt1 {
  import opened Arith
  import opened Word

  /** s is the integer square root of n and r the remainder. */
  ghost predicate IsRoot(n: int, s: int, r: int) {
    n == s * s + r && 0 <= r <= 2 * s
  }

  lemma SquareMono(x: int, y: int)
    requires 0 <= x <= y
    ensures x * x <= y * y
  {
    MulLe(x, y, x);
    MulLe(x, y, y);
  }

  // sqrt_table, thirty-two entries to a row
  function Row0(): (r: seq<int>)
    ensures |r| == 32
  {
    [
    128, 128, 129, 130, 131, 132, 133, 134, 135, 136, 137, 138, 139, 140, 141, 142,
    143, 144, 144, 145, 146, 147, 148, 149, 150, 150, 151, 152, 153, 154, 155, 155]
  }

  function Row1(): (r: seq<int>)
    ensures |r| == 32
  {
    [
    156, 157, 158, 159, 160, 160, 161, 162, 163, 163, 164, 165, 166, 167, 167, 168,
    169, 170, 170, 171, 172, 173, 173, 174, 175, 176, 176, 177, 178, 178, 179, 180]
  }

  function Row2(): (r: seq<int>)
    ensures |r| == 32
  {
    [
    181, 181, 182, 183, 183, 184, 185, 185, 186, 187, 187, 188, 189, 189, 190, 191,
    192, 192, 193, 193, 194, 195, 195, 196, 197, 197, 198, 199, 199, 200, 201, 201]
  }

  function Row3(): (r: seq<int>)
    ensures |r| == 32
  {
    [
    202, 203, 203, 204, 204, 205, 206, 206, 207, 208, 208, 209, 209, 210, 211, 211,
    212, 212, 213, 214, 214, 215, 215, 216, 217, 217, 218, 218, 219, 219, 220, 221]
  }

  function Row4(): (r: seq<int>)
    ensures |r| == 32
  {
    [
    221, 222, 222, 223, 224, 224, 225, 225, 226, 226, 227, 227, 228, 229, 229, 230,
    230, 231, 231, 232, 232, 233, 234, 234, 235, 235, 236, 236, 237, 237, 238, 238]
  }

  function Row5(): (r: seq<int>)
    ensures |r| == 32
  {
    [
    239, 240, 240, 241, 241, 242, 242, 243, 243, 244, 244, 245, 245, 246, 246, 247,
    247, 248, 248, 249, 249, 250, 250, 251, 251, 252, 252, 253, 253, 254, 254, 255]
  }

  /** An entry v for the 16-bit numbers with top byte t is their root or one below it. */
  predicate EntryOk(v: int, t: int) {
    64 <= v < 256 && v * v <= 256 * t && 256 * t + 255 < (v + 2) * (v + 2)
  }

  lemma Row0Ok(i: nat)
    requires i < 32
    ensures EntryOk(Row0()[i], 64 + i)
  {}

  lemma Row1Ok(i: nat)
    requires i < 32
    ensures EntryOk(Row1()[i], 96 + i)
  {}

  lemma Row2Ok(i: nat)
    requires i < 32
    ensures EntryOk(Row2()[i], 128 + i)
  {}

  lemma Row3Ok(i: nat)
    requires i < 32
    ensures EntryOk(Row3()[i], 160 + i)
  {}

  lemma Row4Ok(i: nat)
    requires i < 32
    ensures EntryOk(Row4()[i], 192 + i)
  {}

  lemma Row5Ok(i: nat)
    requires i < 32
    ensures EntryOk(Row5()[i], 224 + i)
  {}

  function SqrtRow(j: nat): (r: seq<int>)
    ensures |r| == 32
  {
    if j == 0 then Row0() else if j == 1 then Row1() else if j == 2 then Row2()
    else if j == 3 then Row3() else if j == 4 then Row4() else Row5()
  }

  /** sqrt_table. */
  function SqrtTable(i: nat): int
    requires i < 192
  {
    SqrtRow(i / 32)[i % 32]
  }

  /** Every entry serves all the numbers that look it up. */
  lemma TableOk(i: nat)
    requires i < 192
    ensures EntryOk(SqrtTable(i), i + 64)
  {
    hide Row0, Row1, Row2, Row3, Row4, Row5, EntryOk;
    if i < 32 { Row0Ok(i); }
    else if i < 64 { Row1Ok(i - 32); }
    else if i < 96 { Row2Ok(i - 64); }
    else if i < 128 { Row3Ok(i - 96); }
    else if i < 160 { Row4Ok(i - 128); }
    else { Row5Ok(i - 160); }
  }

  // ----- one refinement step -----

  /** The number with root digits so far s1 (remainder r1) and the next two base-b digits c1, c0. */
  function Extended(s1: int, r1: int, b: int, c1: int, c0: int): int {
    (s1 * s1 + r1) * (b * b) + c1 * b + c0
  }

  /** Dividing the remainder by 2 s1 gives s = s1 b + q with n = s^2 + r. */
  lemma StepIdentity(s1: int, r1: int, b: int, c1: int, c0: int, q: int, u: int)
    requires r1 * b + c1 == 2 * s1 * q + u
    ensures var s := s1 * b + q; Extended(s1, r1, b, c1, c0) == s * s + (u * b + c0 - q * q)
  {
    LiftRoot(s1, r1, b);
    LiftRemainder(s1, r1, b, c1, q, u);
    var w := s1 * b;
    assert (w + q) * (w + q) == w * w + 2 * (w * q) + q * q;
  }

  lemma LiftRoot(s1: int, r1: int, b: int)
    ensures (s1 * s1 + r1) * (b * b) == (s1 * b) * (s1 * b) + (r1 * b) * b
  {
    assert (s1 * s1 + r1) * (b * b) == (s1 * s1) * (b * b) + r1 * (b * b);
    assert (s1 * s1) * (b * b) == (s1 * b) * (s1 * b);
    assert r1 * (b * b) == (r1 * b) * b;
  }

  lemma LiftRemainder(s1: int, r1: int, b: int, c1: int, q: int, u: int)
    requires r1 * b + c1 == 2 * s1 * q + u
    ensures (r1 * b) * b + c1 * b == 2 * ((s1 * b) * q) + u * b
  {
    assert (r1 * b + c1) * b == (r1 * b) * b + c1 * b;
    assert (2 * s1 * q + u) * b == (2 * s1 * q) * b + u * b;
    assert (2 * s1 * q) * b == 2 * ((s1 * b) * q);
  }

  lemma QuotientRange(t: int, r1: int, b: int, c1: int, q: int, u: int)
    requires b >= 1 && t >= b && 0 <= r1 <= t && 0 <= c1 < b && r1 * b + c1 == t * q + u && 0 <= u < t
    ensures 0 <= q <= b
  {
    MulNonNeg(r1, b);
    MulLe(r1, t, b);
    assert t * (b + 1) == t * b + t;
    if q <= -1 { MulLe(q, -1, t); }
    if q >= b + 1 { MulLe(b + 1, q, t); }
  }

  lemma RemainderRange(s1: int, b: int, c0: int, q: int, u: int)
    requires b >= 1 && 2 * s1 >= b && 0 <= c0 < b && 0 <= u < 2 * s1 && 0 <= q <= b
    ensures var s := s1 * b + q; var r := u * b + c0 - q * q;
            s >= 0 && -(b * b) <= r <= 2 * s && (r < 0 ==> s >= 1 && 0 <= r + 2 * s - 1 <= 2 * (s - 1))
  {
    var sb := s1 * b;
    MulNonNeg(u, b);
    MulLe(u, 2 * s1 - 1, b);
    assert (2 * s1 - 1) * b == 2 * sb - b;
    MulLe(b, 2 * s1, b);
    assert (2 * s1) * b == 2 * sb;
    MulLe(q, b, q);
    MulLe(q, b, b);
    MulNonNeg(q, q);
    assert q == 0 ==> q * q == 0;
  }

  /** q is at most b, the new remainder at most 2 s, and one decrement repairs a negative one. */
  lemma StepRange(s1: int, r1: int, b: int, c1: int, c0: int, q: int, u: int)
    requires b >= 1 && 2 * s1 >= b && 0 <= r1 <= 2 * s1 && 0 <= c1 < b && 0 <= c0 < b
    requires r1 * b + c1 == 2 * s1 * q + u && 0 <= u < 2 * s1
    ensures 0 <= q <= b
    ensures var s := s1 * b + q; var r := u * b + c0 - q * q;
            s >= 0 && -(b * b) <= r <= 2 * s && (r < 0 ==> s >= 1 && 0 <= r + 2 * s - 1 <= 2 * (s - 1))
  {
    QuotientRange(2 * s1, r1, b, c1, q, u);
    RemainderRange(s1, b, c0, q, u);
  }

  /** The remainder after the decrement. */
  lemma Decremented(n: int, s: int, r: int)
    requires n == s * s + r && 0 <= r + 2 * s - 1 <= 2 * (s - 1)
    ensures IsRoot(n, s - 1, r + 2 * (s - 1) + 1)
  {
    assert (s - 1) * (s - 1) == s * s - 2 * s + 1;
  }

  // ----- one limb -----

  /** One refinement of mp_sqrtrem1: from a root to a root with twice the digits. */
  method Refine(s1: limb, r1: limb, b: int, c1: int, c0: int) returns (s: limb, r: limb)
    requires 2 <= b <= 0x1_0000 && b <= 2 * s1 && s1 < b && r1 <= 2 * s1 && 0 <= c1 < b && 0 <= c0 < b
    ensures IsRoot(Extended(s1, r1, b, c1, c0), s, r)
  {
    hide Extended, IsRoot;
    MulLe(r1, 2 * b, b);
    MulLe(b, 0x1_0000, b);
    MulNonNeg(r1, b);
    var num: limb := r1 * b + c1;
    var q: limb, u: limb := SmallDivide(num, 2 * s1);
    StepIdentity(s1, r1, b, c1, c0, q, u);
    StepRange(s1, r1, b, c1, c0, q, u);
    MulLe(s1, b, b);
    MulNonNeg(s1, b);
    s := s1 * b + q;
    ghost var e: int := u as int * b + c0 - q as int * q as int;
    SignedWord(e);
    r := Lo(u as int * b + c0 - q as int * q as int);
    if r >= HALF {
      Decremented(Extended(s1, r1, b, c1, c0), s, e);
      LoIs(r as int + 2 * (s as int - 1) + 1, 1, e + 2 * (s as int - 1) + 1);
      s := s - 1;
      r := Lo(r as int + 2 * s as int + 1);
    } else {
      RootHere(Extended(s1, r1, b, c1, c0), s, r);
    }
  }

  method SmallDivide(num: limb, t: limb) returns (q: limb, u: limb)
    requires t > 0
    ensures num == t * q + u && u < t
  {
    DivNonNeg(num, t);
    DivBounds(num, t);
    MulLe(1, t, num / t);
    q, u := num / t, num % t;
  }

  lemma RootHere(n: int, s: int, r: int)
    requires n == s * s + r && 0 <= r <= 2 * s
    ensures IsRoot(n, s, r)
  {}

  /** A small signed number in a limb. */
  lemma SignedWord(e: int)
    requires -HALF <= e < HALF
    ensures Lo(e) == (if e < 0 then e + B else e)
    ensures Lo(e) >= HALF <==> e < 0
  {
    if e < 0 { LoIs(e, -1, e + B); } else { LoIs(e, 0, e); }
  }

  lemma FirstRoot(a: int, v: int)
    requires 0 <= a < 0x1_0000 && EntryOk(v, a / 256)
    ensures v * v <= a
    ensures a - v * v <= 2 * v ==> IsRoot(a, v, a - v * v)
    ensures a - v * v > 2 * v ==> IsRoot(a, v + 1, a - v * v - (2 * v + 1))
  {
    assert (v + 1) * (v + 1) == v * v + 2 * v + 1 && (v + 2) * (v + 2) == v * v + 4 * v + 4;
  }

  const T56: int := 0x100_0000_0000_0000
  const T48: int := 0x1_0000_0000_0000
  const T40: int := 0x100_0000_0000
  const T32: int := 0x1_0000_0000
  const T16: int := 0x1_0000

  lemma ExtendedIs(s: int, r: int, a: int, b: int, c1: int, c0: int)
    requires IsRoot(a, s, r)
    ensures Extended(s, r, b, c1, c0) == a * (b * b) + c1 * b + c0
  {}

  /** A root of a number with 2d digits has d digits and a top bit to match. */
  lemma RootSize(a: int, s: int, r: int, b: int)
    requires IsRoot(a, s, r) && b >= 1 && b * b <= 4 * a && a < b * b
    ensures s < b && b <= 2 * s + 1
  {
    if s >= b { SquareMono(b, s); }
    assert (2 * s + 2) * (2 * s + 2) == 4 * (s * s + 2 * s + 1);
    if b >= 2 * s + 2 { SquareMono(2 * s + 2, b); }
  }

  /** The digits of a limb that mp_sqrtrem1 looks at. */
  lemma LimbDigits(a: limb)
    requires a >= HALF / 2
    ensures 64 <= a / T56 < 256 && 0x4000 <= a / T48 < T16 && a / T48 / 256 == a / T56
    ensures T32 / 4 <= a / T32 < T32
    ensures 0 <= a / T40 % 256 < 256 && 0 <= a / T32 % 256 < 256 && 0 <= a / T16 % T16 < T16 && 0 <= a % T16 < T16
    ensures a / T32 == (a / T48) * T16 + (a / T40 % 256) * 256 + a / T32 % 256
    ensures a == (a / T32) * T32 + (a / T16 % T16) * T16 + a % T16
  {
    ByteOff(a, T32, T40);
    ByteOff(a, T40, T48);
    ByteOff(a, T48, T56);
    WordOff(a, T16, T32);
  }

  lemma ByteOff(a: int, x: int, y: int)
    requires 0 <= a && x > 0 && y == 256 * x
    ensures a / y == a / x / 256
  {
    var q, e := a / x, a % x;
    assert a == x * q + e;
    assert x * (256 * (q / 256) + q % 256) == 256 * (x * (q / 256)) + x * (q % 256);
    MulLe(q % 256, 255, x);
    MulNonNeg(x, q % 256);
    assert y * (q / 256) == 256 * (x * (q / 256));
    DivModUnique(a, y, q / 256, x * (q % 256) + e);
  }

  lemma WordOff(a: int, x: int, y: int)
    requires 0 <= a && x > 0 && y == T16 * x
    ensures a / y == a / x / T16
  {
    var q, e := a / x, a % x;
    assert a == x * q + e;
    assert x * (T16 * (q / T16) + q % T16) == T16 * (x * (q / T16)) + x * (q % T16);
    MulLe(q % T16, T16 - 1, x);
    MulNonNeg(x, q % T16);
    assert y * (q / T16) == T16 * (x * (q / T16));
    DivModUnique(a, y, q / T16, x * (q % T16) + e);
  }

  /** mp_sqrtrem1: table lookup and two refinements. */
  method SqrtRem1(a: limb) returns (s: limb, r: limb)
    requires a >= HALF / 2
    ensures IsRoot(a, s, r) && s < T32 && T32 <= 2 * s
  {
    hide Extended, SqrtTable, IsRoot, EntryOk;
    LimbDigits(a);
    TableOk(a / T56 - 64);
    var a48, a32, c1, c0, d1, d0 := a / T48, a / T32, a / T40 % 256, a / T32 % 256, a / T16 % T16, a % T16;
    s, r := TableRoot(a48, a / T56);
    RootSize(a48, s, r, 256);
    RootParts(a48, s, r);
    ExtendedIs(s, r, a48, 256, c1, c0);
    s, r := Refine(s, r, 256, c1, c0);
    RootSize(a32, s, r, T16);
    RootParts(a32, s, r);
    ExtendedIs(s, r, a32, T16, d1, d0);
    s, r := Refine(s, r, T16, d1, d0);
    RootSize(a, s, r, T32);
    EvenSize(s);
  }

  lemma EvenSize(s: int)
    requires T32 <= 2 * s + 1
    ensures T32 <= 2 * s
  {}

  /** The 16-bit root from the table, adjusted by one where the entry is too small. */
  method TableRoot(a: int, t: int) returns (s: limb, r: limb)
    requires 0 <= a < T16 && 64 <= t < 256 && t == a / 256
    ensures IsRoot(a, s, r)
  {
    hide SqrtTable, IsRoot;
    TableOk(t - 64);
    s := SqrtTable(t - 64);
    FirstRoot(a, s);
    ghost var s0 := s;
    RootOrNext(a, s);
    r := a - s * s;
    if r > 2 * s {
      r, s := r - (2 * s + 1), s + 1;
    }
  }

  lemma RootOrNext(a: int, v: int)
    requires 0 <= a < T16 && 0 <= v && v * v <= a
    ensures 0 <= a - v * v < T16
  {
    MulNonNeg(v, v);
  }

  lemma RootParts(n: int, s: int, r: int)
    requires IsRoot(n, s, r)
    ensures 0 <= r <= 2 * s
  {}

  // ----- two limbs -----

  /** The square of q, with the special case q = 2^32 the source makes of it. */
  function QSquare(q: limb): int { if q / T32 != 0 then B else q as int * q as int }

  /** What one division step leaves: a root estimate that is right or one too large. */
  ghost predicate Estimate(n: int, s: int, e: int) {
    && n == s * s + e && 0 <= s <= B && -HALF * B <= e <= 2 * s && (s == B ==> e < 0)
    && (e < 0 ==> s >= 1 && 0 <= e + 2 * s - 1 <= 2 * (s - 1))
  }

  lemma StepEstimate(s1: int, r1: int, c1: int, c0: int, q: limb, u: int)
    requires T32 <= 2 * s1 && s1 < T32 && 0 <= r1 <= 2 * s1 && 0 <= c1 < T32 && 0 <= c0 < T32
    requires r1 * T32 + c1 == 2 * s1 * q + u && 0 <= u < 2 * s1 && Extended(s1, r1, T32, c1, c0) < BB
    ensures Estimate(Extended(s1, r1, T32, c1, c0), s1 * T32 + q, u * T32 + c0 - QSquare(q))
  {
    hide Extended;
    StepIdentity(s1, r1, T32, c1, c0, q, u);
    StepRange(s1, r1, T32, c1, c0, q, u);
    SquareOfQ(q);
    RootBelow(Extended(s1, r1, T32, c1, c0), s1 * T32 + q, u * T32 + c0 - q * q);
  }

  /** The sign test and the decrement. */
  method FixRoot(s0: limb, r0: dlimb, ghost n: int, ghost t: int, ghost e: int) returns (s: limb, r: dlimb)
    requires Estimate(n, t, e) && s0 == Lo(t) && r0 == Wide(e)
    ensures IsRoot(n, s, r)
  {
    hide IsRoot, Lo, Wide, Hi;
    s, r := s0, r0;
    WideSigned(e);
    if Hi(r) >= HALF {
      Decremented(n, t, e);
      if t == B { LoIs(t, 1, 0); } else { LoIs(t, 0, t); }
      LoIs(s as int - 1, if t == B then -1 else 0, t - 1);
      s := Lo(s as int - 1);
      WideIs(r as int + 2 * s as int + 1, 1, e + 2 * (t - 1) + 1);
      r := Wide(r as int + 2 * s as int + 1);
    } else {
      LoIs(t, 0, t);
      RootHere(n, t, e);
    }
  }

  /** mp_sqrtrem2: the root s of a1 B + a0, the remainder in two limbs. */
  method SqrtRem2(a1: limb, a0: limb) returns (s: limb, r0: limb, rh: limb)
    requires a1 >= HALF / 2
    ensures IsRoot(a1 * B + a0, s, rh * B + r0) && rh <= 1
  {
    hide Extended, IsRoot, Lo, Wide, Hi, Estimate, QSquare;
    var s1, r1 := SqrtRem1(a1);
    RootParts(a1, s1, r1);
    var c1: int, c0: int := a0 / T32, a0 % T32;
    HalfLimbs(a0);
    var q: limb, u: limb := HalfDivide(r1, c1, s1);
    ghost var n := Extended(s1, r1, T32, c1, c0);
    ExtendedIs(s1, r1, a1, T32, c1, c0);
    assert n == a1 * B + a0;
    StepEstimate(s1, r1, c1, c0, q, u);
    s := Lo(s1 as int * T32 + q as int);
    var r := Wide(u as int * T32 + c0 - QSquare(q));
    s, r := FixRoot(s, r, n, s1 as int * T32 + q as int, u as int * T32 + c0 - QSquare(q));
    RootParts(n, s, r);
    HiLo(r);
    r0, rh := Lo(r), Hi(r);
  }

  lemma HalfLimbs(a: limb)
    ensures 0 <= a / T32 < T32 && 0 <= a % T32 < T32 && a == (a / T32) * T32 + a % T32
  {}

  /** The division step on a double limb. */
  method HalfDivide(r1: limb, c1: int, s1: limb) returns (q: limb, u: limb)
    requires s1 < T32 && T32 <= 2 * s1 && r1 <= 2 * s1 && 0 <= c1 < T32
    ensures r1 * T32 + c1 == 2 * s1 * q + u && u < 2 * s1
  {
    var num: dlimb := r1 as int * T32 + c1;
    var t := 2 * s1 as int;
    DivNonNeg(num, t);
    DivLess(num, t, B) by { MulLe(T32, t, B); }
    DivBounds(num, t);
    q, u := num / t, num % t;
    assert num == t * q + u;
  }

  lemma SquareOfQ(q: limb)
    requires 0 <= q <= T32
    ensures QSquare(q) == q * q
  {
    if q / T32 != 0 { assert q == T32; }
  }

  lemma WideIs(x: int, q: int, r: int)
    requires x == BB * q + r && 0 <= r < BB
    ensures Wide(x) == r
  {
    DivModUnique(x, BB, q, r);
  }

  lemma WideSigned(e: int)
    requires -HALF * B <= e < HALF * B
    ensures Wide(e) == (if e < 0 then e + BB else e)
    ensures Hi(Wide(e)) >= HALF <==> e < 0
  {
    if e < 0 { WideIs(e, -1, e + BB); } else { WideIs(e, 0, e); }
  }

  /** A root estimate that reaches B belongs to a negative remainder. */
  lemma RootBelow(n: int, s: int, e: int)
    requires n == s * s + e && n < BB && 0 <= s
    ensures s >= B ==> e < 0
  {
    if s >= B { SquareMono(B, s); }
  }
}
