/** The schoolbook layer of the limb arithmetic: in-place carry and borrow loops
    (mp_add, mp_sub, mp_neg, mp_shr, mp_mul1, mp_add_mul1, mp_sub_mul1, mp_mul_basecase, mp_mul). */
module MpBase {
  import opened Arith
  import opened Word
  import opened Limbs
  import opened Bits
  import opened NttSize
  import opened FftMul

  // ----- one step of a carry loop -----

  /** With k the carry into limb i and p = B^i, writing a and carrying k1 adds d at position i. */
  lemma CarryCore(v: int, k: int, p: int, t: int, a: int, k1: int, d: int)
    requires v + k * p == t && a + k1 * B == d + k
    ensures (v + a * p) + k1 * (B * p) == t + d * p
  {
    assert (a + k1 * B) * p == a * p + (k1 * B) * p;
    assert (k1 * B) * p == k1 * (B * p);
    assert (d + k) * p == d * p + k * p;
  }

  /** The limbs written so far and the pending carry add up to t. */
  ghost predicate Acc(w: seq<limb>, k: int, t: int) {
    Val(w) + k * Pow(B, |w|) == t
  }

  lemma CarryStep(w0: seq<limb>, a: limb, k: int, k1: int, d: int, t: int, i: nat)
    requires |w0| == i && Acc(w0, k, t) && a + k1 * B == d + k
    ensures Acc(w0 + [a], k1, t + d * Pow(B, i))
  {
    hide Val, Pow;
    ValSnoc(w0, a);
    PowNextB(i);
    CarryCore(Val(w0), k, Pow(B, i), t, a, k1, d);
  }

  lemma CarryStart(c: int)
    ensures Val([]) == 0 && Acc([], c, c)
  {
    PowZero(B);
  }

  /** Writing cell i of a window whose cells from i on are still the original ones. */
  lemma WindowStep(t0: seq<limb>, t: seq<limb>, off: nat, i: nat, x: limb)
    requires off + i < |t| && SameOutside(t0, t, off, off + i)
    ensures SameOutside(t0, t[off + i := x], off, off + i + 1)
    ensures t[off + i := x][off..off + i + 1] == t[off..off + i] + [x]
  {}

  lemma WindowRead(t0: seq<limb>, t: seq<limb>, off: nat, i: nat, n: nat)
    requires i < n && off + n <= |t| && SameOutside(t0, t, off, off + i)
    ensures |t0| == |t| && t[off + i] == t0[off..off + n][i]
  {}

  lemma SameStart(t0: seq<limb>, off: nat)
    requires off <= |t0|
    ensures SameOutside(t0, t0, off, off) && t0[off..off] == []
  {}

  lemma WindowDone(t0: seq<limb>, t: seq<limb>, off: nat, i: nat, n: nat)
    requires SameOutside(t0, t, off, off + i) && i <= n && off + n <= |t0|
    ensures |t| == |t0| && SameOutside(t0, t, off, off + n)
    ensures t[off + i..off + n] == t0[off + i..off + n]
  {}

  lemma AccIs(w: seq<limb>, k: int, t: int)
    requires Acc(w, k, t)
    ensures Val(w) + k * Pow(B, |w|) == t
  {}

  lemma AccBorrow(w: seq<limb>, k: int, t: int)
    requires Acc(w, -k, t)
    ensures Val(w) - k * Pow(B, |w|) == t
  {
    NegTimes(k, Pow(B, |w|));
  }

  lemma SumTimes(x: int, y: int, p: int)
    ensures (x + y) * p == x * p + y * p && (x - y) * p == x * p - y * p
  {}

  lemma NegTimes(y: int, p: int)
    ensures (-y) * p == -(y * p)
  {}

  // ----- addition and subtraction -----

  lemma AddWord(v: limb, y: limb, k: limb)
    requires k <= 1
    ensures var a := Lo(v as int + y as int); var r := Lo(a as int + k as int);
            var k2 := if r < k then 1 else if a < v then 1 else 0;
            r as int + k2 * B == v as int + y as int + k as int
  {}

  lemma SubWord(v: limb, y: limb, k: limb)
    requires k <= 1
    ensures var a := Lo(v as int - y as int); var r := Lo(a as int - k as int);
            var k2 := if r > a then 1 else if a > v then 1 else 0;
            r as int - k2 * B == v as int - y as int - k as int
  {}

  lemma AddLimb(v: limb, k: limb)
    ensures var a := Lo(v as int + k as int); a as int + (if a < k then 1 else 0) * B == v as int + k as int
  {}

  lemma SubLimb(v: limb, k: limb)
    ensures var a := Lo(v as int - k as int); a as int - (if a > v then 1 else 0) * B == v as int - k as int
  {}

  /** mp_add with the first operand in place. */
  method Add(tab: array<limb>, off: nat, b: seq<limb>, carry: limb) returns (k: limb)
    requires off + |b| <= tab.Length && carry <= 1
    modifies tab
    ensures k <= 1
    ensures Val(tab[off..off + |b|]) + k * Pow(B, |b|) == old(Val(tab[off..off + |b|])) + Val(b) + carry
    ensures SameOutside(old(tab[..]), tab[..], off, off + |b|)
  {
    hide Val, Pow, Acc, SameOutside, Lo;
    k := carry;
    var i, n := 0, |b|;
    ghost var t0 := tab[..];
    ghost var s := t0[off..off + n];
    SameStart(t0, off);
    CarryStart(carry);
    assert s[..0] == [] && b[..0] == [];
    while i < n
      invariant 0 <= i <= n && k <= 1
      invariant Acc(tab[..][off..off + i], k, Val(s[..i]) + Val(b[..i]) + carry)
      invariant |tab[..]| == |t0| && SameOutside(t0, tab[..], off, off + i)
    {
      ghost var before := tab[..];
      ghost var w := tab[..][off..off + i];
      WindowRead(t0, tab[..], off, i, n);
      var v := tab[off + i];
      var a: limb := Lo(v as int + b[i] as int);
      var k1 := if a < v then 1 else 0;
      var r: limb := Lo(a as int + k as int);
      var k2: limb := if r < k then 1 else k1;
      AddWord(v, b[i], k);
      CarryStep(w, r, k, k2, s[i] as int + b[i] as int, Val(s[..i]) + Val(b[..i]) + carry, i);
      ValNext(s, i);
      ValNext(b, i);
      SumTimes(s[i], b[i], Pow(B, i));
      WindowStep(t0, tab[..], off, i, r);
      tab[off + i] := r;
      k := k2;
      assert tab[..] == before[off + i := r];
      i := i + 1;
    }
    assert s[..n] == s && b[..n] == b;
    WindowDone(t0, tab[..], off, i, n);
    assert tab[..][off..off + n] == tab[off..off + n];
    AccIs(tab[off..off + n], k, Val(s) + Val(b) + carry);
  }

  /** mp_sub with the first operand in place. */
  method Sub(tab: array<limb>, off: nat, b: seq<limb>, carry: limb) returns (k: limb)
    requires off + |b| <= tab.Length && carry <= 1
    modifies tab
    ensures k <= 1
    ensures Val(tab[off..off + |b|]) - k * Pow(B, |b|) == old(Val(tab[off..off + |b|])) - Val(b) - carry
    ensures SameOutside(old(tab[..]), tab[..], off, off + |b|)
  {
    hide Val, Pow, Acc, SameOutside, Lo;
    k := carry;
    var i, n := 0, |b|;
    ghost var t0 := tab[..];
    ghost var s := t0[off..off + n];
    SameStart(t0, off);
    CarryStart(-(carry as int));
    assert s[..0] == [] && b[..0] == [];
    while i < n
      invariant 0 <= i <= n && k <= 1
      invariant Acc(tab[..][off..off + i], -(k as int), Val(s[..i]) - Val(b[..i]) - carry)
      invariant |tab[..]| == |t0| && SameOutside(t0, tab[..], off, off + i)
    {
      ghost var before := tab[..];
      ghost var w := tab[..][off..off + i];
      WindowRead(t0, tab[..], off, i, n);
      var v := tab[off + i];
      var a: limb := Lo(v as int - b[i] as int);
      var k1 := if a > v then 1 else 0;
      var r: limb := Lo(a as int - k as int);
      var k2: limb := if r > a then 1 else k1;
      SubWord(v, b[i], k);
      CarryStep(w, r, -(k as int), -(k2 as int), s[i] as int - b[i] as int, Val(s[..i]) - Val(b[..i]) - carry, i);
      ValNext(s, i);
      ValNext(b, i);
      SumTimes(s[i], b[i], Pow(B, i));
      WindowStep(t0, tab[..], off, i, r);
      tab[off + i] := r;
      k := k2;
      assert tab[..] == before[off + i := r];
      i := i + 1;
    }
    assert s[..n] == s && b[..n] == b;
    WindowDone(t0, tab[..], off, i, n);
    assert tab[..][off..off + n] == tab[off..off + n];
    AccBorrow(tab[off..off + n], k, Val(s) - Val(b) - carry);
  }

  /** mp_neg in place: 0 - tab - carry. */
  method Neg(tab: array<limb>, off: nat, n: nat, carry: limb) returns (k: limb)
    requires off + n <= tab.Length && carry <= 1
    modifies tab
    ensures k <= 1
    ensures Val(tab[off..off + n]) - k * Pow(B, n) == -old(Val(tab[off..off + n])) - carry
    ensures SameOutside(old(tab[..]), tab[..], off, off + n)
  {
    hide Val, Pow, Acc, SameOutside, Lo;
    k := carry;
    var i := 0;
    ghost var t0 := tab[..];
    ghost var s := t0[off..off + n];
    SameStart(t0, off);
    CarryStart(-(carry as int));
    assert s[..0] == [];
    while i < n
      invariant 0 <= i <= n && k <= 1
      invariant Acc(tab[..][off..off + i], -(k as int), -Val(s[..i]) - carry)
      invariant |tab[..]| == |t0| && SameOutside(t0, tab[..], off, off + i)
    {
      ghost var before := tab[..];
      ghost var w := tab[..][off..off + i];
      WindowRead(t0, tab[..], off, i, n);
      var a: limb := Lo(0 - tab[off + i] as int);
      var k1 := if a > 0 then 1 else 0;
      var r: limb := Lo(a as int - k as int);
      var k2: limb := if r > a then 1 else k1;
      SubWord(0, tab[off + i], k);
      CarryStep(w, r, -(k as int), -(k2 as int), -(s[i] as int), -Val(s[..i]) - carry, i);
      ValNext(s, i);
      NegTimes(s[i], Pow(B, i));
      WindowStep(t0, tab[..], off, i, r);
      tab[off + i] := r;
      k := k2;
      assert tab[..] == before[off + i := r];
      i := i + 1;
    }
    assert s[..n] == s;
    WindowDone(t0, tab[..], off, i, n);
    assert tab[..][off..off + n] == tab[off..off + n];
    AccBorrow(tab[off..off + n], k, -Val(s) - carry);
  }

  lemma StopParts(t0: seq<limb>, t: seq<limb>, off: nat, i: nat, n: nat)
    requires i <= n && off + n <= |t0| == |t| && t[off + i..off + n] == t0[off + i..off + n]
    ensures t[off..off + n][i..] == t0[off..off + n][i..] && t[off..off + n][..i] == t[off..off + i]
  {
    assert t[off..off + n][i..] == t[off + i..off + n] && t0[off..off + n][i..] == t0[off + i..off + n];
  }

  lemma EarlyStop(s: seq<limb>, t: seq<limb>, i: nat)
    requires i <= |s| == |t| && s[i..] == t[i..]
    ensures Val(t) - Val(s) == Val(t[..i]) - Val(s[..i])
  {
    hide Val;
    ValSplit(s, i);
    ValSplit(t, i);
  }

  /** mp_add_ui: stops as soon as the carry is gone. */
  method AddUi(tab: array<limb>, off: nat, n: nat, b: limb) returns (k: limb)
    requires off + n <= tab.Length
    modifies tab
    ensures Val(tab[off..off + n]) + k * Pow(B, n) == old(Val(tab[off..off + n])) + b
    ensures n > 0 || b <= 1 ==> k <= 1
    ensures SameOutside(old(tab[..]), tab[..], off, off + n)
  {
    hide Val, Pow, Acc, SameOutside, Lo;
    k := b;
    var i := 0;
    ghost var t0 := tab[..];
    ghost var s := t0[off..off + n];
    SameStart(t0, off);
    CarryStart(b);
    assert s[..0] == [];
    while i < n && k != 0
      invariant 0 <= i <= n && (i > 0 ==> k <= 1) && (i == 0 ==> k == b)
      invariant Acc(tab[..][off..off + i], k, Val(s[..i]) + b)
      invariant |tab[..]| == |t0| && SameOutside(t0, tab[..], off, off + i)
    {
      ghost var before := tab[..];
      ghost var w := tab[..][off..off + i];
      WindowRead(t0, tab[..], off, i, n);
      var a: limb := Lo(tab[off + i] as int + k as int);
      var k1: limb := if a < k then 1 else 0;
      AddLimb(tab[off + i], k);
      CarryStep(w, a, k, k1, s[i], Val(s[..i]) + b, i);
      ValNext(s, i);
      WindowStep(t0, tab[..], off, i, a);
      tab[off + i] := a;
      k := k1;
      assert tab[..] == before[off + i := a];
      i := i + 1;
    }
    ghost var t := tab[..][off..off + n];
    assert t == tab[off..off + n];
    WindowDone(t0, tab[..], off, i, n);
    StopParts(t0, tab[..], off, i, n);
    AccIs(t[..i], k, Val(s[..i]) + b);
    EarlyStop(s, t, i);
  }

  /** mp_sub_ui: stops as soon as the borrow is gone. */
  method SubUi(tab: array<limb>, off: nat, n: nat, b: limb) returns (k: limb)
    requires off + n <= tab.Length
    modifies tab
    ensures Val(tab[off..off + n]) - k * Pow(B, n) == old(Val(tab[off..off + n])) - b
    ensures n > 0 || b <= 1 ==> k <= 1
    ensures SameOutside(old(tab[..]), tab[..], off, off + n)
  {
    hide Val, Pow, Acc, SameOutside, Lo;
    k := b;
    var i, done := 0, false;
    ghost var t0 := tab[..];
    ghost var s := t0[off..off + n];
    SameStart(t0, off);
    CarryStart(-(b as int));
    assert s[..0] == [];
    while i < n && !done
      invariant 0 <= i <= n && (i > 0 ==> k <= 1) && (i == 0 ==> k == b) && (done ==> k == 0)
      invariant Acc(tab[..][off..off + i], -(k as int), Val(s[..i]) - b)
      invariant |tab[..]| == |t0| && SameOutside(t0, tab[..], off, off + i)
    {
      ghost var before := tab[..];
      ghost var w := tab[..][off..off + i];
      WindowRead(t0, tab[..], off, i, n);
      var v := tab[off + i];
      var a: limb := Lo(v as int - k as int);
      var k1: limb := if a > v then 1 else 0;
      SubLimb(v, k);
      CarryStep(w, a, -(k as int), -(k1 as int), s[i], Val(s[..i]) - b, i);
      ValNext(s, i);
      WindowStep(t0, tab[..], off, i, a);
      tab[off + i] := a;
      k := k1;
      assert tab[..] == before[off + i := a];
      if k == 0 { done := true; }
      i := i + 1;
    }
    ghost var t := tab[..][off..off + n];
    assert t == tab[off..off + n];
    WindowDone(t0, tab[..], off, i, n);
    StopParts(t0, tab[..], off, i, n);
    AccBorrow(t[..i], k, Val(s[..i]) - b);
    EarlyStop(s, t, i);
  }

  // ----- multiplication by one limb -----

  lemma WordProduct(x: limb, b: limb, l: limb, y: limb)
    ensures 0 <= x * b + l + y < BB
    ensures 0 <= (x * b + l + y) / B < B
    ensures x * b + l + y == B * ((x * b + l + y) / B) + (x * b + l + y) % B
  {
    MulNonNeg(x, b);
    MulLe(x, B - 1, b);
    MulLe(b, B - 1, B - 1);
  }

  lemma ScaleStep(v: int, x: int, p: int, b: int)
    ensures (v + x * p) * b == v * b + (x * b) * p
  {
    assert (v + x * p) * b == v * b + (x * p) * b;
    assert (x * p) * b == (x * b) * p;
  }

  /** mp_mul1: tab = a * b + l, the high limb is returned. */
  method Mul1(tab: array<limb>, off: nat, a: seq<limb>, b: limb, l0: limb) returns (l: limb)
    requires off + |a| <= tab.Length
    modifies tab
    ensures Val(tab[off..off + |a|]) + l * Pow(B, |a|) == Val(a) * b + l0
    ensures SameOutside(old(tab[..]), tab[..], off, off + |a|)
  {
    hide Val, Pow, Acc, SameOutside, Lo, Hi;
    l := l0;
    var i, n := 0, |a|;
    ghost var t0 := tab[..];
    SameStart(t0, off);
    CarryStart(l0);
    assert a[..0] == [];
    while i < n
      invariant 0 <= i <= n
      invariant Acc(tab[..][off..off + i], l, Val(a[..i]) * b + l0)
      invariant |tab[..]| == |t0| && SameOutside(t0, tab[..], off, off + i)
    {
      ghost var before := tab[..];
      ghost var w := tab[..][off..off + i];
      WindowRead(t0, tab[..], off, i, n);
      WordProduct(a[i], b, l, 0);
      var t: dlimb := a[i] as int * b as int + l as int;
      HiLo(t);
      CarryStep(w, Lo(t), l, Hi(t), a[i] as int * b as int, Val(a[..i]) * b + l0, i);
      ValNext(a, i);
      ScaleStep(Val(a[..i]), a[i], Pow(B, i), b);
      WindowStep(t0, tab[..], off, i, Lo(t));
      tab[off + i] := Lo(t);
      l := Hi(t);
      assert tab[..] == before[off + i := Lo(t)];
      i := i + 1;
    }
    assert a[..n] == a;
    WindowDone(t0, tab[..], off, i, n);
    assert tab[..][off..off + n] == tab[off..off + n];
    AccIs(tab[off..off + n], l, Val(a) * b + l0);
  }

  /** mp_add_mul1: tab += a * b, the high limb is returned. */
  method AddMul1(tab: array<limb>, off: nat, a: seq<limb>, b: limb) returns (l: limb)
    requires off + |a| <= tab.Length
    modifies tab
    ensures Val(tab[off..off + |a|]) + l * Pow(B, |a|) == old(Val(tab[off..off + |a|])) + Val(a) * b
    ensures SameOutside(old(tab[..]), tab[..], off, off + |a|)
  {
    hide Val, Pow, Acc, SameOutside, Lo, Hi;
    l := 0;
    var i, n := 0, |a|;
    ghost var t0 := tab[..];
    ghost var s := t0[off..off + n];
    SameStart(t0, off);
    CarryStart(0);
    assert s[..0] == [] && a[..0] == [];
    while i < n
      invariant 0 <= i <= n
      invariant Acc(tab[..][off..off + i], l, Val(s[..i]) + Val(a[..i]) * b)
      invariant |tab[..]| == |t0| && SameOutside(t0, tab[..], off, off + i)
    {
      ghost var before := tab[..];
      ghost var w := tab[..][off..off + i];
      WindowRead(t0, tab[..], off, i, n);
      WordProduct(a[i], b, l, s[i]);
      var t: dlimb := a[i] as int * b as int + l as int + tab[off + i] as int;
      HiLo(t);
      CarryStep(w, Lo(t), l, Hi(t), a[i] as int * b as int + s[i] as int, Val(s[..i]) + Val(a[..i]) * b, i);
      ValNext(a, i);
      ValNext(s, i);
      ScaleStep(Val(a[..i]), a[i], Pow(B, i), b);
      SumTimes(a[i] as int * b as int, s[i], Pow(B, i));
      WindowStep(t0, tab[..], off, i, Lo(t));
      tab[off + i] := Lo(t);
      l := Hi(t);
      assert tab[..] == before[off + i := Lo(t)];
      i := i + 1;
    }
    assert s[..n] == s && a[..n] == a;
    WindowDone(t0, tab[..], off, i, n);
    assert tab[..][off..off + n] == tab[off..off + n];
    AccIs(tab[off..off + n], l, Val(s) + Val(a) * b);
  }

  lemma BorrowCore(v: int)
    requires -(B * (B - 1)) <= v < B
    ensures Lo(Wide(v)) as int - B * (Lo(-(Hi(Wide(v)) as int))) as int == v
  {
    var q, r := v / B, v % B;
    assert v == B * q + r && -B < q <= 0;
    if v >= 0 {
      DivModUnique(v, BB, 0, v);
      HiOf(v, 0, r);
      LoIs(0, 0, 0);
    } else {
      DivModUnique(v, BB, -1, v + BB);
      HiOf(v + BB, q + B, r);
      LoIs(-(q + B), -1, -q);
    }
  }

  lemma HiOf(x: dlimb, q: int, r: int)
    requires x == B * q + r && 0 <= r < B
    ensures Hi(x) == q && Lo(x) == r
  {
    DivModUnique(x, B, q, r);
  }

  /** A double word that went negative: its low limb, and the limb to borrow. */
  lemma BorrowWord(x: limb, y: limb, b: limb, l: limb)
    ensures var v := x as int - y as int * b as int - l as int; Lo(Wide(v)) as int - B * (Lo(-(Hi(Wide(v)) as int))) as int == v
  {
    hide Lo, Wide, Hi;
    var p := y as int * b as int;
    ProductBounds(y, b);
    BorrowCore(x as int - p - l as int);
  }

  /** mp_sub_mul1: tab -= a * b, the limb to subtract from the next one is returned. */
  method SubMul1(tab: array<limb>, off: nat, a: seq<limb>, b: limb) returns (l: limb)
    requires off + |a| <= tab.Length
    modifies tab
    ensures Val(tab[off..off + |a|]) - l * Pow(B, |a|) == old(Val(tab[off..off + |a|])) - Val(a) * b
    ensures SameOutside(old(tab[..]), tab[..], off, off + |a|)
  {
    hide Val, Pow, Acc, SameOutside, Wide, Lo, Hi;
    l := 0;
    var i, n := 0, |a|;
    ghost var t0 := tab[..];
    ghost var s := t0[off..off + n];
    SameStart(t0, off);
    CarryStart(0);
    assert s[..0] == [] && a[..0] == [];
    while i < n
      invariant 0 <= i <= n
      invariant Acc(tab[..][off..off + i], -(l as int), Val(s[..i]) - Val(a[..i]) * b)
      invariant |tab[..]| == |t0| && SameOutside(t0, tab[..], off, off + i)
    {
      ghost var before := tab[..];
      ghost var w := tab[..][off..off + i];
      WindowRead(t0, tab[..], off, i, n);
      BorrowWord(s[i], a[i], b, l);
      var t := Wide(tab[off + i] as int - a[i] as int * b as int - l as int);
      var l1 := Lo(-(Hi(t) as int));
      CarryStep(w, Lo(t), -(l as int), -(l1 as int), s[i] as int - a[i] as int * b as int, Val(s[..i]) - Val(a[..i]) * b, i);
      ValNext(a, i);
      ValNext(s, i);
      ScaleStep(Val(a[..i]), a[i], Pow(B, i), b);
      SumTimes(s[i], a[i] as int * b as int, Pow(B, i));
      WindowStep(t0, tab[..], off, i, Lo(t));
      tab[off + i] := Lo(t);
      l := l1;
      assert tab[..] == before[off + i := Lo(t)];
      i := i + 1;
    }
    assert s[..n] == s && a[..n] == a;
    WindowDone(t0, tab[..], off, i, n);
    assert tab[..][off..off + n] == tab[off..off + n];
    AccBorrow(tab[off..off + n], l, Val(s) - Val(a) * b);
  }
}
