/** The integer a little-endian limb sequence stands for. */
module Limbs {
  import opened Arith
  import opened Word

  ghost function Val(s: seq<limb>): (v: int)
    ensures v >= 0
  {
    if |s| == 0 then 0
    else
      PowPos(B, |s| - 1);
      MulNonNeg(s[|s| - 1], Pow(B, |s| - 1));
      Val(s[..|s| - 1]) + s[|s| - 1] * Pow(B, |s| - 1)
  }

  lemma ValSnoc(s: seq<limb>, x: limb)
    ensures Val(s + [x]) == Val(s) + x * Pow(B, |s|)
  {
    assert (s + [x])[..|s|] == s;
  }

  /** A prefix grows by one limb. */
  lemma ValNext(s: seq<limb>, i: nat)
    requires i < |s|
    ensures Val(s[..i + 1]) == Val(s[..i]) + s[i] * Pow(B, i)
  {
    assert s[..i + 1] == s[..i] + [s[i]];
    ValSnoc(s[..i], s[i]);
  }

  lemma {:induction false} ValAppend(s: seq<limb>, t: seq<limb>)
    ensures Val(s + t) == Val(s) + Pow(B, |s|) * Val(t)
  {
    if |t| == 0 {
      assert s + t == s;
    } else {
      var t', x := t[..|t| - 1], t[|t| - 1];
      assert s + t == (s + t') + [x] && t == t' + [x];
      ValAppend(s, t');
      ValSnoc(s + t', x);
      ValSnoc(t', x);
      PowAdd(B, |s|, |t'|);
      AppendAlgebra(Pow(B, |s|), Val(t'), x, Pow(B, |t'|));
    }
  }

  lemma AppendAlgebra(p: int, v: int, x: int, q: int)
    ensures p * v + x * (p * q) == p * (v + x * q)
  {
    assert x * (p * q) == p * (x * q);
  }

  lemma ValSplit(s: seq<limb>, i: nat)
    requires i <= |s|
    ensures Val(s) == Val(s[..i]) + Pow(B, i) * Val(s[i..])
  {
    assert s == s[..i] + s[i..];
    ValAppend(s[..i], s[i..]);
  }

  lemma {:induction false} ValBound(s: seq<limb>)
    ensures Val(s) < Pow(B, |s|)
  {
    if |s| > 0 {
      ValBound(s[..|s| - 1]);
      var x, p := s[|s| - 1], Pow(B, |s| - 1);
      PowPos(B, |s| - 1);
      MulLe(x + 1, B, p);
      assert (x + 1) * p == x * p + p;
    }
  }

  lemma {:induction false} ValZeros(s: seq<limb>)
    requires forall i :: 0 <= i < |s| ==> s[i] == 0
    ensures Val(s) == 0
  {
    if |s| > 0 { ValZeros(s[..|s| - 1]); }
  }

  lemma ValOne(x: limb)
    ensures Val([x]) == x
  {
    ValSnoc([], x);
    assert [] + [x] == [x];
    PowZero(B);
  }

  lemma MinusTimes(x: int, y: int, p: int)
    ensures (x - y) * p == x * p - y * p
  {}

  /** Changing limb i changes the value by the difference times B^i. */
  lemma ValUpdate(s: seq<limb>, i: nat, x: limb)
    requires i < |s|
    ensures Val(s[i := x]) == Val(s) + (x - s[i]) * Pow(B, i)
  {
    hide Val, Pow;
    var t := s[i := x];
    ValSplit(s, i + 1);
    ValSplit(t, i + 1);
    assert t[i + 1..] == s[i + 1..] && t[..i] == s[..i];
    ValNext(s, i);
    ValNext(t, i);
    MinusTimes(x, s[i], Pow(B, i));
  }

  /** Equal values at equal lengths mean equal limbs. */
  lemma {:induction false} ValInjective(s: seq<limb>, t: seq<limb>)
    requires |s| == |t| && Val(s) == Val(t)
    ensures s == t
  {
    if |s| > 0 {
      var n := |s| - 1;
      var p := Pow(B, n);
      ValBound(s[..n]);
      ValBound(t[..n]);
      assert p * s[n] == s[n] * p && p * t[n] == t[n] * p;
      DivModUnique(Val(s), p, s[n], Val(s[..n]));
      DivModUnique(Val(t), p, t[n], Val(t[..n]));
      ValInjective(s[..n], t[..n]);
      assert s == s[..n] + [s[n]] && t == t[..n] + [t[n]];
    }
  }

  lemma PowNextB(k: nat)
    ensures Pow(B, k + 1) == B * Pow(B, k) && Pow(B, k) > 0
  {
    PowPos(B, k);
  }

  /** Two sequences that agree except possibly on [lo, hi). */
  ghost predicate SameOutside<T>(s: seq<T>, t: seq<T>, lo: int, hi: int) {
    |s| == |t| && forall u :: 0 <= u < |s| && !(lo <= u < hi) ==> t[u] == s[u]
  }

  lemma SameWiden<T>(s: seq<T>, t: seq<T>, lo: int, hi: int, lo2: int, hi2: int)
    requires SameOutside(s, t, lo, hi) && lo2 <= lo && hi <= hi2
    ensures |s| == |t| && SameOutside(s, t, lo2, hi2)
  {}

  lemma SameTrans<T>(s: seq<T>, t: seq<T>, u: seq<T>, lo: int, hi: int)
    requires SameOutside(s, t, lo, hi) && SameOutside(t, u, lo, hi)
    ensures |s| == |u| && SameOutside(s, u, lo, hi)
  {}

  lemma SubWindow<T>(t: seq<T>, o: nat, n: nat, lo: nat, hi: nat)
    requires lo <= hi <= n && o + n <= |t|
    ensures t[o..o + n][lo..hi] == t[o + lo..o + hi]
  {
    var p, q := t[o..o + n][lo..hi], t[o + lo..o + hi];
    forall i | 0 <= i < hi - lo ensures p[i] == q[i] {
      assert t[o..o + n][lo + i] == t[o + lo + i];
    }
  }
}
