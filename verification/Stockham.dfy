/** Why the ping-pong passes of ntt_fft compute a transform: one pass halves the
    length of every strand and doubles their number (decimation in frequency). */
module Stockham {
  import opened Arith
  import opened Sums
  import opened Fourier

  // ----- one butterfly on a whole sequence -----

  /** u is the butterfly of x with weight sign and step root c: x_i + sign x_(i+h), times c^i. */
  ghost predicate IsHalf(u: seq<int>, x: seq<int>, sign: int, c: int, m: int)
    requires m > 0
  {
    && |x| == 2 * |u|
    && forall i :: 0 <= i < |u| ==> Cong(u[i], Mul(x[i] + Mul(sign, x[|u| + i]), Pow(c, i)), m)
  }

  lemma TwHalf(w: int, h: nat, f: nat, m: int)
    requires m > 0 && Cong(Pow(w, h), -1, m)
    ensures Cong(Tw(w, h, f), if f % 2 == 0 then 1 else -1, m)
  {
    hide Cong;
    PowPow(w, h, f);
    CongPow(Pow(w, h), -1, f, m);
    MinusOnePow(f);
  }

  lemma DoubleIndex(i: nat, q: nat, b: nat)
    ensures 0 <= i * q && 0 <= b * i && i * (2 * q + b) == b * i + 2 * (i * q)
  {
    MulNonNeg(i, q);
    MulNonNeg(b, i);
  }

  /** w^(i(2q+b)) = (w^b)^i (w^2)^(iq). */
  lemma TwDouble(w: int, i: nat, q: nat, b: nat)
    ensures Tw(w, i, 2 * q + b) == Mul(Pow(Pow(w, b), i), Tw(w * w, i, q))
  {
    hide Pow, Mul;
    DoubleIndex(i, q, b);
    PowPow(w, b, i);
    PowSquare(w, i * q);
    PowSplit(w, b * i, 2 * (i * q), i * (2 * q + b));
  }

  /** Frequency 2q + b of x is frequency q of its butterfly with sign (-1)^b. */
  lemma HalfDft(x: seq<int>, u: seq<int>, w: int, b: nat, q: nat, m: int)
    requires m > 0 && b < 2 && IsHalf(u, x, if b == 0 then 1 else -1, Pow(w, b), m)
    requires |x| == |u| + |u| && Cong(Pow(w, |u|), -1, m)
    ensures Cong(Dft(u, w * w, q), Dft(x, w, 2 * q + b), m)
  {
    hide Cong, Sum, Mul, Tw, Pow, DftTerm, IsHalf;
    var h, f := |u|, 2 * q + b;
    var g := Shifted(DftTerm(x, w, f), h);
    SumBlock(DftTerm(x, w, f), h, g, h);
    var s := PlusTerm(DftTerm(x, w, f), g);
    SumAdd(DftTerm(x, w, f), g, s, h);
    forall i | 0 <= i < h ensures Cong(DftTerm(u, w * w, q)(i), s(i), m) {
      HalfTerm(x, u, w, b, q, i, m);
    }
    SumCong(DftTerm(u, w * w, q), s, h, m);
  }

  ghost function Shifted(f: int -> int, h: int): int -> int { i => f(h + i) }
  ghost function PlusTerm(f: int -> int, g: int -> int): int -> int { i => f(i) + g(i) }

  lemma HalfTerm(x: seq<int>, u: seq<int>, w: int, b: nat, q: nat, i: nat, m: int)
    requires m > 0 && b < 2 && i < |u| && IsHalf(u, x, if b == 0 then 1 else -1, Pow(w, b), m)
    requires Cong(Pow(w, |u|), -1, m)
    ensures var F := DftTerm(x, w, 2 * q + b);
      Cong(DftTerm(u, w * w, q)(i), F(i) + F(|u| + i), m)
  {
    hide Cong, Mul, Tw, Pow;
    var h, f, sign := |u|, 2 * q + b, if b == 0 then 1 else -1;
    DftTermAt(u, w * w, q, i);
    DftTermAt(x, w, f, i);
    DftTermAt(x, w, f, h + i);
    TwDouble(w, i, q, b);
    TwHalf(w, h, f, m);
    TwAdd(w, h, i, h + i, f);
    HalfAlgebra(u[i], x[i], x[h + i], sign, Pow(Pow(w, b), i), Tw(w * w, i, q), Tw(w, h, f), m);
  }

  lemma HalfAlgebra(u: int, x: int, y: int, sign: int, c: int, t: int, s: int, m: int)
    requires m > 0 && Cong(u, Mul(x + Mul(sign, y), c), m) && Cong(s, sign, m)
    ensures Cong(Mul(u, t), Mul(x, Mul(c, t)) + Mul(y, Mul(s, Mul(c, t))), m)
  {
    hide Cong;
    var v := (x + sign * y) * c;
    CongScale(u, v, t, m);
    var k := c * t;
    CongScale(s, sign, y * k, m);
    CongRefl(x * k, m);
    CongAdd(x * k, x * k, s * (y * k), sign * (y * k), m);
    HalfExpand(x, y, sign, c, t, s);
    CongSym(x * k + s * (y * k), v * t, m);
    CongTrans(u * t, v * t, x * k + s * (y * k), m);
  }

  lemma HalfExpand(x: int, y: int, sign: int, c: int, t: int, s: int)
    ensures ((x + sign * y) * c) * t == x * (c * t) + sign * (y * (c * t))
    ensures s * (y * (c * t)) == y * (s * (c * t))
  {
    var k := c * t;
    assert ((x + sign * y) * c) * t == (x + sign * y) * k;
    assert (x + sign * y) * k == x * k + (sign * y) * k;
    assert (sign * y) * k == sign * (y * k);
    assert s * (y * k) == y * (s * k);
  }

  // ----- strands of an array -----

  /** Strand j of an array read with stride s: entries j, s + j, 2s + j, ... */
  ghost function Strand(tab: seq<int>, s: nat, len: nat, j: int): (r: seq<int>)
    ensures |r| == len
  {
    seq(len, i => At(tab, i * s + j))
  }

  ghost predicate StrandOk(tab: seq<int>, x: seq<int>, w: int, s: nat, len: nat, m: int, q: int, j: int)
    requires m > 0
  {
    Cong(Dft(Strand(tab, s, len, j), Pow(w, s), q), Dft(x, w, q * s + j), m)
  }

  /** After the passes that produced stride s, frequency q of strand j is frequency qs + j of x. */
  ghost predicate Stage(tab: seq<int>, x: seq<int>, w: int, s: nat, len: nat, m: int)
    requires m > 0
  {
    && |tab| == |x|
    && forall q, j :: 0 <= q < len && 0 <= j < s ==> StrandOk(tab, x, w, s, len, m, q, j)
  }

  lemma StageStart(x: seq<int>, w: int, m: int)
    requires m > 0
    ensures Stage(x, x, w, 1, |x|, m)
  {
    hide Cong, Dft, Pow;
    PowUnit(w);
    forall q, j | 0 <= q < |x| && 0 <= j < 1 ensures StrandOk(x, x, w, 1, |x|, m, q, j) {
      UnitStrand(x, q);
      assert j == 0;
      CongRefl(Dft(x, w, q), m);
    }
  }

  lemma UnitStrand(x: seq<int>, q: nat)
    ensures Strand(x, 1, |x|, 0) == x && q * 1 + 0 == q
  {
    forall i | 0 <= i < |x| ensures Strand(x, 1, |x|, 0)[i] == x[i] {
      assert i * 1 + 0 == i;
    }
  }

  /** When the strands have length one the array is the transform. */
  lemma StageEnd(tab: seq<int>, x: seq<int>, w: int, m: int)
    requires m > 0 && Stage(tab, x, w, |x|, 1, m)
    ensures IsDft(tab, x, w, m)
  {
    hide Cong, Dft;
    forall f | 0 <= f < |x| ensures Cong(tab[f], Dft(x, w, f), m) {
      assert StrandOk(tab, x, w, |x|, 1, m, 0, f);
      DftSingleton(Strand(tab, |x|, 1, f), Pow(w, |x|));
      assert 0 * |x| + f == f;
    }
  }

  lemma DftSingleton(x: seq<int>, w: int)
    requires |x| == 1
    ensures Dft(x, w, 0) == x[0]
  {
    assert Dft(x, w, 0) == Sum(DftTerm(x, w, 0), 0) + DftTerm(x, w, 0)(0);
    assert Pow(w, 0) == 1;
  }

  /** What one butterfly writes: rows 2i and 2i + 1 of the new array from rows i and i + h. */
  ghost predicate PassOk(out: seq<int>, tab: seq<int>, s: nat, h: nat, c: int, m: int, i: int, j: int)
    requires m > 0
  {
    && Cong(At(out, 2 * i * s + j), At(tab, i * s + j) + At(tab, (h + i) * s + j), m)
    && Cong(At(out, (2 * i + 1) * s + j), Mul(At(tab, i * s + j) - At(tab, (h + i) * s + j), Pow(c, i)), m)
  }

  ghost predicate IsPass(out: seq<int>, tab: seq<int>, s: nat, h: nat, c: int, m: int)
    requires m > 0
  {
    && |out| == |tab|
    && forall i, j :: 0 <= i < h && 0 <= j < s ==> PassOk(out, tab, s, h, c, m, i, j)
  }

  lemma PassElem(out: seq<int>, tab: seq<int>, s: nat, h: nat, c: int, m: int, b: nat, i: nat, j: nat)
    requires m > 0 && b < 2 && PassOk(out, tab, s, h, c, m, i, j)
    ensures Cong(At(out, i * (2 * s) + (b * s + j)),
                 Mul(At(tab, i * s + j) + Mul(if b == 0 then 1 else -1, At(tab, (h + i) * s + j)), Pow(Pow(c, b), i)), m)
  {
    hide Cong, Mul, At, Pow;
    PassIndex(i, s, b, j);
    PassValue(At(tab, i * s + j), At(tab, (h + i) * s + j), c, i);
  }

  lemma PassHalf(out: seq<int>, tab: seq<int>, s: nat, h: nat, c: int, m: int, b: nat, j: nat)
    requires m > 0 && IsPass(out, tab, s, h, c, m) && b < 2 && j < s
    ensures IsHalf(Strand(out, 2 * s, h, b * s + j), Strand(tab, s, 2 * h, j), if b == 0 then 1 else -1, Pow(c, b), m)
  {
    hide Cong, Mul, At, Pow, PassOk;
    var u, x := Strand(out, 2 * s, h, b * s + j), Strand(tab, s, 2 * h, j);
    forall i | 0 <= i < h
      ensures Cong(u[i], Mul(x[i] + Mul(if b == 0 then 1 else -1, x[h + i]), Pow(Pow(c, b), i)), m)
    {
      PassElem(out, tab, s, h, c, m, b, i, j);
      assert u[i] == At(out, i * (2 * s) + (b * s + j));
      assert x[i] == At(tab, i * s + j);
      assert x[h + i] == At(tab, (h + i) * s + j);
    }
  }

  lemma PassIndex(i: nat, s: nat, b: nat, j: nat)
    requires b < 2
    ensures i * (2 * s) + (b * s + j) == if b == 0 then 2 * i * s + j else (2 * i + 1) * s + j
  {
    assert (2 * i + b) * s == i * (2 * s) + b * s;
  }

  lemma PassValue(x: int, y: int, c: int, i: nat)
    ensures Mul(x + Mul(1, y), Pow(Pow(c, 0), i)) == x + y
    ensures Mul(x + Mul(-1, y), Pow(Pow(c, 1), i)) == Mul(x - y, Pow(c, i))
  {
    hide Pow;
    PowUnit(c);
    assert Pow(c, 0) == 1 by { PowZero(c); }
    PowOne(i);
  }

  lemma StageStep(out: seq<int>, tab: seq<int>, x: seq<int>, w: int, s: nat, h: nat, m: int)
    requires m > 0 && Stage(tab, x, w, s, 2 * h, m) && IsPass(out, tab, s, h, Pow(w, s), m)
    requires Cong(Pow(Pow(w, s), h), -1, m)
    ensures Stage(out, x, w, 2 * s, h, m)
  {
    hide Cong, Dft, Pow;
    forall q, j | 0 <= q < h && 0 <= j < 2 * s ensures StrandOk(out, x, w, 2 * s, h, m, q, j) {
      var b, j0 := if j < s then 0 else 1, if j < s then j else j - s;
      assert b * s + j0 == j;
      StageStepAt(out, tab, x, w, s, h, m, q, b, j0);
    }
  }

  lemma StageStepAt(out: seq<int>, tab: seq<int>, x: seq<int>, w: int, s: nat, h: nat, m: int, q: nat, b: nat, j: nat)
    requires m > 0 && Stage(tab, x, w, s, 2 * h, m) && IsPass(out, tab, s, h, Pow(w, s), m)
    requires Cong(Pow(Pow(w, s), h), -1, m) && q < h && b < 2 && j < s
    ensures StrandOk(out, x, w, 2 * s, h, m, q, b * s + j)
  {
    hide Cong, Dft, Pow, IsPass, IsHalf;
    var u, v, c := Strand(out, 2 * s, h, b * s + j), Strand(tab, s, 2 * h, j), Pow(w, s);
    PassHalf(out, tab, s, h, c, m, b, j);
    HalfDft(v, u, c, b, q, m);
    assert StrandOk(tab, x, w, s, 2 * h, m, 2 * q + b, j);
    PowAdd(w, s, s);
    assert (2 * q + b) * s + j == q * (2 * s) + (b * s + j);
    CongTrans(Dft(u, c * c, q), Dft(v, c, 2 * q + b), Dft(x, w, (2 * q + b) * s + j), m);
  }
}
