/** ntt_fft: the in-place ping-pong transform over limb buffers. */
module NttFft {
  import opened Arith
  import opened Word
  import opened ModMul
  import opened Fourier
  import opened Stockham

  ghost predicate Below(x: seq<limb>, c: int) {
    forall i :: 0 <= i < |x| ==> x[i] < c
  }

  /** Entry 2i of a twiddle table is c^i reduced modulo m, entry 2i + 1 its scaled inverse. */
  ghost predicate TrigTable(trig: seq<limb>, c: int, m: limb)
    requires m > 0
  {
    && |trig| % 2 == 0
    && forall i :: 0 <= i < |trig| / 2 ==> TrigEntry(trig[2 * i], trig[2 * i + 1], c, i, m)
  }

  ghost predicate TrigEntry(t: limb, tInv: limb, c: int, i: nat, m: limb)
    requires m > 0
  {
    t < m && Cong(t, Pow(c, i), m) && tInv == InitMulMod(t, m)
  }

  /** The values one butterfly of ntt_fft writes. */
  ghost predicate Butterfly(b0: limb, b1: limb, a0: limb, a1: limb, c: int, i: nat, m: limb)
    requires m > 0
  {
    && b0 < 2 * m && b1 < 2 * m
    && Cong(b0, a0 + a1, m)
    && Cong(b1, Mul(a0 - a1, Pow(c, i)), m)
  }

  function Sum2(a0: limb, a1: limb, m: limb): (b: limb)
    requires Modulus(m) && a0 < 2 * m && a1 < 2 * m
    ensures b < 2 * m && Cong(b, a0 + a1, m)
  {
    var b := AddMod(a0, a1, 2 * m);
    assert Cong(b, a0 + a1, m) by { CongIntro(b, a0 + a1, m, if b == a0 + a1 then 0 else -2); }
    b
  }

  function Diff2(a0: limb, a1: limb, m: limb): (b: limb)
    requires Modulus(m) && a0 < 2 * m && a1 < 2 * m
    ensures b < 2 * m && Cong(b, a0 - a1, m)
  {
    var b := SubMod(a0, a1, 2 * m);
    assert Cong(b, a0 - a1, m) by { CongIntro(b, a0 - a1, m, if b == a0 - a1 then 0 else 2); }
    b
  }

  lemma TwiddledDiff(b: limb, a0: limb, a1: limb, t: limb, tInv: limb, c: int, i: nat, m: limb)
    requires Modulus(m) && TrigEntry(t, tInv, c, i, m) && a0 < 2 * m && a1 < 2 * m
    requires b == MulModFast3(Lo(a0 - a1 + 2 * m), t, m, tInv)
    ensures b < 2 * m && Cong(b, Mul(a0 - a1, Pow(c, i)), m)
  {
    hide Cong, Pow, MulModFast3;
    var d := a0 - a1 + 2 * m;
    LoExact(d);
    CongIntro(d, a0 - a1, m, 2);
    MulCong2(d, a0 - a1, t, Pow(c, i), m);
    CongTrans(b, d * t, Mul(a0 - a1, Pow(c, i)), m);
  }

  /** Butterfly j of the block written at p from the two runs of tab at k and k + stride. */
  ghost predicate Entry(out: seq<limb>, p: nat, tab: seq<limb>, k: nat, stride: nat, s: nat, c: int, i: nat, m: limb, j: nat)
    requires m > 0
  {
    && p + s + j < |out| && k + stride + j < |tab|
    && Butterfly(out[p + j], out[p + s + j], tab[k + j], tab[k + stride + j], c, i, m)
  }

  /** All s butterflies of a block. */
  ghost predicate Entries(out: seq<limb>, p: nat, tab: seq<limb>, k: nat, stride: nat, s: nat, c: int, i: nat, m: limb)
    requires m > 0
  {
    forall j :: 0 <= j < s ==> Entry(out, p, tab, k, stride, s, c, i, m, j)
  }

  /** The inner loop of a pass: one block of s butterflies sharing a twiddle factor. */
  method PassBlock(src: array<limb>, dst: array<limb>, s: nat, stride: nat,
                   k: nat, p: nat, t: limb, tInv: limb, m: limb, ghost c: int, ghost i: nat)
    requires Modulus(m) && TrigEntry(t, tInv, c, i, m) && src != dst
    requires k + stride + s <= src.Length && p + 2 * s <= dst.Length
    requires Below(src[k..k + stride + s], 2 * m)
    modifies dst
    ensures Entries(dst[..], p, src[..], k, stride, s, c, i, m)
    ensures forall j :: 0 <= j < dst.Length && !(p <= j < p + 2 * s) ==> dst[j] == old(dst[j])
  {
    var j := 0;
    while j < s
      invariant 0 <= j <= s
      invariant forall l :: 0 <= l < j ==> Entry(dst[..], p, src[..], k, stride, s, c, i, m, l)
      invariant forall l :: 0 <= l < dst.Length && !(p <= l < p + 2 * s) ==> dst[l] == old(dst[l])
    {
      hide Cong, Mul, Pow, Butterfly;
      ghost var before := dst[..];
      assert src[k..k + stride + s][j] < 2 * m && src[k..k + stride + s][stride + j] < 2 * m;
      var a0, a1 := src[k + j], src[k + stride + j];
      var b0 := Sum2(a0, a1, m);
      var b1 := MulModFast3(Lo(a0 - a1 + 2 * m), t, m, tInv);
      ButterflyHolds(b0, b1, a0, a1, t, tInv, c, i, m);
      dst[p + j] := b0;
      dst[p + s + j] := b1;
      forall l | 0 <= l < j ensures Entry(dst[..], p, src[..], k, stride, s, c, i, m, l) {
        assert Entry(before, p, src[..], k, stride, s, c, i, m, l);
      }
      j := j + 1;
    }
  }

  lemma ButterflyHolds(b0: limb, b1: limb, a0: limb, a1: limb, t: limb, tInv: limb, c: int, i: nat, m: limb)
    requires Modulus(m) && TrigEntry(t, tInv, c, i, m) && a0 < 2 * m && a1 < 2 * m
    requires b0 == Sum2(a0, a1, m) && b1 == MulModFast3(Lo(a0 - a1 + 2 * m), t, m, tInv)
    ensures Butterfly(b0, b1, a0, a1, c, i, m)
  {
    TwiddledDiff(b1, a0, a1, t, tInv, c, i, m);
  }

  /** Block i of a pass has been written. */
  ghost predicate BlockDone(out: seq<limb>, tab: seq<limb>, s: nat, h: nat, c: int, m: limb, i: nat)
    requires m > 0
  {
    forall j :: 0 <= j < s ==> PassOk(out, tab, s, h, c, m, i, j)
  }

  lemma BlockIndex(i: nat, s: nat, h: nat)
    requires i < h
    ensures 0 <= i * s && 0 <= 2 * i * s && (2 * i + 1) * s == 2 * i * s + s && 2 * (i + 1) * s == 2 * i * s + 2 * s
    ensures (h + i) * s == h * s + i * s && 2 * i * s + 2 * s <= 2 * h * s && i * s + s <= h * s
    ensures i * s + i * s == 2 * i * s && h * s + h * s == 2 * h * s
  {
    MulNonNeg(i, s);
    MulLe(i + 1, h, s);
    assert (i + 1) * s == i * s + s;
    assert 2 * i * s == i * s + i * s;
    assert 2 * h * s == h * s + h * s;
    assert (2 * i + 1) * s == 2 * i * s + s;
    assert (h + i) * s == h * s + i * s;
    assert 2 * (i + 1) * s == 2 * i * s + 2 * s;
  }

  lemma BlockKept(out: seq<limb>, out': seq<limb>, tab: seq<limb>, s: nat, h: nat, c: int, m: limb, l: nat, i: nat)
    requires m > 0 && |out| == |out'| && l < i <= h && BlockDone(out, tab, s, h, c, m, l)
    requires forall t :: 0 <= t < |out| && t < 2 * i * s ==> out[t] == out'[t]
    ensures BlockDone(out', tab, s, h, c, m, l)
  {
    hide Cong, Mul, Pow;
    forall j | 0 <= j < s ensures PassOk(out', tab, s, h, c, m, l, j) {
      assert PassOk(out, tab, s, h, c, m, l, j);
      BlockIndex(l, s, i);
      assert At(out, 2 * l * s + j) == At(out', 2 * l * s + j);
      assert At(out, (2 * l + 1) * s + j) == At(out', (2 * l + 1) * s + j);
    }
  }

  lemma BlockWritten(out: seq<limb>, tab: seq<limb>, s: nat, h: nat, c: int, m: limb, i: nat, k: nat, p: nat)
    requires m > 0 && i < h && k == i * s && p == 2 * i * s && 0 <= h * s
    requires Entries(out, p, tab, k, h * s, s, c, i, m)
    ensures BlockDone(out, tab, s, h, c, m, i)
  {
    hide Cong, Mul, Pow;
    BlockIndex(i, s, h);
    forall j | 0 <= j < s ensures PassOk(out, tab, s, h, c, m, i, j) {
      assert Entry(out, p, tab, k, h * s, s, c, i, m, j);
      assert At(out, 2 * i * s + j) == out[p + j];
      assert At(out, (2 * i + 1) * s + j) == out[p + s + j];
      assert At(tab, i * s + j) == tab[k + j];
      assert At(tab, (h + i) * s + j) == tab[k + h * s + j];
    }
  }

  /** Entries stay entries when only the windows of the two arrays are looked at. */
  lemma EntriesSlice(out: seq<limb>, d: nat, tab: seq<limb>, so: nat, n: nat, p: nat, k: nat, stride: nat, s: nat, c: int, i: nat, m: limb)
    requires m > 0 && d + n <= |out| && so + n <= |tab| && p + 2 * s <= n && k + stride + s <= n
    requires Entries(out, d + p, tab, so + k, stride, s, c, i, m)
    ensures Entries(out[d..d + n], p, tab[so..so + n], k, stride, s, c, i, m)
  {
    hide Butterfly;
    var q, r, o1, t1 := d + p, so + k, out[d..d + n], tab[so..so + n];
    forall j | 0 <= j < s ensures Entry(o1, p, t1, k, stride, s, c, i, m, j) {
      assert Entry(out, q, tab, r, stride, s, c, i, m, j);
    }
  }

  /** The state of dst after some blocks of a pass. */
  ghost predicate PassInv(out: seq<limb>, tab: seq<limb>, s: nat, h: nat, c: int, m: limb, i: nat, p: nat)
    requires m > 0
  {
    && p <= |out|
    && (forall l :: 0 <= l < i ==> BlockDone(out, tab, s, h, c, m, l))
    && (forall t :: 0 <= t < p ==> out[t] < 2 * m)
  }

  lemma PassInvStep(before: seq<limb>, after: seq<limb>, tab: seq<limb>, s: nat, h: nat, half: nat, c: int, m: limb, i: nat, k: nat)
    requires m > 0 && i < h && k == Mul(i, s) && half == Mul(h, s)
    requires |before| == |after| == |tab| == 2 * half && k + s <= half
    requires PassInv(before, tab, s, h, c, m, i, 2 * k)
    requires forall t :: 0 <= t < 2 * k ==> before[t] == after[t]
    requires Entries(after, 2 * k, tab, k, half, s, c, i, m)
    ensures PassInv(after, tab, s, h, c, m, i + 1, 2 * (k + s))
  {
    hide Cong, Pow, BlockDone;
    BlockIndex(i, s, h);
    var p := 2 * k;
    forall l | 0 <= l < i ensures BlockDone(after, tab, s, h, c, m, l) {
      BlockKept(before, after, tab, s, h, c, m, l, i);
    }
    BlockWritten(after, tab, s, h, c, m, i, k, p);
    forall t | 0 <= t < p + 2 * s ensures after[t] < 2 * m {
      if p <= t < p + s {
        assert Entry(after, p, tab, k, half, s, c, i, m, t - p);
      } else if p + s <= t {
        assert Entry(after, p, tab, k, half, s, c, i, m, t - p - s);
      }
    }
  }

  lemma BlockStart(i: nat, s: nat, h: nat)
    requires i < h
    ensures 0 <= Mul(i, s) && Mul(i + 1, s) == Mul(i, s) + s <= Mul(h, s)
  {
    BlockIndex(i, s, h);
  }

  /** One pass of the while loop of ntt_fft: h blocks of s butterflies from src into dst. */
  method Pass(src: array<limb>, so: nat, dst: array<limb>, d: nat, s: nat, h: nat, half: nat,
              trig: array<limb>, m: limb, ghost c: int)
    requires Modulus(m) && src != dst && trig != dst && trig != src
    requires half == Mul(h, s) && so + 2 * half <= src.Length && d + 2 * half <= dst.Length
    requires trig.Length == 2 * h && TrigTable(trig[..], c, m)
    requires Below(src[so..so + 2 * half], 2 * m)
    modifies dst
    ensures IsPass(dst[d..d + 2 * half], src[so..so + 2 * half], s, h, c, m)
    ensures Below(dst[d..d + 2 * half], 2 * m)
    ensures forall j :: 0 <= j < dst.Length && !(d <= j < d + 2 * half) ==> dst[j] == old(dst[j])
  {
    hide Cong, Mul, PassInv, IsPass, Butterfly, Entries;
    var p, k := 0, 0;
    var i := 0;
    ghost var n := 2 * half;
    ghost var tab := src[so..so + n];
    ghost var table := trig[..];
    PassStart(dst[..][d..d + n], tab, s, h, c, m);
    while i < h
      invariant 0 <= i <= h
      invariant k == Mul(i, s) && p == 2 * k && 0 <= k <= half
      invariant src[..] == old(src[..]) && trig[..] == table
      invariant PassInv(dst[..][d..d + n], tab, s, h, c, m, i, p)
      invariant forall j :: 0 <= j < dst.Length && !(d <= j < d + n) ==> dst[j] == old(dst[j])
    {
      BlockStart(i, s, h);
      assert TrigEntry(table[2 * i], table[2 * i + 1], c, i, m);
      ghost var before := dst[..];
      BelowSlice(src[..], tab, so, n, k, half + s, 2 * m);
      assert src[..][so + k..so + k + (half + s)] == src[so + k..so + k + half + s];
      PassBlock(src, dst, s, half, so + k, d + p, trig[2 * i], trig[2 * i + 1], m, c, i);
      PassIter(before, dst[..], src[..], d, so, tab, s, h, half, c, m, i, k);
      k := k + s;
      p := p + 2 * s;
      i := i + 1;
    }
    PassDone(dst[..][d..d + n], tab, s, h, c, m, p);
    assert dst[..][d..d + n] == dst[d..d + n];
  }

  lemma PassIter(all0: seq<limb>, all1: seq<limb>, sall: seq<limb>, d: nat, so: nat, tab: seq<limb>,
                 s: nat, h: nat, half: nat, c: int, m: limb, i: nat, k: nat)
    requires m > 0 && i < h && k == Mul(i, s) && half == Mul(h, s) && k + s <= half
    requires |all0| == |all1| && d + 2 * half <= |all0| && so + 2 * half <= |sall| && tab == sall[so..so + 2 * half]
    requires PassInv(all0[d..d + 2 * half], tab, s, h, c, m, i, 2 * k)
    requires forall t :: 0 <= t < |all0| && !(d + 2 * k <= t < d + 2 * k + 2 * s) ==> all0[t] == all1[t]
    requires Entries(all1, d + 2 * k, sall, so + k, half, s, c, i, m)
    ensures PassInv(all1[d..d + 2 * half], tab, s, h, c, m, i + 1, 2 * (k + s))
  {
    hide Cong, Mul, PassInv, Entries;
    var n := 2 * half;
    EntriesSlice(all1, d, sall, so, n, 2 * k, k, half, s, c, i, m);
    PassInvStep(all0[d..d + n], all1[d..d + n], tab, s, h, half, c, m, i, k);
  }

  lemma PassStart(out: seq<limb>, tab: seq<limb>, s: nat, h: nat, c: int, m: limb)
    requires m > 0
    ensures PassInv(out, tab, s, h, c, m, 0, 0) && Mul(0, s) == 0
  {}

  lemma PassDone(out: seq<limb>, tab: seq<limb>, s: nat, h: nat, c: int, m: limb, p: nat)
    requires m > 0 && |out| == |tab| == p && PassInv(out, tab, s, h, c, m, h, p)
    ensures IsPass(out, tab, s, h, c, m) && Below(out, 2 * m)
  {
    hide Cong, Mul, Pow;
    forall i, j | 0 <= i < h && 0 <= j < s ensures PassOk(out, tab, s, h, c, m, i, j) {
      assert BlockDone(out, tab, s, h, c, m, i);
    }
  }

  lemma BelowSlice(all: seq<limb>, tab: seq<limb>, so: nat, n: nat, k: nat, len: nat, c: int)
    requires so + n <= |all| && tab == all[so..so + n] && k + len <= n && Below(tab, c)
    ensures Below(all[so + k..so + k + len], c)
  {
    var r := all[so + k..so + k + len];
    forall i | 0 <= i < |r| ensures r[i] < c {
      assert tab[k + i] < c;
    }
  }
}
