/** ntt_fft, ntt_vec_mul, ntt_fft_partial and ntt_conv: cyclic convolution modulo m. */
module NttConv {
  import opened Arith
  import opened Word
  import opened ModMul
  import opened Fourier
  import opened Stockham
  import opened FourStep
  import opened NttFft
  import opened NttState

  // ----- the transform -----

  /** The last step of ntt_fft has no twiddle factor and may run in place. */
  method LastPass(src: array<limb>, so: nat, dst: array<limb>, d: nat, half: nat, m: limb, ghost c: int)
    requires Modulus(m) && (src == dst ==> so == d)
    requires so + 2 * half <= src.Length && d + 2 * half <= dst.Length
    requires Below(src[so..so + 2 * half], 2 * m)
    modifies dst
    ensures IsPass(dst[d..d + 2 * half], old(src[so..so + 2 * half]), half, 1, c, m)
    ensures Below(dst[d..d + 2 * half], 2 * m)
    ensures forall j :: 0 <= j < dst.Length && !(d <= j < d + 2 * half) ==> dst[j] == old(dst[j])
  {
    hide Cong, IsPass;
    ghost var tab := src[so..so + 2 * half];
    var k := 0;
    while k < half
      invariant 0 <= k <= half
      invariant Unread(src[..], so, tab, half, k)
      invariant LastInv(dst[..], d, tab, half, m, k)
      invariant forall j :: 0 <= j < dst.Length && !(d <= j < d + 2 * half) ==> dst[j] == old(dst[j])
    {
      assert UnreadAt(src[..], so, tab, half, k);
      assert tab[k] < 2 * m && tab[half + k] < 2 * m;
      var a0, a1 := src[so + k], src[so + half + k];
      var b0, b1 := Sum2(a0, a1, m), Diff2(a0, a1, m);
      ghost var s0, d0 := src[..], dst[..];
      dst[d + k] := b0;
      dst[d + half + k] := b1;
      LastStep(s0, src[..], d0, dst[..], so, d, tab, half, m, k);
      k := k + 1;
    }
    LastDone(dst[..], d, tab, half, c, m);
    assert dst[..][d..d + 2 * half] == dst[d..d + 2 * half];
  }

  ghost predicate UnreadAt(S: seq<limb>, so: nat, tab: seq<limb>, half: nat, j: nat) {
    so + half + j < |S| && half + j < |tab| && S[so + j] == tab[j] && S[so + half + j] == tab[half + j]
  }

  ghost predicate Unread(S: seq<limb>, so: nat, tab: seq<limb>, half: nat, k: nat) {
    forall j :: k <= j < half ==> UnreadAt(S, so, tab, half, j)
  }

  ghost predicate LastOk(out: seq<limb>, d: nat, tab: seq<limb>, half: nat, m: limb, j: nat)
    requires m > 0
  {
    && d + half + j < |out| && half + j < |tab|
    && out[d + j] < 2 * m && out[d + half + j] < 2 * m
    && Cong(out[d + j], tab[j] as int + tab[half + j] as int, m) && Cong(out[d + half + j], tab[j] as int - tab[half + j] as int, m)
  }

  ghost predicate LastInv(out: seq<limb>, d: nat, tab: seq<limb>, half: nat, m: limb, k: nat)
    requires m > 0
  {
    forall j :: 0 <= j < k ==> LastOk(out, d, tab, half, m, j)
  }

  lemma LastStep(s0: seq<limb>, s1: seq<limb>, d0: seq<limb>, d1: seq<limb>, so: nat, d: nat, tab: seq<limb>, half: nat, m: limb, k: nat)
    requires m > 0 && k < half && |tab| == 2 * half && |s0| == |s1| && |d0| == |d1| && d + 2 * half <= |d0|
    requires Unread(s0, so, tab, half, k) && LastInv(d0, d, tab, half, m, k)
    requires forall t :: 0 <= t < |d0| && t != d + k && t != d + half + k ==> d0[t] == d1[t]
    requires s0 == s1 || (so == d && s0 == d0 && s1 == d1)
    requires d1[d + k] < 2 * m && d1[d + half + k] < 2 * m
    requires Cong(d1[d + k], tab[k] as int + tab[half + k] as int, m) && Cong(d1[d + half + k], tab[k] as int - tab[half + k] as int, m)
    ensures Unread(s1, so, tab, half, k + 1) && LastInv(d1, d, tab, half, m, k + 1)
  {
    hide Cong;
    forall j | k + 1 <= j < half ensures UnreadAt(s1, so, tab, half, j) {
      assert UnreadAt(s0, so, tab, half, j);
    }
    forall j | 0 <= j < k + 1 ensures LastOk(d1, d, tab, half, m, j) {
      if j < k { assert LastOk(d0, d, tab, half, m, j); }
    }
  }

  lemma LastDone(all: seq<limb>, d: nat, tab: seq<limb>, half: nat, c: int, m: limb)
    requires m > 0 && |tab| == 2 * half && d + 2 * half <= |all| && LastInv(all, d, tab, half, m, half)
    ensures IsPass(all[d..d + 2 * half], tab, half, 1, c, m) && Below(all[d..d + 2 * half], 2 * m)
  {
    hide Cong, Mul, Pow;
    var out := all[d..d + 2 * half];
    forall i, j | 0 <= i < 1 && 0 <= j < half ensures PassOk(out, tab, half, 1, c, m, i, j) {
      assert LastOk(all, d, tab, half, m, j);
      LastIndex(half, j);
      PowZero(c);
      var diff := tab[j] as int - tab[half + j] as int;
      MulOne(diff);
    }
    forall t | 0 <= t < 2 * half ensures out[t] < 2 * m {
      assert LastOk(all, d, tab, half, m, if t < half then t else t - half);
    }
  }

  lemma LastIndex(half: nat, j: nat)
    ensures 2 * 0 * half + j == j && (2 * 0 + 1) * half + j == half + j
    ensures 0 * half + j == j && (1 + 0) * half + j == half + j
  {}

  lemma PassCong(out: seq<int>, tab: seq<int>, s: nat, h: nat, c: int, e: int, m: int)
    requires m > 0 && IsPass(out, tab, s, h, c, m) && Cong(c, e, m)
    ensures IsPass(out, tab, s, h, e, m)
  {
    hide Cong, Mul, Pow, At;
    forall i, j | 0 <= i < h && 0 <= j < s ensures PassOk(out, tab, s, h, e, m, i, j) {
      assert PassOk(out, tab, s, h, c, m, i, j);
      CongPow(c, e, i, m);
      var x := At(tab, i * s + j) - At(tab, (h + i) * s + j);
      MulCong(Pow(c, i), Pow(e, i), x, m);
      CongTrans(At(out, (2 * i + 1) * s + j), Mul(x, Pow(c, i)), Mul(x, Pow(e, i)), m);
    }
  }

  /** The pass that follows stride 2^t, with the table root of order 2^(k-t) as twiddle base. */
  lemma StageNext(T: Tables, b: nat, k: nat, t: nat, out: seq<int>, tab: seq<int>, x: seq<int>)
    requires Valid(T) && b < 2 && t < k <= T.top
    requires Pow(2, t) > 0 && Pow(2, k - t - 1) > 0
    requires Stage(tab, x, T.root[b][k], Pow(2, t), 2 * Pow(2, k - t - 1), T.m)
    requires IsPass(out, tab, Pow(2, t), Pow(2, k - t - 1), T.root[b][k - t], T.m)
    ensures Stage(out, x, T.root[b][k], Pow(2, t + 1), Pow(2, k - t - 1), T.m)
  {
    hide Cong, Pow, Root, Stage, IsPass, InitModFast;
    var w, c, m, s, h := T.root[b][k], T.root[b][k - t], T.m, Pow(2, t), Pow(2, k - t - 1);
    RootStep(T, b, k, t);
    PassCong(out, tab, s, h, c, Pow(w, s), m);
    RootsAre(T, b, k);
    RootPow(w, k, t, m);
    RootHalf(Pow(w, s), k - t, m);
    PowTwo(t);
    StageStep(out, tab, x, w, s, h, m);
  }

  lemma PowTwo(t: nat)
    ensures Pow(2, t + 1) == 2 * Pow(2, t) && Pow(2, t) > 0
  {
    PowPos(2, t);
  }

  lemma RootHalf(w: int, k: nat, m: int)
    requires m > 0 && k >= 1 && Root(w, k, m)
    ensures Cong(Pow(w, Pow(2, k - 1)), -1, m)
  {}

  lemma HalfSizes(k: nat, t: nat)
    requires t < k
    ensures Pow(2, t) > 0 && Pow(2, k - t - 1) > 0
    ensures Mul(Pow(2, k - t - 1), Pow(2, t)) == Pow(2, k - 1)
    ensures Pow(2, k) == 2 * Pow(2, k - 1)
    ensures Pow(2, k - t) == 2 * Pow(2, k - t - 1)
  {
    PowPos(2, t);
    PowPos(2, k - t - 1);
    PowAdd(2, k - t - 1, t);
    PowTwo(k - 1);
    PowTwo(k - t - 1);
  }

  /** ntt_fft, as it is always called: the result replaces the input, tmp is scratch. */
  method Fft(T: Tables, buf: array<limb>, off: nat, tmp: array<limb>, k: nat, b: nat)
    requires Valid(T) && b < 2 && 1 <= k <= TRIG_K_MAX && k <= T.top && buf != tmp
    requires Pow(2, k) > 0 && off + Pow(2, k) <= buf.Length && Pow(2, k) <= tmp.Length
    requires Below(buf[off..off + Pow(2, k)], 2 * T.m)
    modifies buf, tmp
    ensures IsDft(buf[off..off + Pow(2, k)], old(buf[off..off + Pow(2, k)]), T.root[b][k], T.m)
    ensures Below(buf[off..off + Pow(2, k)], 2 * T.m)
    ensures forall j :: 0 <= j < buf.Length && !(off <= j < off + Pow(2, k)) ==> buf[j] == old(buf[j])
  {
    hide Cong, Pow, Root, Stage, IsPass, IsDft, InitModFast, TrigTable, Mul, RootRow, LenRow, TopPair;
    ghost var n := Pow(2, k);
    ghost var x := buf[off..off + n];
    ghost var w, m := T.root[b][k], T.m;
    var tabIn, inOff, tabOut, outOff := buf, off, tmp, 0;
    var fftPerBlock, nbBlocks, l := 1, Pow(2, k), k;
    var stride := Pow(2, k - 1);
    HalfSizes(k, 0);
    PowZero(2);
    PowPos(2, k);
    StageStart(x, w, m);
    while nbBlocks != 2
      invariant 1 <= l <= k && fftPerBlock == Pow(2, k - l) && nbBlocks == Pow(2, l)
      invariant stride == Pow(2, k - 1) && n == 2 * stride && fftPerBlock > 0 && nbBlocks > 0
      invariant (tabIn == buf && inOff == off && tabOut == tmp && outOff == 0)
             || (tabIn == tmp && inOff == 0 && tabOut == buf && outOff == off)
      invariant Stage(tabIn[inOff..inOff + n], x, w, fftPerBlock, nbBlocks, m)
      invariant Below(tabIn[inOff..inOff + n], 2 * m)
      invariant forall j :: 0 <= j < buf.Length && !(off <= j < off + n) ==> buf[j] == old(buf[j])
      decreases l
    {
      HalfSizes(k, k - l);
      nbBlocks := nbBlocks / 2;
      OnlyTwo(l);
      PowPos(2, l - 1);
      var trig := GetTrig(T, l, b);
      ghost var tab := tabIn[inOff..inOff + n];
      Pass(tabIn, inOff, tabOut, outOff, fftPerBlock, nbBlocks, stride, trig, T.m, T.root[b][l]);
      StageNext(T, b, k, k - l, tabOut[outOff..outOff + n], tab, x);
      fftPerBlock := fftPerBlock * 2;
      PowTwo(k - l);
      l := l - 1;
      tabIn, inOff, tabOut, outOff := tabOut, outOff, tabIn, inOff;
    }
    OnlyTwo(l);
    HalfSizes(k, k - 1);
    PowZero(2);
    ghost var tab := tabIn[inOff..inOff + n];
    LastPass(tabIn, inOff, buf, off, stride, T.m, T.root[b][1]);
    StageNext(T, b, k, k - 1, buf[off..off + n], tab, x);
    StageEnd(buf[off..off + n], x, w, m);
  }

  lemma OnlyTwo(l: nat)
    requires l >= 1
    ensures Pow(2, l) == 2 <==> l == 1
  {
    PowTwo(l - 1);
    if l >= 2 { PowTwo(l - 2); } else { PowZero(2); }
  }
}
