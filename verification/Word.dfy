/** 64-bit machine words and their double-word intermediates, with the
    wrap-around of the C unsigned types written out. */
module Word {
  import opened Arith

  const B: int := 0x1_0000_0000_0000_0000
  const HALF: int := 0x8000_0000_0000_0000
  const BB: int := 0x1_0000_0000_0000_0000_0000_0000_0000_0000

  type limb = x: int | 0 <= x < B
  type dlimb = x: int | 0 <= x < BB

  /** Truncation to a limb and to a double limb. */
  function Lo(x: int): limb { x % B }
  function Wide(x: int): dlimb { x % BB }

  /** The high limb of a double limb. */
  function Hi(x: dlimb): limb { x / B }

  lemma LoExact(x: int)
    requires 0 <= x < B
    ensures Lo(x) == x
  {}

  lemma HiLo(x: dlimb)
    ensures x == Hi(x) * B + Lo(x)
  {}

  /** v & mask for the two masks the branch-free code produces: all zeros and all ones. */
  function MaskAnd(v: limb, mask: limb): (r: limb)
    requires mask == 0 || mask == B - 1
  {
    if mask == 0 then 0 else v
  }

  /** All ones if the limb is negative as a signed number, else zero: v >> 63. */
  function SignMask(v: limb): limb {
    if v < HALF then 0 else B - 1
  }

  /** Arithmetic right shift by one of a limb read as a signed number. */
  function SignedHalf(v: limb): limb {
    if v < HALF then v / 2 else (v + B) / 2
  }

  /** A double limb read as a signed number. */
  function Signed(s: dlimb): int {
    if s < HALF * B then s else s - BB
  }

  lemma SubWrap(x: int, y: int)
    requires 0 <= x - y < B
    ensures Lo(Lo(x) - Lo(y)) == x - y
  {}

  lemma ProductBounds(a: limb, b: limb)
    ensures 0 <= a * b <= (B - 1) * (B - 1)
    ensures 0 <= (a * b) / B < B
  {
    MulNonNeg(a, b);
    MulLe(a, B - 1, b);
  }

  lemma LoIs(x: int, q: int, r: int)
    requires x == B * q + r && 0 <= r < B
    ensures Lo(x) == r
  {
    DivModUnique(x, B, q, r);
  }
}
