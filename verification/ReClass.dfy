/** Character classes: point lists, the two range instructions emitted for them, and their membership test. */
module ReClass {
  import opened ReBytes
  import opened ReChars

  const UINT32_MAX: int := 0xFFFF_FFFF
  const MAX_CODE_POINT: int := 0x10FFFF

  /** A sorted list of interval bounds: [p0, p1), [p2, p3), ... */
  predicate Sorted(points: seq<nat>) {
    && |points| % 2 == 0
    && (forall i, j :: 0 <= i < j < |points| ==> points[i] < points[j])
    && (forall i :: 0 <= i < |points| ==> points[i] <= UINT32_MAX)
  }

  /** A class that re_emit_range does not reject as "too many ranges". */
  predicate ClassOk(points: seq<nat>) { Sorted(points) && |points| / 2 < 65535 }

  /** Membership in the class. */
  predicate InClass(points: seq<nat>, c: nat)
  {
    |points| >= 2 && (points[0] <= c < points[1] || InClass(points[2..], c))
  }

  /** c lies in interval k. */
  predicate InPair(points: seq<nat>, k: int, c: nat) {
    0 <= k < |points| / 2 && points[2 * k] <= c < points[2 * k + 1]
  }

  /** An inclusive upper bound in the 16-bit form, 0xffff standing for infinity. */
  function High16(v: nat): int {
    if v - 1 == UINT32_MAX - 1 then 0xFFFF else v - 1
  }

  function Pairs(points: seq<nat>, narrow: bool): (r: seq<(nat, nat)>)
    requires forall i :: 0 <= i < |points| && i % 2 == 1 ==> points[i] >= 1
    ensures |r| == |points| / 2
  {
    if |points| < 2 then []
    else [(points[0], if narrow then High16(points[1]) else points[1] - 1)] + Pairs(points[2..], narrow)
  }

  /** Whether the 16-bit form can be used. */
  predicate Narrow(points: seq<nat>)
    requires |points| >= 2
  {
    (if points[|points| - 1] == UINT32_MAX then points[|points| - 2] else points[|points| - 1]) <= 0xFFFF
  }

  lemma OddPositive(points: seq<nat>)
    requires Sorted(points)
    ensures forall i :: 0 <= i < |points| && i % 2 == 1 ==> points[i] >= 1
  {
    forall i | 0 <= i < |points| && i % 2 == 1 ensures points[i] >= 1 {
      assert points[i - 1] < points[i];
    }
  }

  /** re_emit_range: the instruction for a class. */
  function RangeInstr(points: seq<nat>): Instr
    requires Sorted(points)
  {
    OddPositive(points);
    if |points| == 0 then Char32(UINT32_MAX)
    else if Narrow(points) then Range(Pairs(points, true))
    else Range32(Pairs(points, false))
  }

  // ----- the test made by the range instructions -----

  /** Nonempty, and strictly increasing without overlap. */
  predicate SortedPairs(pairs: seq<(nat, nat)>) {
    && |pairs| >= 1
    && (forall i :: 0 <= i < |pairs| ==> pairs[i].0 <= pairs[i].1)
    && (forall i, j :: 0 <= i < j < |pairs| ==> pairs[i].1 < pairs[j].0)
  }

  predicate Covered(pairs: seq<(nat, nat)>, c: nat) {
    exists i :: 0 <= i < |pairs| && pairs[i].0 <= c <= pairs[i].1
  }

  /** What a range instruction accepts; infinity applies to the 16-bit form. */
  predicate Accepts(pairs: seq<(nat, nat)>, narrow: bool, c: nat)
    requires |pairs| >= 1
  {
    Covered(pairs, c) || (narrow && c >= 0xFFFF && pairs[|pairs| - 1].1 == 0xFFFF && c >= pairs[0].0)
  }

  /** The membership test of REOP_range and REOP_range32: two quick rejections and a binary search. */
  method TestRange(pairs: seq<(nat, nat)>, narrow: bool, c: nat) returns (found: bool)
    requires SortedPairs(pairs)
    ensures found <==> Accepts(pairs, narrow, c)
  {
    var n := |pairs|;
    if c < pairs[0].0 {
      NotBefore(pairs, c);
      return false;
    }
    if narrow && c >= 0xFFFF && pairs[n - 1].1 == 0xFFFF { return true; }
    if c > pairs[n - 1].1 {
      NotAfter(pairs, c);
      return false;
    }
    var lo, hi := 0, n - 1;
    while lo <= hi
      invariant 0 <= lo <= n && -1 <= hi < n
      invariant forall i :: 0 <= i < lo ==> pairs[i].1 < c
      invariant forall i :: hi < i < n ==> c < pairs[i].0
      decreases hi - lo
    {
      var mid := (lo + hi) / 2;
      if c < pairs[mid].0 {
        forall i | mid <= i < n ensures c < pairs[i].0 {
          if i > mid { assert pairs[mid].1 < pairs[i].0; }
        }
        hi := mid - 1;
      } else if c > pairs[mid].1 {
        forall i | 0 <= i <= mid ensures pairs[i].1 < c {
          if i < mid { assert pairs[i].1 < pairs[mid].0; }
        }
        lo := mid + 1;
      } else {
        return true;
      }
    }
    return false;
  }

  lemma NotBefore(pairs: seq<(nat, nat)>, c: nat)
    requires SortedPairs(pairs) && c < pairs[0].0
    ensures !Covered(pairs, c)
  {
    forall i | 0 <= i < |pairs| ensures c < pairs[i].0 {
      if i > 0 { assert pairs[0].1 < pairs[i].0; }
    }
  }

  lemma NotAfter(pairs: seq<(nat, nat)>, c: nat)
    requires SortedPairs(pairs) && c > pairs[|pairs| - 1].1
    ensures !Covered(pairs, c)
  {
    forall i | 0 <= i < |pairs| ensures pairs[i].1 < c {
      if i < |pairs| - 1 { assert pairs[i].1 < pairs[|pairs| - 1].0; }
    }
  }

  // ----- the emitted instruction accepts exactly the class -----

  lemma TailOk(points: seq<nat>)
    requires ClassOk(points) && |points| >= 2
    ensures ClassOk(points[2..])
  {}

  lemma {:induction false} PairOf(points: seq<nat>, narrow: bool, k: nat)
    requires ClassOk(points) && 2 * k + 1 < |points|
    requires forall i :: 0 <= i < |points| && i % 2 == 1 ==> points[i] >= 1
    ensures Pairs(points, narrow)[k] == (points[2 * k], if narrow then High16(points[2 * k + 1]) else points[2 * k + 1] - 1)
    decreases k
  {
    if k > 0 {
      TailOk(points);
      OddPositive(points[2..]);
      PairOf(points[2..], narrow, k - 1);
    }
  }

  lemma {:induction false} InClassAt(points: seq<nat>, c: nat)
    requires |points| % 2 == 0
    ensures InClass(points, c) <==> exists k :: InPair(points, k, c)
    decreases |points|
  {
    if |points| >= 2 {
      var t := points[2..];
      InClassAt(t, c);
      if points[0] <= c < points[1] { assert InPair(points, 0, c); }
      if InClass(points, c) && !(points[0] <= c < points[1]) {
        var k :| InPair(t, k, c);
        assert points[2 * (k + 1)] == t[2 * k] && points[2 * (k + 1) + 1] == t[2 * k + 1];
        assert InPair(points, k + 1, c);
      }
      if k :| InPair(points, k, c) {
        if k > 0 {
          assert points[2 * k] == t[2 * (k - 1)] && points[2 * k + 1] == t[2 * (k - 1) + 1];
          assert InPair(t, k - 1, c);
        } else {
          assert points[0] <= c < points[1];
        }
      }
    }
  }

  lemma {:induction false} PairsSorted(points: seq<nat>, narrow: bool)
    requires ClassOk(points) && |points| >= 2 && (narrow ==> Narrow(points))
    requires forall i :: 0 <= i < |points| && i % 2 == 1 ==> points[i] >= 1
    ensures SortedPairs(Pairs(points, narrow)) && PairsBelow(Pairs(points, narrow), if narrow then U16 else U32)
  {
    var pairs := Pairs(points, narrow);
    forall k | 0 <= k < |pairs| ensures pairs[k].0 <= pairs[k].1 < (if narrow then U16 else U32) {
      PairOf(points, narrow, k);
      assert points[2 * k] < points[2 * k + 1];
      if narrow { NarrowBounds(points, k); }
    }
    forall i, j | 0 <= i < j < |pairs| ensures pairs[i].1 < pairs[j].0 {
      PairOf(points, narrow, i);
      PairOf(points, narrow, j);
      assert points[2 * i + 1] < points[2 * j];
    }
  }

  /** In the 16-bit form only the last upper bound can be infinity, and everything else fits. */
  lemma NarrowBounds(points: seq<nat>, k: nat)
    requires ClassOk(points) && |points| >= 2 && Narrow(points) && 2 * k + 1 < |points|
    ensures points[2 * k] <= 0xFFFF
    ensures points[2 * k + 1] == UINT32_MAX ==> 2 * k + 2 == |points|
    ensures points[2 * k + 1] != UINT32_MAX ==> points[2 * k + 1] <= 0xFFFF
  {
    var n := |points|;
    if 2 * k + 2 < n {
      assert points[2 * k + 1] < points[n - 2] && points[2 * k] < points[n - 2];
      assert points[n - 2] < points[n - 1];
    } else {
      assert points[n - 2] < points[n - 1];
    }
  }

  /** Whether a character instruction takes c. */
  predicate Takes(i: Instr, c: nat) {
    match i
    case Char(v) => c == v
    case Char32(v) => c == v
    case Dot => !LineTerminator(c)
    case Any => true
    case Range(pairs) => SortedPairs(pairs) && Accepts(pairs, true, c)
    case Range32(pairs) => SortedPairs(pairs) && Accepts(pairs, false, c)
    case _ => false
  }

  /** The instruction emitted for a class accepts exactly its members, for every code point. */
  lemma ClassAccepted(points: seq<nat>, c: nat)
    requires ClassOk(points) && c <= MAX_CODE_POINT
    ensures Fits(RangeInstr(points)) && (Takes(RangeInstr(points), c) <==> InClass(points, c))
  {
    hide Pairs, Narrow, Sorted, Accepts, InClass;
    OddPositive(points);
    CountFits(points);
    InClassAt(points, c);
    if |points| > 0 {
      PairsSorted(points, Narrow(points));
      if Narrow(points) { NarrowAccepts(points, c); } else { WideAccepts(points, c); }
    } else {
      NoPair(points, c);
    }
  }

  lemma NoPair(points: seq<nat>, c: nat)
    requires |points| == 0
    ensures !(exists k :: InPair(points, k, c))
  {}

  lemma CountFits(points: seq<nat>)
    requires ClassOk(points)
    ensures |points| / 2 < U16 && |points| % 2 == 0
  {}

  lemma WideAccepts(points: seq<nat>, c: nat)
    requires ClassOk(points) && |points| >= 2
    requires forall i :: 0 <= i < |points| && i % 2 == 1 ==> points[i] >= 1
    ensures |Pairs(points, false)| >= 1 && (Accepts(Pairs(points, false), false, c) <==> exists k :: InPair(points, k, c))
  {
    var pairs := Pairs(points, false);
    forall k | 0 <= k < |pairs| ensures pairs[k] == (points[2 * k], points[2 * k + 1] - 1) { PairOf(points, false, k); }
    if k :| InPair(points, k, c) {
      assert pairs[k].0 <= c <= pairs[k].1;
    }
    if Covered(pairs, c) {
      var k :| 0 <= k < |pairs| && pairs[k].0 <= c <= pairs[k].1;
      assert InPair(points, k, c);
    }
  }

  lemma NarrowTakes(points: seq<nat>, c: nat, k: nat)
    requires ClassOk(points) && |points| >= 2 && Narrow(points) && InPair(points, k, c)
    requires forall i :: 0 <= i < |points| && i % 2 == 1 ==> points[i] >= 1
    ensures |Pairs(points, true)| >= 1 && Accepts(Pairs(points, true), true, c)
  {
    hide Pairs;
    var pairs := Pairs(points, true);
    PairOf(points, true, k);
    PairOf(points, true, 0);
    PairOf(points, true, |pairs| - 1);
    NarrowBounds(points, k);
    assert pairs[k].0 <= c;
    assert points[0] <= points[2 * k];
    if points[2 * k + 1] != UINT32_MAX || c < 0xFFFF { assert c <= pairs[k].1; }
  }

  lemma NarrowOnly(points: seq<nat>, c: nat)
    requires ClassOk(points) && |points| >= 2 && Narrow(points) && c <= MAX_CODE_POINT
    requires forall i :: 0 <= i < |points| && i % 2 == 1 ==> points[i] >= 1
    requires |Pairs(points, true)| >= 1 && Accepts(Pairs(points, true), true, c)
    ensures exists k :: InPair(points, k, c)
  {
    hide Pairs;
    var pairs := Pairs(points, true);
    var last := |pairs| - 1;
    if Covered(pairs, c) {
      var k :| 0 <= k < |pairs| && pairs[k].0 <= c <= pairs[k].1;
      PairOf(points, true, k);
      NarrowBounds(points, k);
      assert InPair(points, k, c);
    } else {
      PairOf(points, true, last);
      NarrowBounds(points, last);
      assert points[2 * last] < points[2 * last + 1];
      assert InPair(points, last, c);
    }
  }

  lemma NarrowAccepts(points: seq<nat>, c: nat)
    requires ClassOk(points) && |points| >= 2 && Narrow(points) && c <= MAX_CODE_POINT
    requires forall i :: 0 <= i < |points| && i % 2 == 1 ==> points[i] >= 1
    ensures |Pairs(points, true)| >= 1 && (Accepts(Pairs(points, true), true, c) <==> exists k :: InPair(points, k, c))
  {
    hide Pairs, Accepts, InPair, ClassOk, Narrow;
    if k :| InPair(points, k, c) {
      PairIndex(points, k, c);
      NarrowTakes(points, c, k);
    }
    if Accepts(Pairs(points, true), true, c) { NarrowOnly(points, c); }
  }

  lemma PairIndex(points: seq<nat>, k: int, c: nat)
    requires InPair(points, k, c)
    ensures k >= 0
  {}
}
