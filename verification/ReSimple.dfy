/** The simple greedy quantifier: one instruction that refines the general greedy loop. */
module ReSimple {
  import opened ReBytes
  import opened ReChars
  import opened ReClass
  import opened ReCode
  import opened ReSemantics
  import opened ReProgress

  /** Counting iterations of a straight-line body, as the instruction does: how many, and where it ends. */
  function GreedyRun(f: seq<Instr>, s: Subject, max: nat, q: nat, p: nat): (r: (nat, nat))
    requires p <= |s.units|
    ensures q <= r.0 && p <= r.1 <= |s.units|
    decreases |s.units| - p
  {
    var e := Straight(f, s, p);
    if e <= p then (q, p)
    else if q + 1 >= max && max != INT32_MAX then (q + 1, e)
    else GreedyRun(f, s, max, q + 1, e)
  }

  /** The results found by going back k times len characters from x. */
  function BackResults(s: Subject, len: nat, x: Res, k: nat): (ys: seq<Res>)
    requires x.pos <= |s.units|
    ensures |ys| >= 1
    decreases k
  {
    if k == 0 then [x]
    else
      var p := Back(s.units, s.mode, x.pos, len);
      if p < 0 then [x] else [x] + BackResults(s, len, Res(p, x.caps), k - 1)
  }

  /** Going back once more, at the far end of the list. */
  lemma {:induction false} BackOneMore(s: Subject, len: nat, x: Res, k: nat)
    requires x.pos <= |s.units| && |BackResults(s, len, x, k)| == k + 1
    requires var y := BackResults(s, len, x, k)[k]; y.pos <= |s.units| && Back(s.units, s.mode, y.pos, len) >= 0
    ensures var y := BackResults(s, len, x, k)[k];
            BackResults(s, len, x, k + 1) == BackResults(s, len, x, k) + [Res(Back(s.units, s.mode, y.pos, len), y.caps)]
    decreases k
  {
    if k > 0 {
      var p := Back(s.units, s.mode, x.pos, len);
      BackOneMore(s, len, Res(p, x.caps), k - 1);
    }
  }

  /** A body seen as straight-line code: its results at x are the single end of the run. */
  ghost predicate StraightBody(b: Node, s: Subject, cc: nat) {
    && SubjectOk(s) && WellFormed(b) && SimpleCount(Code(b, cc)) > 0
  }

  lemma BodyResults(b: Node, s: Subject, cc: nat, x: Res)
    requires StraightBody(b, s, cc) && ResultOk(x, s, 0, |x.caps|)
    ensures Captures(b) == 0
    ensures var e := Straight(Code(b, cc), s, x.pos);
            && (e < 0 ==> Results(b, s, cc, x) == [])
            && (e >= 0 ==> Results(b, s, cc, x) == [Res(e, x.caps)] && e > x.pos && ResultOk(Res(e, x.caps), s, 0, |x.caps|))
            && (e >= 0 ==> Back(s.units, s.mode, e, SimpleCount(Code(b, cc))) == x.pos)
  {
    var f := Code(b, cc);
    SimpleResults(b, s, cc, x);
    if Straight(f, s, x.pos) >= 0 {
      StraightSkips(f, s, x.pos);
      SkipMoves(s, x.pos, SimpleCount(f));
      BackUndoesSkip(s.units, s.mode, x.pos, SimpleCount(f));
    }
  }

  lemma {:induction false} SkipMoves(s: Subject, p: nat, n: nat)
    requires p <= |s.units| && Skip(s.units, s.mode, p, n) >= 0
    ensures Skip(s.units, s.mode, p, n) >= p && (n > 0 ==> Skip(s.units, s.mode, p, n) > p)
    decreases n
  {
    if n > 0 { SkipMoves(s, NextPos(s.units, s.mode, p), n - 1); }
  }

  /** The results of the general loop after the mandatory copies, as a list. */
  function Tail(b: Node, s: Subject, cc: nat, max: nat, q: nat, x: Res): seq<Res> {
    if max == INT32_MAX then Star(b, s, cc, true, x) else UpTo(b, s, cc, if q <= max then max - q else 0, true, x)
  }

  lemma TailStep(b: Node, s: Subject, cc: nat, max: nat, q: nat, x: Res, y: Res)
    requires Results(b, s, cc, x) == [y] && x.pos < y.pos <= |s.units| && (max == INT32_MAX || q < max)
    ensures Tail(b, s, cc, max, q, x) == Tail(b, s, cc, max, q + 1, y) + [x]
  {
    assert [y][1..] == [];
    if max == INT32_MAX {
      assert StarAfter(b, s, cc, true, [y], x.pos) == Star(b, s, cc, true, y) + StarAfter(b, s, cc, true, [], x.pos);
    } else {
      assert EachUpTo(b, s, cc, max - q - 1, true, [y]) == UpTo(b, s, cc, max - q - 1, true, y) + EachUpTo(b, s, cc, max - q - 1, true, []);
    }
  }

  lemma TailEnd(b: Node, s: Subject, cc: nat, max: nat, q: nat, x: Res)
    requires Results(b, s, cc, x) == [] || (max != INT32_MAX && q >= max)
    ensures Tail(b, s, cc, max, q, x) == [x]
  {
    if max == INT32_MAX {
      assert StarAfter(b, s, cc, true, [], x.pos) == [];
    } else if q < max {
      assert EachUpTo(b, s, cc, max - q - 1, true, []) == [];
    }
  }

  /** From any iteration on, the general loop yields the ends in reverse, found by going back. */
  lemma {:induction false} TailBack(b: Node, s: Subject, cc: nat, max: nat, q: nat, x: Res)
    requires StraightBody(b, s, cc) && ResultOk(x, s, 0, |x.caps|) && (max == INT32_MAX || q < max)
    ensures var g := GreedyRun(Code(b, cc), s, max, q, x.pos);
            var ys := BackResults(s, SimpleCount(Code(b, cc)), Res(g.1, x.caps), g.0 - q);
            Tail(b, s, cc, max, q, x) == ys && |ys| == g.0 - q + 1 && ys[g.0 - q] == x
    decreases |s.units| - x.pos
  {
    hide Tail, Results, Straight, Code;
    var f := Code(b, cc);
    var len := SimpleCount(f);
    BodyResults(b, s, cc, x);
    var e := Straight(f, s, x.pos);
    if e < 0 {
      TailEnd(b, s, cc, max, q, x);
    } else {
      var y := Res(e, x.caps);
      TailStep(b, s, cc, max, q, x, y);
      if q + 1 >= max && max != INT32_MAX {
        TailEnd(b, s, cc, max, q + 1, y);
        assert BackResults(s, len, y, 0) == [y];
        BackOneMore(s, len, y, 0);
      } else {
        TailBack(b, s, cc, max, q + 1, y);
        var g := GreedyRun(f, s, max, q + 1, e);
        BackOneMore(s, len, Res(g.1, x.caps), g.0 - q - 1);
      }
    }
  }

  /** The mandatory copies either run out, or lead to a point the counting run passes through. */
  lemma {:induction false} CopiesRun(b: Node, s: Subject, cc: nat, max: nat, q: nat, n: nat, x: Res)
    requires StraightBody(b, s, cc) && ResultOk(x, s, 0, |x.caps|) && q + n <= max
    ensures var g := GreedyRun(Code(b, cc), s, max, q, x.pos);
            var ys := Copies(b, s, cc, n, [x]);
            && (n > 0 && g.0 < q + n ==> ys == [])
            && (n == 0 || g.0 >= q + n ==> |ys| == 1 && ResultOk(ys[0], s, 0, |x.caps|) && ys[0].caps == x.caps)
            && (n > 0 && g.0 >= q + n && q + n == max && max != INT32_MAX ==> g == (max, ys[0].pos))
            && ((n == 0 || g.0 >= q + n) && (q + n < max || max == INT32_MAX) ==>
                  g == GreedyRun(Code(b, cc), s, max, q + n, ys[0].pos))
    decreases n
  {
    hide Results, Straight, Code, EachResult;
    var f := Code(b, cc);
    if n > 0 {
      BodyResults(b, s, cc, x);
      EachOne(b, s, cc, x);
      CopiesFirst(b, s, cc, n, [x]);
      var e := Straight(f, s, x.pos);
      if e < 0 {
        CopiesNone(b, s, cc, n - 1);
      } else {
        CopiesRun(b, s, cc, max, q + 1, n - 1, Res(e, x.caps));
      }
    }
  }

  lemma {:induction false} CopiesNone(b: Node, s: Subject, cc: nat, n: nat)
    ensures Copies(b, s, cc, n, []) == []
    decreases n
  {
    if n > 0 {
      EachNone(b, s, cc);
      CopiesNone(b, s, cc, n - 1);
    }
  }

  /** The instruction refines the general loop: same results, in the same order. */
  lemma SimpleRefines(r: Node, s: Subject, cc: nat, x: Res)
    requires r.Repeat? && r.greedy && WellFormed(r) && r.max > 0 && StraightBody(r.body, s, cc) && ResultOk(x, s, 0, |x.caps|)
    ensures var f := Code(r.body, cc);
            var g := GreedyRun(f, s, r.max, 0, x.pos);
            Results(r, s, cc, x) == (if g.0 < r.min then [] else BackResults(s, SimpleCount(f), Res(g.1, x.caps), g.0 - r.min))
  {
    hide Results, Copies, GreedyRun, BackResults, Code;
    var b, min, max := r.body, r.min, r.max;
    var f := Code(b, cc);
    BodyResults(b, s, cc, x);
    RepeatResults(r, s, cc, x);
    CopiesRun(b, s, cc, max, 0, min, x);
    var g := GreedyRun(f, s, max, 0, x.pos);
    var ys := Copies(b, s, cc, min, [x]);
    if g.0 < min {
      EndsNone(r, s, cc);
    } else {
      CopiesCount(b, s, cc, min, x, max);
      EndsOne(r, s, cc, ys[0]);
      assert ys == [ys[0]];
      if max == INT32_MAX || min < max {
        TailBack(b, s, cc, max, min, ys[0]);
      } else {
        TailEnd(b, s, cc, max, min, ys[0]);
        BackNone(s, SimpleCount(f), ys[0]);
      }
    }
  }

  lemma CopiesCount(b: Node, s: Subject, cc: nat, min: nat, x: Res, max: nat)
    ensures min == 0 ==> Copies(b, s, cc, min, [x]) == [x]
  {}

  lemma BackNone(s: Subject, len: nat, x: Res)
    requires x.pos <= |s.units|
    ensures BackResults(s, len, x, 0) == [x]
  {}

  lemma EndsNone(r: Node, s: Subject, cc: nat)
    requires r.Repeat? && r.min <= r.max
    ensures RepeatEnds(r, s, cc, []) == []
  {}

  lemma EndsOne(r: Node, s: Subject, cc: nat, y: Res)
    requires r.Repeat? && r.min <= r.max && r.greedy
    ensures RepeatEnds(r, s, cc, [y]) == Tail(r.body, s, cc, r.max, r.min, y)
  {
    assert [y][1..] == [];
    if r.max == INT32_MAX {
      assert EachStar(r.body, s, cc, true, [y]) == Star(r.body, s, cc, true, y) + EachStar(r.body, s, cc, true, []);
    } else {
      assert EachUpTo(r.body, s, cc, r.max - r.min, true, [y]) ==
        UpTo(r.body, s, cc, r.max - r.min, true, y) + EachUpTo(r.body, s, cc, r.max - r.min, true, []);
    }
  }
}
