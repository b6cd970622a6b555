/** What holds at every step of every run of a compiled program, from any start position and whether or not the run ends:
    the program counter is at an instruction of the program, the stack stays within the room computed by the compiler
    and has the shape that instruction needs, and the machine is never stuck. */
module ReSafety {
  import opened ReBytes
  import opened ReChars
  import opened ReClass
  import opened ReCode
  import opened ReSemantics
  import opened ReProgress
  import opened ReSimple
  import opened ReMachine
  import opened ReDepth
  import opened ReCorrect
  import opened ReProgram
  import opened ReShape

  // ----- the invariant -----

  /** A stack with the slots that shape t promises. */
  predicate Fits(stk: seq<nat>, t: Shape) { |stk| == |t| && forall j :: 0 <= j < |t| ==> (t[j] ==> stk[j] >= 1) }

  /** The program g, followed by a match instruction, is what the machine holds. */
  ghost predicate Holding(m: Machine, g: seq<Instr>) {
    && Holds(m.code, 0, g + [Match]) && |m.code| == Total(g + [Match])
    && Sound(g, [], m.captures) && m.room == MaxDepth(g + [Match])
  }

  /** pc is where instruction k of the program starts, and the stack fits there. */
  predicate AtIndex(g: seq<Instr>, pc: int, stk: seq<nat>, k: int) {
    0 <= k <= |g| && Total(g[..k]) == pc && Fits(stk, ShapeAfter(g[..k], []))
  }

  ghost predicate AtPoint(g: seq<Instr>, pc: int, stk: seq<nat>) { exists k :: AtIndex(g, pc, stk, k) }

  /** The position lies in the subject, the captures fit their array. */
  predicate Inside(m: Machine, x: Res) { x.pos <= |m.s.units| && |x.caps| == 2 * m.captures }

  /** A simple quantifier that can still give back all its iterations. */
  predicate CanGive(m: Machine, st: State) {
    st.Quant? ==>
      && Decode(m.code, st.pc).Some? && Decode(m.code, st.pc).value.SimpleGreedy? && st.count > 0 && st.x.pos <= |m.s.units|
      && Back(m.s.units, m.s.mode, st.x.pos, Decode(m.code, st.pc).value.len * st.count) >= 0
  }

  ghost predicate SafeState(m: Machine, g: seq<Instr>, st: State) { AtPoint(g, st.pc, st.stk) && Inside(m, st.x) && CanGive(m, st) }

  ghost predicate SafeStates(m: Machine, g: seq<Instr>, ss: seq<State>) { forall k :: 0 <= k < |ss| ==> SafeState(m, g, ss[k]) }

  ghost predicate SafeConfig(m: Machine, g: seq<Instr>, c: Config) {
    match c
    case Run(pc, x, stk, ss) => AtPoint(g, pc, stk) && Inside(m, x) && SafeStates(m, g, ss)
    case Fail(ss) => SafeStates(m, g, ss)
    case Succeed(x, ss) => Inside(m, x) && SafeStates(m, g, ss)
    case NoMatch => true
    case Matched(x) => Inside(m, x)
    case Stuck => false
  }

  // ----- the program at a point -----

  lemma {:induction false} DecodedAt(b: seq<byte>, p: nat, f: seq<Instr>, k: nat)
    requires Holds(b, p, f) && k < |f|
    ensures Decode(b, p + Total(f[..k])) == Some(f[k]) && Total(f[..k + 1]) == Total(f[..k]) + Size(f[k])
    decreases k
  {
    hide Decode, Size;
    if k > 0 {
      DecodedAt(b, p + Size(f[0]), f[1..], k - 1);
      assert f[..k][1..] == f[1..][..k - 1] && f[..k + 1][1..] == f[1..][..k];
    } else {
      assert f[..1] == [f[0]] && f[..1][1..] == [];
    }
  }

  /** The shape grows and shrinks with the depth, and never exceeds the largest depth. */
  lemma {:induction false} ShapeRoom(g: seq<Instr>, n: nat, k: nat)
    requires Sound(g, [], n) && k <= |g|
    ensures |ShapeAfter(g[..k], [])| == NetDepth(g[..k]) <= MaxDepth(g + [Match])
    decreases k
  {
    hide PointOk, MaxDepth, NetDepth, ShapeAfter, Next;
    if k > 0 {
      ShapeRoom(g, n, k - 1);
      var i, a := g[k - 1], g[..k - 1];
      assert g[..k] == a + [i];
      assert PointOk(g, [], n, k - 1);
      PointEnters(g, n, k - 1);
      ShapeAppend(a, [i], []);
      ShapeOne(i, ShapeAfter(a, []));
      DepthAppend(a, [i]);
      OneNet(i);
      NextDepth(i, ShapeAfter(a, []));
    } else {
      assert g[..0] == [];
      ShapeOne(Match, []);
      NoDepth();
    }
    assert g + [Match] == g[..k] + (g[k..] + [Match]);
    DepthAppend(g[..k], g[k..] + [Match]);
  }

  lemma PointEnters(g: seq<Instr>, n: nat, k: nat)
    requires k < |g| && PointOk(g, [], n, k)
    ensures Enters(g[k], ShapeAfter(g[..k], []))
  {}

  lemma NextDepth(i: Instr, t: Shape)
    requires Enters(i, t)
    ensures |Next(i, t)| == |t| + Delta(i)
  {}

  /** What stands at a point: an instruction of g that is sound there, or the final match. */
  lemma AtInstr(m: Machine, g: seq<Instr>, pc: nat, stk: seq<nat>, k: nat)
    requires Holding(m, g) && AtIndex(g, pc, stk, k)
    ensures Decode(m.code, pc) == Some(if k < |g| then g[k] else Match)
    ensures k < |g| ==> PointOk(g, [], m.captures, k) && pc + Size(g[k]) == Total(g[..k + 1])
    ensures |stk| <= m.room && (k < |g| ==> |ShapeAfter(g[..k + 1], [])| <= m.room)
  {
    hide Decode, Size, Total, Holds, PointOk, ShapeAfter, MaxDepth, NetDepth;
    var f := g + [Match];
    assert f[..k] == g[..k];
    DecodedAt(m.code, 0, f, k);
    ShapeRoom(g, m.captures, k);
    if k < |g| {
      assert f[..k + 1] == g[..k + 1];
      ShapeRoom(g, m.captures, k + 1);
    }
  }

  /** Falling through to the next instruction. */
  lemma NextPoint(m: Machine, g: seq<Instr>, pc: nat, stk: seq<nat>, k: nat, stk1: seq<nat>)
    requires Holding(m, g) && AtIndex(g, pc, stk, k) && k < |g| && Fits(stk1, Next(g[k], ShapeAfter(g[..k], [])))
    ensures AtPoint(g, pc + Size(g[k]), stk1)
  {
    hide Decode, Size, Total, Holds, PointOk, ShapeAfter, Next, Fits;
    AtInstr(m, g, pc, stk, k);
    assert g[..k + 1] == g[..k] + [g[k]];
    ShapeAppend(g[..k], [g[k]], []);
    ShapeOne(g[k], ShapeAfter(g[..k], []));
    assert AtIndex(g, pc + Size(g[k]), stk1, k + 1);
  }

  /** Jumping. */
  lemma JumpPoint(m: Machine, g: seq<Instr>, pc: nat, stk: seq<nat>, k: nat, stk1: seq<nat>)
    requires Holding(m, g) && AtIndex(g, pc, stk, k) && k < |g| && IsJump(g[k]) && Fits(stk1, Taken(g[k], ShapeAfter(g[..k], [])))
    ensures AtPoint(g, pc + Size(g[k]) + JumpBy(g[k]), stk1) && pc + Size(g[k]) + JumpBy(g[k]) >= 0
  {
    hide Decode, Size, Total, Holds, ShapeAfter, Taken, JumpBy;
    AtInstr(m, g, pc, stk, k);
    var p, u := pc + Size(g[k]) + JumpBy(g[k]), Taken(g[k], ShapeAfter(g[..k], []));
    var j :| LandsAt(g, [], p, u, j);
    assert AtIndex(g, p, stk1, j);
  }

  // ----- giving back -----

  /** Going back as many characters as were read stays in the subject from any position: from inside a surrogate pair
      it ends one unit earlier, at the start of the pair. */
  lemma BackAny(s: Subject, p: nat, n: nat)
    requires p <= |s.units| && Skip(s.units, s.mode, p, n) >= 0
    ensures Back(s.units, s.mode, Skip(s.units, s.mode, p, n), n) >= 0
  {
    if Boundary(s.units, s.mode, p) {
      BackUndoesSkip(s.units, s.mode, p, n);
    } else if n > 0 {
      assert NextPos(s.units, s.mode, p - 1) == NextPos(s.units, s.mode, p) == p + 1;
      assert Skip(s.units, s.mode, p - 1, n) == Skip(s.units, s.mode, p, n);
      BackUndoesSkip(s.units, s.mode, p - 1, n);
    }
  }

  lemma {:induction false} SkipAdd(s: Subject, p: nat, a: nat, b: nat)
    requires p <= |s.units| && Skip(s.units, s.mode, p, a) >= 0
    ensures Skip(s.units, s.mode, p, a + b) == Skip(s.units, s.mode, Skip(s.units, s.mode, p, a), b)
    decreases a
  {
    if a > 0 { SkipAdd(s, NextPos(s.units, s.mode, p), a - 1, b); }
  }

  lemma {:induction false} BackAdd(s: Subject, p: nat, a: nat, b: nat)
    requires p <= |s.units| && Back(s.units, s.mode, p, a + b) >= 0
    ensures Back(s.units, s.mode, p, a) >= 0
    ensures Back(s.units, s.mode, p, a + b) == Back(s.units, s.mode, Back(s.units, s.mode, p, a), b)
    decreases a
  {
    if a > 0 { BackAdd(s, PrevPos(s.units, s.mode, p), a - 1, b); }
  }

  /** The counting loop ends len characters further for every iteration. */
  lemma {:induction false} GreedySkips(f: seq<Instr>, s: Subject, max: nat, q: nat, p: nat)
    requires p <= |s.units| && SimpleCount(f) > 0
    ensures var r := GreedyRun(f, s, max, q, p); Skip(s.units, s.mode, p, SimpleCount(f) * (r.0 - q)) == r.1
    decreases |s.units| - p
  {
    hide SimpleCount, Straight;
    var e, len := Straight(f, s, p), SimpleCount(f);
    var r := GreedyRun(f, s, max, q, p);
    if e > p {
      StraightSkips(f, s, p);
      if !(q + 1 >= max && max != INT32_MAX) {
        GreedySkips(f, s, max, q + 1, e);
        SkipAdd(s, p, len, len * (r.0 - (q + 1)));
        assert len * (r.0 - q) == len + len * (r.0 - (q + 1));
      }
    }
  }

  lemma GreedyCanGive(f: seq<Instr>, s: Subject, max: nat, p: nat, count: nat)
    requires p <= |s.units| && SimpleCount(f) > 0 && count <= GreedyRun(f, s, max, 0, p).0
    ensures Back(s.units, s.mode, GreedyRun(f, s, max, 0, p).1, SimpleCount(f) * count) >= 0
  {
    hide SimpleCount, GreedyRun;
    var r, len := GreedyRun(f, s, max, 0, p), SimpleCount(f);
    GreedySkips(f, s, max, 0, p);
    BackAny(s, p, len * r.0);
    assert len * r.0 == len * count + len * (r.0 - count);
    BackAdd(s, r.1, len * count, len * (r.0 - count));
  }

  /** The body of a simple quantifier in the machine. */
  lemma GreedyBody(m: Machine, g: seq<Instr>, pc: nat, stk: seq<nat>, k: nat) returns (f: seq<Instr>)
    requires Holding(m, g) && AtIndex(g, pc, stk, k) && k < |g| && g[k].SimpleGreedy?
    ensures Holds(m.code, pc + 17, f + [Match]) && SimpleCount(f) == g[k].len > 0 && AllSorted(f)
  {
    hide Decode, Holds, SimpleCount, ShapeAfter, Lands, RangeBad;
    AtInstr(m, g, pc, stk, k);
    var b: nat :| BodyAt(g, k, b);
    f := g[k + 1..k + 1 + b];
    var rest := g[k + 2 + b..] + [Match];
    assert g + [Match] == g[..k + 1] + ((f + [Match]) + rest);
    HoldsParts(m.code, 0, g[..k + 1], (f + [Match]) + rest);
    HoldsParts(m.code, Total(g[..k + 1]), f + [Match], rest);
    forall i | i in f ensures !RangeBad(i) {
      var j :| 0 <= j < |f| && f[j] == i;
      assert PointOk(g, [], m.captures, k + 1 + j);
    }
  }

  // ----- one step -----

  lemma StatesPush(m: Machine, g: seq<Instr>, ss: seq<State>, st: State)
    requires SafeStates(m, g, ss) && SafeState(m, g, st)
    ensures SafeStates(m, g, ss + [st])
  {
    hide SafeState;
  }

  lemma StatesPop(m: Machine, g: seq<Instr>, ss: seq<State>)
    requires SafeStates(m, g, ss) && ss != []
    ensures SafeStates(m, g, ss[..|ss| - 1]) && SafeState(m, g, ss[|ss| - 1])
  {
    hide SafeState;
  }

  /** What an instruction with stack operands leaves. */
  lemma StackShape(i: Instr, stk: seq<nat>, t: Shape, v: nat)
    requires Fits(stk, t) && Enters(i, t)
    ensures i.PushI32? ==> Fits(stk + [i.value], Next(i, t)) && |stk| + 1 == |Next(i, t)|
    ensures i.PushCharPos? ==> Fits(stk + [v], Next(i, t)) && |stk| + 1 == |Next(i, t)|
    ensures i.Drop? || i.BneCharPos? ==> |stk| > 0 && Fits(stk[..|stk| - 1], Next(i, t)) && Fits(stk[..|stk| - 1], t[..|t| - 1])
    ensures i.Loop? ==> |stk| > 0 && stk[|stk| - 1] >= 1 && Fits(stk[|stk| - 1 := stk[|stk| - 1] - 1], Next(i, t))
    ensures i.Loop? && stk[|stk| - 1] > 1 ==> Fits(stk[|stk| - 1 := stk[|stk| - 1] - 1], t)
  {}

  ghost predicate StackOp(i: Instr) { i.PushI32? || i.PushCharPos? || i.Drop? || i.Loop? || i.BneCharPos? }

  lemma StackStep(m: Machine, g: seq<Instr>, pc: nat, x: Res, stk: seq<nat>, ss: seq<State>, k: nat)
    requires Holding(m, g) && AtIndex(g, pc, stk, k) && k < |g| && StackOp(g[k]) && Inside(m, x) && SafeStates(m, g, ss)
    ensures SafeConfig(m, g, StepRun(m, pc, x, stk, ss))
  {
    hide Decode, Holding, SafeStates, Total, ShapeAfter, Next, Fits, AtPoint;
    var i, t, n := g[k], ShapeAfter(g[..k], []), |stk|;
    AtInstr(m, g, pc, stk, k);
    PointEnters(g, m.captures, k);
    StackShape(i, stk, t, x.pos);
    NextShape(g, k);
    match i
    case PushI32(v) => NextPoint(m, g, pc, stk, k, stk + [v]);
    case PushCharPos => NextPoint(m, g, pc, stk, k, stk + [x.pos]);
    case Drop => NextPoint(m, g, pc, stk, k, stk[..n - 1]);
    case Loop(off) =>
      var stk1 := stk[n - 1 := stk[n - 1] - 1];
      if stk[n - 1] != 1 { JumpPoint(m, g, pc, stk, k, stk1); } else { NextPoint(m, g, pc, stk, k, stk1); }
    case BneCharPos(off) =>
      NextPoint(m, g, pc, stk, k, stk[..n - 1]);
      BneShape(t, stk);
      JumpPoint(m, g, pc, stk, k, stk[..n - 1]);
  }

  lemma NextShape(g: seq<Instr>, k: nat)
    requires k < |g|
    ensures ShapeAfter(g[..k + 1], []) == Next(g[k], ShapeAfter(g[..k], []))
  {
    hide ShapeAfter, Next;
    assert g[..k + 1] == g[..k] + [g[k]];
    ShapeAppend(g[..k], [g[k]], []);
    ShapeOne(g[k], ShapeAfter(g[..k], []));
  }

  lemma BneShape(t: Shape, stk: seq<nat>)
    requires Fits(stk, t)
    ensures |t| == |stk|
  {}

  /** Instructions that leave the stack alone keep its shape. */
  lemma SameShape(g: seq<Instr>, pc: nat, stk: seq<nat>, k: nat)
    requires AtIndex(g, pc, stk, k) && k < |g| && !StackOp(g[k])
    ensures Fits(stk, Next(g[k], ShapeAfter(g[..k], []))) && Fits(stk, Taken(g[k], ShapeAfter(g[..k], [])))
  {}

  /** Characters, assertions and captures. */
  lemma PlainStep(m: Machine, g: seq<Instr>, pc: nat, x: Res, stk: seq<nat>, ss: seq<State>, k: nat)
    requires Holding(m, g) && AtIndex(g, pc, stk, k) && k < |g| && Inside(m, x) && SafeStates(m, g, ss)
    requires var i := g[k]; IsChar(i) || IsAssertion(i) || i.SaveStart? || i.SaveEnd? || i.SaveReset?
    ensures SafeConfig(m, g, StepRun(m, pc, x, stk, ss))
  {
    hide Decode, Holding, SafeStates, Total, ShapeAfter, Next, Taken, Fits, AtPoint, RangeBad, Takes, InstrHolds, Lands;
    AtInstr(m, g, pc, stk, k);
    SameShape(g, pc, stk, k);
    NextPoint(m, g, pc, stk, k, stk);
  }

  /** Control: jumps, splits and lookaheads, and the match in a lookahead or a quantifier. */
  lemma ControlStep(m: Machine, g: seq<Instr>, pc: nat, x: Res, stk: seq<nat>, ss: seq<State>, k: nat)
    requires Holding(m, g) && AtIndex(g, pc, stk, k) && k < |g| && Inside(m, x) && SafeStates(m, g, ss)
    requires var i := g[k]; i.Goto? || i.Split? || i.Lookahead? || i.Match?
    ensures SafeConfig(m, g, StepRun(m, pc, x, stk, ss))
  {
    hide Decode, Holding, SafeStates, Total, ShapeAfter, Next, Taken, Fits, AtPoint, Lands;
    AtInstr(m, g, pc, stk, k);
    SameShape(g, pc, stk, k);
    NextPoint(m, g, pc, stk, k, stk);
    if !g[k].Match? {
      JumpPoint(m, g, pc, stk, k, stk);
      var next, target := pc + 5, pc + 5 + JumpBy(g[k]);
      match g[k] {
        case Split(nextFirst, _) => StatesPush(m, g, ss, Choice(if nextFirst then target else next, x, stk));
        case Lookahead(negated, _) => StatesPush(m, g, ss, Around(negated, target, x, stk));
        case _ =>
      }
    }
  }

  lemma GreedyStep(m: Machine, g: seq<Instr>, pc: nat, x: Res, stk: seq<nat>, ss: seq<State>, k: nat)
    requires Holding(m, g) && AtIndex(g, pc, stk, k) && k < |g| && Inside(m, x) && SafeStates(m, g, ss) && g[k].SimpleGreedy?
    ensures SafeConfig(m, g, StepRun(m, pc, x, stk, ss))
  {
    hide Decode, Holding, SafeStates, Total, ShapeAfter, Next, Taken, Fits, Lands, Iterations, GreedyRun, Holds, AllSorted, SimpleCount;
    AtInstr(m, g, pc, stk, k);
    SameShape(g, pc, stk, k);
    var i := g[k];
    var f := GreedyBody(m, g, pc, stk, k);
    IterationsRun(m, pc + 17, f, i.max, 0, x.pos);
    JumpPoint(m, g, pc, stk, k, stk);
    var r := GreedyRun(f, m.s, i.max, 0, x.pos);
    if r.0 > i.min {
      var st := Quant(pc, Res(r.1, x.caps), stk, r.0 - i.min);
      GreedyCanGive(f, m.s, i.max, x.pos, r.0 - i.min);
      assert AtPoint(g, pc, stk);
      StatesPush(m, g, ss, st);
    }
  }

  lemma RunStep(m: Machine, g: seq<Instr>, pc: nat, x: Res, stk: seq<nat>, ss: seq<State>)
    requires Holding(m, g) && SafeConfig(m, g, Run(pc, x, stk, ss))
    ensures SafeConfig(m, g, StepRun(m, pc, x, stk, ss))
  {
    hide Decode, Holding, SafeStates, Inside, StepRun, AtIndex, SafeConfig;
    SafeRun(m, g, pc, x, stk, ss);
    var k :| AtIndex(g, pc, stk, k);
    IndexRange(g, pc, stk, k);
    if k == |g| {
      AtInstr(m, g, pc, stk, k);
      MatchStep(m, g, pc, x, stk, ss);
    } else {
      var i := g[k];
      if StackOp(i) {
        StackStep(m, g, pc, x, stk, ss, k);
      } else if i.SimpleGreedy? {
        GreedyStep(m, g, pc, x, stk, ss, k);
      } else if i.Goto? || i.Split? || i.Lookahead? || i.Match? {
        ControlStep(m, g, pc, x, stk, ss, k);
      } else {
        PlainStep(m, g, pc, x, stk, ss, k);
      }
    }
  }

  lemma SafeRun(m: Machine, g: seq<Instr>, pc: nat, x: Res, stk: seq<nat>, ss: seq<State>)
    requires SafeConfig(m, g, Run(pc, x, stk, ss))
    ensures AtPoint(g, pc, stk) && Inside(m, x) && SafeStates(m, g, ss)
  {}

  lemma IndexRange(g: seq<Instr>, pc: int, stk: seq<nat>, k: int)
    requires AtIndex(g, pc, stk, k)
    ensures 0 <= k <= |g|
  {}

  lemma MatchStep(m: Machine, g: seq<Instr>, pc: nat, x: Res, stk: seq<nat>, ss: seq<State>)
    requires Decode(m.code, pc) == Some(Match) && Inside(m, x) && SafeStates(m, g, ss)
    ensures SafeConfig(m, g, StepRun(m, pc, x, stk, ss))
  {
    hide Decode, SafeStates;
  }

  lemma FailStep(m: Machine, g: seq<Instr>, ss: seq<State>)
    requires Holding(m, g) && SafeStates(m, g, ss)
    ensures SafeConfig(m, g, StepFail(m, ss))
  {
    hide Decode, Holding, SafeStates, AtPoint;
    if ss != [] {
      StatesPop(m, g, ss);
      var rest, st := ss[..|ss| - 1], ss[|ss| - 1];
      if st.Quant? {
        var i := Decode(m.code, st.pc).value;
        GiveBack(m, g, st);
        var y := Res(Back(m.s.units, m.s.mode, st.x.pos, i.len), st.x.caps);
        if st.count > 1 { StatesPush(m, g, rest, Quant(st.pc, y, st.stk, st.count - 1)); }
      }
    }
  }

  /** One iteration given back: the rest can still be, and the run goes on behind the quantifier. */
  lemma GiveBack(m: Machine, g: seq<Instr>, st: State)
    requires Holding(m, g) && SafeState(m, g, st) && st.Quant?
    ensures var i := Decode(m.code, st.pc).value;
            var p := Back(m.s.units, m.s.mode, st.x.pos, i.len);
            && p >= 0 && st.pc + 17 + i.next >= 0 && AtPoint(g, st.pc + 17 + i.next, st.stk)
            && (st.count > 1 ==> CanGive(m, Quant(st.pc, Res(p, st.x.caps), st.stk, st.count - 1)))
  {
    hide Decode, Holding, Total, ShapeAfter, Next, Taken, Fits, Back, Inside;
    var i := Decode(m.code, st.pc).value;
    var k :| AtIndex(g, st.pc, st.stk, k);
    AtInstr(m, g, st.pc, st.stk, k);
    SameShape(g, st.pc, st.stk, k);
    JumpPoint(m, g, st.pc, st.stk, k, st.stk);
    assert i.len * st.count == i.len + i.len * (st.count - 1);
    BackAdd(m.s, st.x.pos, i.len, i.len * (st.count - 1));
  }

  lemma SucceedStep(m: Machine, g: seq<Instr>, x: Res, ss: seq<State>)
    requires Inside(m, x) && SafeStates(m, g, ss)
    ensures SafeConfig(m, g, StepSucceed(x, ss))
  {
    hide SafeStates, AtPoint, CanGive;
    if ss != [] { StatesPop(m, g, ss); }
  }

  /** Every step from a safe configuration leads to a safe one. */
  lemma StepSafe(m: Machine, g: seq<Instr>, c: Config)
    requires Holding(m, g) && SafeConfig(m, g, c)
    ensures SafeConfig(m, g, Step(m, c))
  {
    hide Holding, StepRun, StepFail, StepSucceed, SafeStates, AtPoint, Inside;
    match c
    case Run(pc, x, stk, ss) => RunStep(m, g, pc, x, stk, ss);
    case Fail(ss) => FailStep(m, g, ss);
    case Succeed(x, ss) => SucceedStep(m, g, x, ss);
    case _ =>
  }

  // ----- every run -----

  /** What a maintainer can rely on at a configuration of a run: an instruction inside the program comes next, the stack
      and every saved stack fit the announced room, positions lie in the subject, and the run goes on without an error. */
  ghost predicate Safe(m: Machine, g: seq<Instr>, c: Config) {
    && SafeConfig(m, g, c) && Step(m, c) != Stuck
    && (c.Run? ==> InProgram(m, c.pc) && |c.stk| <= m.room && c.x.pos <= |m.s.units|)
    && (forall k :: 0 <= k < |SavedBy(c)| ==> RoomFor(m, SavedBy(c)[k]))
  }

  predicate InProgram(m: Machine, pc: nat) { Decode(m.code, pc).Some? && pc + Size(Decode(m.code, pc).value) <= |m.code| }

  predicate RoomFor(m: Machine, st: State) {
    InProgram(m, st.pc) && |st.stk| <= m.room && st.x.pos <= |m.s.units| && |st.x.caps| == 2 * m.captures
  }

  function SavedBy(c: Config): seq<State> {
    match c
    case Run(_, _, _, ss) => ss
    case Fail(ss) => ss
    case Succeed(_, ss) => ss
    case _ => []
  }

  lemma PointRoom(m: Machine, g: seq<Instr>, pc: nat, stk: seq<nat>)
    requires Holding(m, g) && AtPoint(g, pc, stk)
    ensures InProgram(m, pc) && |stk| <= m.room
  {
    hide Decode, Holding;
    var k :| AtIndex(g, pc, stk, k);
    AtInstr(m, g, pc, stk, k);
    DecodeSize(m.code, pc);
  }

  lemma SafeMeans(m: Machine, g: seq<Instr>, c: Config)
    requires Holding(m, g) && SafeConfig(m, g, c)
    ensures Safe(m, g, c)
  {
    hide Holding, Step, AtPoint, InProgram, CanGive;
    StepSafe(m, g, c);
    if c.Run? { PointRoom(m, g, c.pc, c.stk); }
    forall k | 0 <= k < |SavedBy(c)| ensures RoomFor(m, SavedBy(c)[k]) {
      var st := SavedBy(c)[k];
      assert SafeState(m, g, st);
      PointRoom(m, g, st.pc, st.stk);
    }
  }

  lemma {:induction false} StepsSafe(m: Machine, g: seq<Instr>, c: Config, n: nat)
    requires Holding(m, g) && SafeConfig(m, g, c)
    ensures Safe(m, g, Steps(m, c, n))
    decreases n
  {
    hide Holding, SafeConfig, Safe, Step;
    if n == 0 {
      SafeMeans(m, g, c);
    } else {
      StepSafe(m, g, c);
      StepsSafe(m, g, Step(m, c), n - 1);
    }
  }

  /** The program of r is in the machine, whose captures and stack room are those of its header. */
  ghost predicate Programmed(m: Machine, r: Node, sticky: bool)
    requires Parsed(r)
  {
    && Holds(m.code, 0, ProgramCode(r, sticky)) && |m.code| == Total(ProgramCode(r, sticky))
    && m.captures == 1 + Captures(r) && m.room == MaxDepth(ProgramCode(r, sticky))
  }

  /** Every configuration of every run of every program the compiler accepts is safe: from any start position, inside a
      surrogate pair or not, on any units, and for runs that never end as well. */
  lemma RunsSafely(m: Machine, r: Node, sticky: bool, x: Res, n: nat)
    requires Parsed(r) && RangesFit(r) && Programmed(m, r, sticky) && Inside(m, x)
    ensures Safe(m, Before(r, sticky), Steps(m, Run(0, x, [], []), n))
  {
    hide Holds, Safe, Step, MaxDepth, Total, ProgramCode, Before, Sound, ShapeAfter;
    ProgramSound(r, sticky);
    FirstSafe(m, Before(r, sticky), x);
    StepsSafe(m, Before(r, sticky), Run(0, x, [], []), n);
  }

  lemma FirstSafe(m: Machine, g: seq<Instr>, x: Res)
    requires Inside(m, x)
    ensures SafeConfig(m, g, Run(0, x, [], []))
  {
    assert g[..0] == [];
    assert AtIndex(g, 0, [], 0);
  }
}
