/** The byte code of a pattern yields exactly the results of the pattern, in order, and never gets stuck. */
module ReCorrect {
  import opened ReBytes
  import opened ReChars
  import opened ReClass
  import opened ReCode
  import opened ReSemantics
  import opened ReProgress
  import opened ReSimple
  import opened ReMachine
  import opened ReDepth

  /** Where a fragment of code may be entered: subject, captures and stack room are as the compiler arranged them. */
  ghost predicate Ready(m: Machine, x: Res, groups: nat) {
    SubjectOk(m.s) && ResultOk(x, m.s, 0, 2 * m.captures) && groups <= m.captures
  }

  /** The code of r lies at p and its needs are met. */
  ghost predicate Loaded(m: Machine, r: Node, cc: nat, p: nat, depth: nat) {
    && SubjectOk(m.s) && WellFormed(r) && Holds(m.code, p, Code(r, cc))
    && cc + Captures(r) <= m.captures && depth + Depth(r, cc) <= m.room
  }

  ghost predicate Start(m: Machine, x: Res) { ResultOk(x, m.s, 0, 2 * m.captures) }

  ghost predicate Starts(m: Machine, ys: seq<Res>) { Within(ys, m.s, 0, 2 * m.captures) }

  function After(r: Node, cc: nat, p: nat): nat
    requires WellFormed(r)
  {
    p + Total(Code(r, cc))
  }

  // ----- single instructions -----

  /** What a step at a decoded instruction does. */
  lemma RunsTo(m: Machine, pc: nat, x: Res, stk: seq<nat>, ss: seq<State>, d: Config)
    requires StepRun(m, pc, x, stk, ss) == d
    ensures Reaches(m, Run(pc, x, stk, ss), d)
  {
    ReachesStep(m, Run(pc, x, stk, ss));
  }

  lemma PopTop(ss: seq<State>, st: State)
    ensures (ss + [st])[..|ss + [st]| - 1] == ss && (ss + [st])[|ss + [st]| - 1] == st
  {}

  /** Failing on a choice resumes it. */
  lemma FailChoice(m: Machine, ss: seq<State>, pc: nat, x: Res, stk: seq<nat>)
    ensures Reaches(m, Fail(ss + [Choice(pc, x, stk)]), Run(pc, x, stk, ss))
  {
    PopTop(ss, Choice(pc, x, stk));
    ReachesStep(m, Fail(ss + [Choice(pc, x, stk)]));
  }

  /** A split: first the results of one side, then those of the other. */
  lemma SplitYields(m: Machine, p: nat, nextFirst: bool, off: int, x: Res, stk: seq<nat>, base: seq<State>, q: nat, qs: seq<nat>,
                    ys: seq<Res>, zs: seq<Res>)
    requires Decode(m.code, p) == Some(Split(nextFirst, off)) && x.pos <= |m.s.units| && p + 5 + off >= 0
    requires var a, b := if nextFirst then p + 5 else p + 5 + off, if nextFirst then p + 5 + off else p + 5;
             && Yields(m, Run(a, x, stk, base + [Choice(b, x, stk)]), base + [Choice(b, x, stk)], q, qs, ys)
             && Yields(m, Run(b, x, stk, base), base, q, qs, zs)
    ensures Yields(m, Run(p, x, stk, base), base, q, qs, ys + zs)
  {
    hide Yields, Reaches, Decode, WellFormed, Parsed;
    var a, b := if nextFirst then p + 5 else p + 5 + off, if nextFirst then p + 5 + off else p + 5;
    var st := Choice(b, x, stk);
    RunsTo(m, p, x, stk, base, Run(a, x, stk, base + [st]));
    FailChoice(m, base, b, x, stk);
    YieldsFrom(m, Fail(base + [st]), Run(b, x, stk, base), base, q, qs, zs);
    YieldsBind(m, Run(p, x, stk, base), Run(a, x, stk, base + [st]), base, [st], q, qs, ys, zs);
  }

  lemma LeafYields(m: Machine, r: Node, cc: nat, p: nat, x: Res, stk: seq<nat>, base: seq<State>)
    requires Loaded(m, r, cc, p, |stk|) && Start(m, x) && (IsCharNode(r) || IsAssertNode(r) || r.Empty?)
    ensures Yields(m, Run(p, x, stk, base), base, After(r, cc, p), stk, Results(r, m.s, cc, x))
  {
    hide Yields, Reaches, Decode, Results, Takes, InstrHolds, WellFormed, Parsed;
    LeafStraight(r, m.s, cc, x);
    var f := Code(r, cc);
    var c := Run(p, x, stk, base);
    if r.Empty? {
      ReachesSelf(m, c);
      YieldsOne(m, c, base, p, stk, x);
    } else {
      LeafCode(r, cc);
      HoldsOne(m.code, p, f[0]);
      StraightOne(f[0], m.s, x.pos);
      ReachesStep(m, c);
      var e := Straight(f, m.s, x.pos);
      if e >= 0 {
        YieldsOne(m, c, base, After(r, cc, p), stk, Res(e, x.caps));
      } else {
        YieldsNone(m, c, base, After(r, cc, p), stk);
      }
    }
  }

  // ----- where the parts of a pattern lie -----

  lemma WrapHolds(b: seq<byte>, p: nat, i: Instr, f: seq<Instr>, j: Instr)
    requires Holds(b, p, [i] + f + [j])
    ensures Decode(b, p) == Some(i) && Holds(b, p + Size(i), f) && Decode(b, p + Size(i) + Total(f)) == Some(j)
  {
    hide Holds, Decode, Size, WellFormed, Parsed;
    HoldsParts(b, p, [i] + f, [j]);
    HoldsParts(b, p, [i], f);
    HoldsOne(b, p, i);
    HoldsOne(b, p + Total([i] + f), j);
    TotalAppend([i], f);
  }

  lemma CaptureLoaded(m: Machine, r: Node, cc: nat, p: nat, d: nat)
    requires r.Capture? && Loaded(m, r, cc, p, d)
    ensures Decode(m.code, p) == Some(SaveStart(cc)) && Loaded(m, r.body, cc + 1, p + 2, d) && cc < m.captures
    ensures Decode(m.code, After(r.body, cc + 1, p + 2)) == Some(SaveEnd(cc)) && After(r, cc, p) == After(r.body, cc + 1, p + 2) + 2
  {
    hide Holds, Decode, Code, MaxDepth, NetDepth, Total, Parsed, MinDepth;
    CaptureCode(r, cc);
    var f := Code(r.body, cc + 1);
    WrapHolds(m.code, p, SaveStart(cc), f, SaveEnd(cc));
    WrapDepth(SaveStart(cc), f, SaveEnd(cc));
    NoNet(r.body, cc + 1);
  }

  lemma LookLoaded(m: Machine, r: Node, cc: nat, p: nat, d: nat)
    requires r.Look? && Loaded(m, r, cc, p, d)
    ensures Decode(m.code, p) == Some(Lookahead(r.negated, After(r.body, cc, p + 5) + 1 - (p + 5)))
    ensures Loaded(m, r.body, cc, p + 5, d) && Decode(m.code, After(r.body, cc, p + 5)) == Some(Match)
    ensures After(r, cc, p) == After(r.body, cc, p + 5) + 1
  {
    hide Holds, Decode, Code, MaxDepth, NetDepth, Total, Parsed, MinDepth;
    LookCode(r, cc);
    var f := Code(r.body, cc);
    var l := Lookahead(r.negated, Total(f) + 1);
    WrapHolds(m.code, p, l, f, Match);
    WrapDepth(l, f, Match);
    NoNet(r.body, cc);
  }

  lemma ThenLoaded(m: Machine, r: Node, cc: nat, p: nat, d: nat)
    requires r.Then? && Loaded(m, r, cc, p, d)
    ensures Loaded(m, r.first, cc, p, d) && Loaded(m, r.second, cc + Captures(r.first), After(r.first, cc, p), d)
    ensures After(r, cc, p) == After(r.second, cc + Captures(r.first), After(r.first, cc, p))
  {
    hide Holds, Code, MaxDepth, NetDepth, Total, Parsed, MinDepth;
    ThenCode(r, cc);
    var f, g := Code(r.first, cc), Code(r.second, cc + Captures(r.first));
    HoldsParts(m.code, p, f, g);
    TotalAppend(f, g);
    DepthAppend(f, g);
    NoNet(r.first, cc);
  }

  lemma OrLoaded(m: Machine, r: Node, cc: nat, p: nat, d: nat)
    requires r.Or? && Loaded(m, r, cc, p, d)
    ensures var a := After(r.left, cc, p + 5);
            && Decode(m.code, p) == Some(Split(true, a + 5 - (p + 5)))
            && Loaded(m, r.left, cc, p + 5, d) && Loaded(m, r.right, cc + Captures(r.left), a + 5, d)
            && Decode(m.code, a) == Some(Goto(After(r.right, cc + Captures(r.left), a + 5) - (a + 5)))
            && After(r, cc, p) == After(r.right, cc + Captures(r.left), a + 5)
  {
    hide Holds, Decode, Code, MaxDepth, NetDepth, Total, Parsed, MinDepth;
    OrCode(r, cc);
    var f, g := Code(r.left, cc), Code(r.right, cc + Captures(r.left));
    var i, j := Split(true, Total(f) + 5), Goto(Total(g));
    HoldsParts(m.code, p, [i] + f + [j], g);
    WrapHolds(m.code, p, i, f, j);
    WrapDepth(i, f, j);
    NoNet(r.left, cc);
    NoNet(r.right, cc + Captures(r.left));
    OrDepth(f, g);
  }

  // ----- composition -----

  /** Code that follows each of several results. */
  lemma {:induction false} EachYields(m: Machine, r: Node, cc: nat, p: nat, c: Config, base: seq<State>, stk: seq<nat>, xs: seq<Res>)
    requires Loaded(m, r, cc, p, |stk|) && Starts(m, xs) && Yields(m, c, base, p, stk, xs)
    ensures Yields(m, c, base, After(r, cc, p), stk, EachResult(r, m.s, cc, xs))
    decreases r, 1, 0, 0, |xs|
  {
    hide Yields, Reaches, Results, Holds, Depth, WellFormed, Parsed;
    if xs == [] {
      YieldsNone(m, c, base, p, stk);
      YieldsNone(m, c, base, After(r, cc, p), stk);
    } else {
      var vs := FirstOf(m, c, base, p, stk, xs);
      TailWithin(xs, m.s, 0, 2 * m.captures);
      NodeYields(m, r, cc, p, xs[0], stk, base + vs);
      EachYields(m, r, cc, p, Fail(base + vs), base, stk, xs[1..]);
      YieldsBind(m, c, Run(p, xs[0], stk, base + vs), base, vs, After(r, cc, p), stk, Results(r, m.s, cc, xs[0]), EachResult(r, m.s, cc, xs[1..]));
    }
  }

  /** The end of a group is stored after each result of its body. */
  lemma {:induction false} CloseYields(m: Machine, cc: nat, p: nat, c: Config, base: seq<State>, stk: seq<nat>, ys: seq<Res>)
    requires cc < m.captures && Decode(m.code, p) == Some(SaveEnd(cc)) && Yields(m, c, base, p, stk, ys)
    ensures Yields(m, c, base, p + 2, stk, CloseGroup(ys, cc))
    decreases |ys|
  {
    hide Yields, Reaches, Decode, WellFormed, Parsed;
    if ys == [] {
      YieldsNone(m, c, base, p, stk);
      YieldsNone(m, c, base, p + 2, stk);
    } else {
      var vs := FirstOf(m, c, base, p, stk, ys);
      CloseYields(m, cc, p, Fail(base + vs), base, stk, ys[1..]);
      var y := Res(ys[0].pos, SetCap(ys[0].caps, 2 * cc + 1, ys[0].pos));
      var d := Run(p, ys[0], stk, base + vs);
      RunsTo(m, p, ys[0], stk, base + vs, Run(p + 2, y, stk, base + vs));
      YieldsOne(m, d, base + vs, p + 2, stk, y);
      YieldsBind(m, c, d, base, vs, p + 2, stk, [y], CloseGroup(ys[1..], cc));
    }
  }

  /** The main theorem: running the code of r from x yields the results of r at x. */
  lemma {:induction false} NodeYields(m: Machine, r: Node, cc: nat, p: nat, x: Res, stk: seq<nat>, base: seq<State>)
    requires Loaded(m, r, cc, p, |stk|) && Start(m, x)
    ensures Yields(m, Run(p, x, stk, base), base, After(r, cc, p), stk, Results(r, m.s, cc, x))
    decreases r, 0, 1, 0, 0
  {
    hide Yields, Results, Holds, Depth, Start, After, WellFormed, Parsed;
    match r
    case Capture(_) => CaptureYields(m, r, cc, p, x, stk, base);
    case Look(_, _) => LookYields(m, r, cc, p, x, stk, base);
    case Then(_, _) => ThenYields(m, r, cc, p, x, stk, base);
    case Or(_, _) => OrYields(m, r, cc, p, x, stk, base);
    case Repeat(_, _, _, _) => RepeatYields(m, r, cc, p, x, stk, base);
    case _ => LeafYields(m, r, cc, p, x, stk, base);
  }

  lemma {:induction false} CaptureYields(m: Machine, r: Node, cc: nat, p: nat, x: Res, stk: seq<nat>, base: seq<State>)
    requires r.Capture? && Loaded(m, r, cc, p, |stk|) && Start(m, x)
    ensures Yields(m, Run(p, x, stk, base), base, After(r, cc, p), stk, Results(r, m.s, cc, x))
    decreases r, 0, 0, 0, 0
  {
    hide Yields, Reaches, Holds, Depth, After, Decode, WellFormed, Parsed;
    CaptureLoaded(m, r, cc, p, |stk|);
    var x1 := Res(x.pos, SetCap(x.caps, 2 * cc, x.pos));
    var c := Run(p, x, stk, base);
    RunsTo(m, p, x, stk, base, Run(p + 2, x1, stk, base));
    NodeYields(m, r.body, cc + 1, p + 2, x1, stk, base);
    var q := After(r.body, cc + 1, p + 2);
    YieldsFrom(m, c, Run(p + 2, x1, stk, base), base, q, stk, Results(r.body, m.s, cc + 1, x1));
    CloseYields(m, cc, q, c, base, stk, Results(r.body, m.s, cc + 1, x1));
  }

  lemma {:induction false} ThenYields(m: Machine, r: Node, cc: nat, p: nat, x: Res, stk: seq<nat>, base: seq<State>)
    requires r.Then? && Loaded(m, r, cc, p, |stk|) && Start(m, x)
    ensures Yields(m, Run(p, x, stk, base), base, After(r, cc, p), stk, Results(r, m.s, cc, x))
    decreases r, 0, 0, 0, 0
  {
    hide Yields, Reaches, Results, EachResult, Holds, Depth, After, WellFormed, Parsed;
    ThenLoaded(m, r, cc, p, |stk|);
    ThenResults(r, m.s, cc, x);
    NodeYields(m, r.first, cc, p, x, stk, base);
    ResultsStart(m, r.first, cc, x);
    EachYields(m, r.second, cc + Captures(r.first), After(r.first, cc, p), Run(p, x, stk, base), base, stk, Results(r.first, m.s, cc, x));
  }

  lemma ResultsStart(m: Machine, r: Node, cc: nat, x: Res)
    requires Start(m, x)
    ensures Starts(m, Results(r, m.s, cc, x))
  {
    ResultsWithin(r, m.s, cc, x);
    WithinWeaken(Results(r, m.s, cc, x), m.s, x.pos, 0, |x.caps|);
  }

  /** A jump after every result of the left alternative. */
  lemma GotoVia(m: Machine, p: nat, q: nat, c: Config, base: seq<State>, stk: seq<nat>, ys: seq<Res>)
    requires Decode(m.code, p) == Some(Goto(q - (p + 5))) && Yields(m, c, base, p, stk, ys)
    ensures Yields(m, c, base, q, stk, ys)
  {
    hide Yields, Reaches, Decode, WellFormed, Parsed;
    forall y: Res, ss: seq<State> ensures Reaches(m, Run(p, y, stk, ss), Run(q, y, stk, ss)) {
      RunsTo(m, p, y, stk, ss, Run(q, y, stk, ss));
    }
    YieldsVia(m, c, base, p, stk, q, stk, ys);
  }

  lemma {:induction false} OrYields(m: Machine, r: Node, cc: nat, p: nat, x: Res, stk: seq<nat>, base: seq<State>)
    requires r.Or? && Loaded(m, r, cc, p, |stk|) && Start(m, x)
    ensures Yields(m, Run(p, x, stk, base), base, After(r, cc, p), stk, Results(r, m.s, cc, x))
    decreases r, 0, 0, 0, 0
  {
    hide Yields, Reaches, Results, Holds, Depth, After, Decode, WellFormed, Parsed;
    OrLoaded(m, r, cc, p, |stk|);
    OrResults(r, m.s, cc, x);
    var a := After(r.left, cc, p + 5);
    var q := After(r, cc, p);
    var ys, zs := Results(r.left, m.s, cc, x), Results(r.right, m.s, cc + Captures(r.left), x);
    var b := base + [Choice(a + 5, x, stk)];
    NodeYields(m, r.left, cc, p + 5, x, stk, b);
    GotoVia(m, a, q, Run(p + 5, x, stk, b), b, stk, ys);
    NodeYields(m, r.right, cc + Captures(r.left), a + 5, x, stk, base);
    SplitYields(m, p, true, a + 5 - (p + 5), x, stk, base, q, stk, ys, zs);
  }

  /** A lookahead runs its body once, keeps at most its first result, and discards what the body left to try. */
  lemma {:induction false} LookYields(m: Machine, r: Node, cc: nat, p: nat, x: Res, stk: seq<nat>, base: seq<State>)
    requires r.Look? && Loaded(m, r, cc, p, |stk|) && Start(m, x)
    ensures Yields(m, Run(p, x, stk, base), base, After(r, cc, p), stk, Results(r, m.s, cc, x))
    decreases r, 0, 0, 0, 0
  {
    hide Yields, Reaches, Holds, Depth, After, Decode, WellFormed, Parsed;
    LookLoaded(m, r, cc, p, |stk|);
    var b, e, q := r.body, After(r.body, cc, p + 5), After(r, cc, p);
    var st := Around(r.negated, q, x, stk);
    var c := Run(p, x, stk, base);
    RunsTo(m, p, x, stk, base, Run(p + 5, x, stk, base + [st]));
    NodeYields(m, b, cc, p + 5, x, stk, base + [st]);
    var ys := Results(b, m.s, cc, x);
    YieldsFrom(m, c, Run(p + 5, x, stk, base + [st]), base + [st], e, stk, ys);
    PopTop(base, st);
    if ys == [] {
      YieldsNone(m, c, base + [st], e, stk);
      LookFailed(m, c, base, q, stk, x, r.negated);
    } else {
      var vs := FirstOf(m, c, base + [st], e, stk, ys);
      RunsTo(m, e, ys[0], stk, (base + [st]) + vs, Succeed(ys[0], (base + [st]) + vs));
      ReachesTrans(m, c, Run(e, ys[0], stk, (base + [st]) + vs), Succeed(ys[0], (base + [st]) + vs));
      SuccessDrops(m, ys[0], base + [st], vs);
      ReachesTrans(m, c, Succeed(ys[0], (base + [st]) + vs), Succeed(ys[0], base + [st]));
      LookSucceeded(m, c, base, q, stk, x, r.negated, ys[0]);
    }
  }

  lemma LookFailed(m: Machine, c: Config, base: seq<State>, q: nat, stk: seq<nat>, x: Res, negated: bool)
    requires Reaches(m, c, Fail(base + [Around(negated, q, x, stk)]))
    ensures Yields(m, c, base, q, stk, if negated then [x] else [])
  {
    hide Yields, Reaches, WellFormed, Parsed;
    var st := Around(negated, q, x, stk);
    PopTop(base, st);
    ReachesStep(m, Fail(base + [st]));
    ReachesTrans(m, c, Fail(base + [st]), StepFail(m, base + [st]));
    if negated { YieldsOne(m, c, base, q, stk, x); } else { YieldsNone(m, c, base, q, stk); }
  }

  lemma LookSucceeded(m: Machine, c: Config, base: seq<State>, q: nat, stk: seq<nat>, x: Res, negated: bool, y: Res)
    requires Reaches(m, c, Succeed(y, base + [Around(negated, q, x, stk)]))
    ensures Yields(m, c, base, q, stk, if negated then [] else [Res(x.pos, y.caps)])
  {
    hide Yields, Reaches, WellFormed, Parsed;
    var st := Around(negated, q, x, stk);
    PopTop(base, st);
    ReachesStep(m, Succeed(y, base + [st]));
    ReachesTrans(m, c, Succeed(y, base + [st]), StepSucceed(y, base + [st]));
    if negated { YieldsNone(m, c, base, q, stk); } else { YieldsOne(m, c, base, q, stk, Res(x.pos, y.caps)); }
  }

  // ----- unbounded loops -----

  /** The layout of an unbounded loop at p around the body b; d is the stack depth outside the loop. */
  ghost predicate StarAt(m: Machine, b: Node, cc: nat, greedy: bool, check: bool, p: nat, d: nat) {
    var z: int := Bit(check);
    && WellFormed(b) && Loaded(m, b, cc, p + 5 + z, d + z) && (check ==> d < m.room) && (!check ==> Progresses(b, cc))
    && (var n: int := Total(Code(b, cc));
        && Decode(m.code, p) == Some(Split(greedy, n + 5 + z)) && (check ==> Decode(m.code, p + 5) == Some(PushCharPos))
        && Decode(m.code, p + 5 + z + n) == Some(if check then BneCharPos(-(5 + z + n + 5)) else Goto(-(5 + z + n + 5))))
  }

  function StarEnd(b: Node, cc: nat, check: bool, p: nat): nat
    requires WellFormed(b)
  {
    p + 5 + Bit(check) + Total(Code(b, cc)) + 5
  }

  /** One iteration from the entry of the body up to the jump back. */
  lemma {:induction false} StarBody(m: Machine, b: Node, cc: nat, greedy: bool, check: bool, p: nat, x: Res, stk: seq<nat>, base: seq<State>)
    requires StarAt(m, b, cc, greedy, check, p, |stk|) && Start(m, x)
    ensures Yields(m, Run(p + 5, x, stk, base), base, StarEnd(b, cc, check, p), stk, StarAfter(b, m.s, cc, greedy, Results(b, m.s, cc, x), x.pos))
    decreases b, 2, Left(m.s, x.pos), 1, 0
  {
    hide Yields, Reaches, Decode, Results, StarAfter, Holds, Depth, Code, Total, WellFormed, Parsed;
    var z := Bit(check);
    var n := Total(Code(b, cc));
    var stk1 := if check then stk + [x.pos] else stk;
    var c := Run(p + 5, x, stk, base);
    if check {
      RunsTo(m, p + 5, x, stk, base, Run(p + 6, x, stk1, base));
    } else {
      ReachesSelf(m, c);
    }
    NodeYields(m, b, cc, p + 5 + z, x, stk1, base);
    var ys := Results(b, m.s, cc, x);
    YieldsFrom(m, c, Run(p + 5 + z, x, stk1, base), base, p + 5 + z + n, stk1, ys);
    ResultsWithin(b, m.s, cc, x);
    if !check { ProgressWithin(b, m.s, cc, x); }
    StarNext(m, b, cc, greedy, check, p, c, x, stk, base, ys);
  }

  /** The jump at the end of the body: out of the loop when the check finds nothing consumed, else back to p. */
  lemma JumpBack(m: Machine, b: Node, cc: nat, greedy: bool, check: bool, p: nat, i: nat, y: Res, stk: seq<nat>, ss: seq<State>)
    requires StarAt(m, b, cc, greedy, check, p, |stk|) && (if check then i <= y.pos else i < y.pos)
    ensures var c := Run(p + 5 + Bit(check) + Total(Code(b, cc)), y, if check then stk + [i] else stk, ss);
            Reaches(m, c, if y.pos <= i then Run(StarEnd(b, cc, check, p), y, stk, ss) else Run(p, y, stk, ss))
  {
    hide Reaches, Decode, Holds, Depth, Code, Total, WellFormed, Parsed;
    var e := p + 5 + Bit(check) + Total(Code(b, cc));
    var s1 := if check then stk + [i] else stk;
    assert check ==> s1[..|s1| - 1] == stk;
    RunsTo(m, e, y, s1, ss, if y.pos <= i then Run(StarEnd(b, cc, check, p), y, stk, ss) else Run(p, y, stk, ss));
  }

  /** After each result of the body: round again, or out of the loop when nothing was consumed. */
  lemma {:induction false} StarNext(m: Machine, b: Node, cc: nat, greedy: bool, check: bool, p: nat, c: Config, x: Res, stk: seq<nat>,
                                   base: seq<State>, ys: seq<Res>)
    requires StarAt(m, b, cc, greedy, check, p, |stk|) && Start(m, x)
    requires Within(ys, m.s, if check then x.pos else x.pos + 1, 2 * m.captures)
    requires Yields(m, c, base, p + 5 + Bit(check) + Total(Code(b, cc)), if check then stk + [x.pos] else stk, ys)
    ensures Yields(m, c, base, StarEnd(b, cc, check, p), stk, StarAfter(b, m.s, cc, greedy, ys, x.pos))
    decreases b, 2, Left(m.s, x.pos), 0, |ys|
  {
    hide Yields, Reaches, Decode, Star, Holds, Depth, Code, Total, WellFormed, Parsed;
    var e, q := p + 5 + Bit(check) + Total(Code(b, cc)), StarEnd(b, cc, check, p);
    var stk1 := if check then stk + [x.pos] else stk;
    if ys == [] {
      YieldsNone(m, c, base, e, stk1);
      YieldsNone(m, c, base, q, stk);
    } else {
      var y := ys[0];
      var vs := FirstOf(m, c, base, e, stk1, ys);
      TailWithin(ys, m.s, if check then x.pos else x.pos + 1, 2 * m.captures);
      StarNext(m, b, cc, greedy, check, p, Fail(base + vs), x, stk, base, ys[1..]);
      var d := Run(e, y, stk1, base + vs);
      JumpBack(m, b, cc, greedy, check, p, x.pos, y, stk, base + vs);
      var rest := StarAfter(b, m.s, cc, greedy, ys[1..], x.pos);
      if y.pos <= x.pos {
        YieldsOne(m, d, base + vs, q, stk, y);
        YieldsBind(m, c, d, base, vs, q, stk, [y], rest);
      } else {
        StarYields(m, b, cc, greedy, check, p, y, stk, base + vs);
        YieldsFrom(m, d, Run(p, y, stk, base + vs), base + vs, q, stk, Star(b, m.s, cc, greedy, y));
        YieldsBind(m, c, d, base, vs, q, stk, Star(b, m.s, cc, greedy, y), rest);
      }
    }
  }

  lemma {:induction false} StarYields(m: Machine, b: Node, cc: nat, greedy: bool, check: bool, p: nat, x: Res, stk: seq<nat>, base: seq<State>)
    requires StarAt(m, b, cc, greedy, check, p, |stk|) && Start(m, x)
    ensures Yields(m, Run(p, x, stk, base), base, StarEnd(b, cc, check, p), stk, Star(b, m.s, cc, greedy, x))
    decreases b, 2, Left(m.s, x.pos), 2, 0
  {
    hide Yields, Reaches, Decode, Results, StarAfter, Holds, Depth, Code, Total, WellFormed, Parsed;
    var q := StarEnd(b, cc, check, p);
    var more := StarAfter(b, m.s, cc, greedy, Results(b, m.s, cc, x), x.pos);
    var here := base + [Choice(if greedy then q else p + 5, x, stk)];
    if greedy {
      StarBody(m, b, cc, greedy, check, p, x, stk, here);
      YieldsHere(m, q, stk, x, base);
      SplitYields(m, p, true, q - (p + 5), x, stk, base, q, stk, more, [x]);
    } else {
      StarBody(m, b, cc, greedy, check, p, x, stk, base);
      YieldsHere(m, q, stk, x, here);
      SplitYields(m, p, false, q - (p + 5), x, stk, base, q, stk, [x], more);
    }
  }

  lemma YieldsHere(m: Machine, q: nat, stk: seq<nat>, x: Res, base: seq<State>)
    ensures Yields(m, Run(q, x, stk, base), base, q, stk, [x])
  {
    hide Yields, Reaches, WellFormed, Parsed;
    ReachesSelf(m, Run(q, x, stk, base));
    YieldsOne(m, Run(q, x, stk, base), base, q, stk, x);
  }

  /** The layout of a one-or-more loop without check: the body, then a split back to it. */
  ghost predicate PlusAt(m: Machine, b: Node, cc: nat, greedy: bool, p: nat, d: nat) {
    && Loaded(m, b, cc, p, d) && Progresses(b, cc)
    && Decode(m.code, After(b, cc, p)) == Some(Split(!greedy, p - (After(b, cc, p) + 5)))
  }

  /** At the split after an iteration that ended in y, the results are those of the loop from y. */
  lemma {:induction false} PlusSplit(m: Machine, b: Node, cc: nat, greedy: bool, p: nat, y: Res, stk: seq<nat>, base: seq<State>)
    requires PlusAt(m, b, cc, greedy, p, |stk|) && Start(m, y)
    ensures Yields(m, Run(After(b, cc, p), y, stk, base), base, After(b, cc, p) + 5, stk, Star(b, m.s, cc, greedy, y))
    decreases b, 2, Left(m.s, y.pos), 2, 0
  {
    hide Yields, Reaches, Decode, Results, StarAfter, Holds, Depth, After, WellFormed, Parsed;
    var e := After(b, cc, p);
    var q := e + 5;
    var ys := Results(b, m.s, cc, y);
    var here := if greedy then base + [Choice(q, y, stk)] else base;
    NodeYields(m, b, cc, p, y, stk, here);
    ProgressWithin(b, m.s, cc, y);
    PlusNext(m, b, cc, greedy, p, Run(p, y, stk, here), y.pos, stk, here, ys);
    var more := StarAfter(b, m.s, cc, greedy, ys, y.pos);
    if greedy {
      YieldsHere(m, q, stk, y, base);
      SplitYields(m, e, false, p - (e + 5), y, stk, base, q, stk, more, [y]);
    } else {
      YieldsHere(m, q, stk, y, base + [Choice(p, y, stk)]);
      SplitYields(m, e, true, p - (e + 5), y, stk, base, q, stk, [y], more);
    }
  }

  lemma {:induction false} PlusNext(m: Machine, b: Node, cc: nat, greedy: bool, p: nat, c: Config, i: nat, stk: seq<nat>,
                                   base: seq<State>, ys: seq<Res>)
    requires PlusAt(m, b, cc, greedy, p, |stk|) && i <= |m.s.units| && Within(ys, m.s, i + 1, 2 * m.captures)
    requires Yields(m, c, base, After(b, cc, p), stk, ys)
    ensures Yields(m, c, base, After(b, cc, p) + 5, stk, StarAfter(b, m.s, cc, greedy, ys, i))
    decreases b, 2, Left(m.s, i), 0, |ys|
  {
    hide Yields, Reaches, Decode, Star, Holds, Depth, After, WellFormed, Parsed;
    var e := After(b, cc, p);
    var q := e + 5;
    if ys == [] {
      YieldsNone(m, c, base, e, stk);
      YieldsNone(m, c, base, q, stk);
    } else {
      var y := ys[0];
      var vs := FirstOf(m, c, base, e, stk, ys);
      TailWithin(ys, m.s, i + 1, 2 * m.captures);
      PlusNext(m, b, cc, greedy, p, Fail(base + vs), i, stk, base, ys[1..]);
      PlusSplit(m, b, cc, greedy, p, y, stk, base + vs);
      YieldsBind(m, c, Run(e, y, stk, base + vs), base, vs, q, stk, Star(b, m.s, cc, greedy, y), StarAfter(b, m.s, cc, greedy, ys[1..], i));
    }
  }

  lemma {:induction false} EachPlus(m: Machine, b: Node, cc: nat, greedy: bool, p: nat, c: Config, stk: seq<nat>, base: seq<State>, ys: seq<Res>)
    requires PlusAt(m, b, cc, greedy, p, |stk|) && Starts(m, ys) && Yields(m, c, base, After(b, cc, p), stk, ys)
    ensures Yields(m, c, base, After(b, cc, p) + 5, stk, EachStar(b, m.s, cc, greedy, ys))
    decreases b, 3, 0, 0, |ys|
  {
    hide Yields, Reaches, Decode, Star, Holds, Depth, After, WellFormed, Parsed;
    var e := After(b, cc, p);
    if ys == [] {
      YieldsNone(m, c, base, e, stk);
      YieldsNone(m, c, base, e + 5, stk);
    } else {
      var vs := FirstOf(m, c, base, e, stk, ys);
      TailWithin(ys, m.s, 0, 2 * m.captures);
      EachPlus(m, b, cc, greedy, p, Fail(base + vs), stk, base, ys[1..]);
      PlusSplit(m, b, cc, greedy, p, ys[0], stk, base + vs);
      YieldsBind(m, c, Run(e, ys[0], stk, base + vs), base, vs, e + 5, stk, Star(b, m.s, cc, greedy, ys[0]), EachStar(b, m.s, cc, greedy, ys[1..]));
    }
  }

  // ----- counted loops -----

  /** The split of a counted option at p, with the counter already on the stack above depth d. */
  ghost predicate OptionAt(m: Machine, b: Node, cc: nat, greedy: bool, p: nat, d: nat) {
    && Loaded(m, b, cc, p + 5, d + 1)
    && (var e := After(b, cc, p + 5);
        && Decode(m.code, p) == Some(Split(greedy, e + 5 - (p + 5))) && Decode(m.code, e) == Some(Loop(p - (e + 5)))
        && Decode(m.code, e + 5) == Some(Drop))
  }

  lemma DropRuns(m: Machine, pc: nat, x: Res, stk: seq<nat>, k: nat, ss: seq<State>)
    requires Decode(m.code, pc) == Some(Drop)
    ensures Reaches(m, Run(pc, x, stk + [k], ss), Run(pc + 1, x, stk, ss))
  {
    hide Decode, WellFormed, Parsed;
    assert (stk + [k])[..|stk + [k]| - 1] == stk;
    RunsTo(m, pc, x, stk + [k], ss, Run(pc + 1, x, stk, ss));
  }

  /** The loop instruction: back to p while the counter is not used up, else on to the drop. */
  lemma LoopRuns(m: Machine, pc: nat, p: nat, x: Res, stk: seq<nat>, k: nat, ss: seq<State>)
    requires Decode(m.code, pc) == Some(Loop(p - (pc + 5))) && k >= 1
    ensures k > 1 ==> Reaches(m, Run(pc, x, stk + [k], ss), Run(p, x, stk + [k - 1], ss))
    ensures k == 1 ==> Reaches(m, Run(pc, x, stk + [k], ss), Run(pc + 5, x, stk + [0], ss))
  {
    hide Decode, WellFormed, Parsed;
    var s1 := stk + [k];
    assert s1[|s1| - 1 := k - 1] == stk + [k - 1];
    if k > 1 {
      RunsTo(m, pc, x, s1, ss, Run(p, x, stk + [k - 1], ss));
    } else {
      RunsTo(m, pc, x, s1, ss, Run(pc + 5, x, stk + [0], ss));
    }
  }

  lemma {:induction false} OptionYields(m: Machine, b: Node, cc: nat, greedy: bool, p: nat, k: nat, x: Res, stk: seq<nat>, base: seq<State>)
    requires OptionAt(m, b, cc, greedy, p, |stk|) && Start(m, x) && k >= 1
    ensures Yields(m, Run(p, x, stk + [k], base), base, After(b, cc, p + 5) + 6, stk, UpTo(b, m.s, cc, k, greedy, x))
    decreases b, 2, k, 2, 0
  {
    hide Yields, Reaches, Decode, Results, EachUpTo, Holds, Depth, After, WellFormed, Parsed;
    var e := After(b, cc, p + 5);
    var q := e + 6;
    var s1 := stk + [k];
    var ys := Results(b, m.s, cc, x);
    var here := if greedy then base + [Choice(e + 5, x, s1)] else base;
    NodeYields(m, b, cc, p + 5, x, s1, here);
    ResultsStart(m, b, cc, x);
    OptionNext(m, b, cc, greedy, p, k, Run(p + 5, x, s1, here), stk, here, ys);
    var more := EachUpTo(b, m.s, cc, k - 1, greedy, ys);
    var out := if greedy then base else base + [Choice(p + 5, x, s1)];
    DropRuns(m, e + 5, x, stk, k, out);
    YieldsOne(m, Run(e + 5, x, s1, out), out, q, stk, x);
    if greedy {
      SplitYields(m, p, true, e + 5 - (p + 5), x, s1, base, q, stk, more, [x]);
    } else {
      SplitYields(m, p, false, e + 5 - (p + 5), x, s1, base, q, stk, [x], more);
    }
  }

  lemma {:induction false} OptionNext(m: Machine, b: Node, cc: nat, greedy: bool, p: nat, k: nat, c: Config, stk: seq<nat>,
                                     base: seq<State>, ys: seq<Res>)
    requires OptionAt(m, b, cc, greedy, p, |stk|) && k >= 1 && Starts(m, ys)
    requires Yields(m, c, base, After(b, cc, p + 5), stk + [k], ys)
    ensures Yields(m, c, base, After(b, cc, p + 5) + 6, stk, EachUpTo(b, m.s, cc, k - 1, greedy, ys))
    decreases b, 2, k, 1, |ys|
  {
    hide Yields, Reaches, Decode, UpTo, Holds, Depth, After, WellFormed, Parsed;
    var e := After(b, cc, p + 5);
    var q := e + 6;
    if ys == [] {
      YieldsNone(m, c, base, e, stk + [k]);
      YieldsNone(m, c, base, q, stk);
    } else {
      var y := ys[0];
      var vs := FirstOf(m, c, base, e, stk + [k], ys);
      TailWithin(ys, m.s, 0, 2 * m.captures);
      OptionNext(m, b, cc, greedy, p, k, Fail(base + vs), stk, base, ys[1..]);
      var d := Run(e, y, stk + [k], base + vs);
      LoopRuns(m, e, p, y, stk, k, base + vs);
      if k > 1 {
        OptionYields(m, b, cc, greedy, p, k - 1, y, stk, base + vs);
        YieldsFrom(m, d, Run(p, y, stk + [k - 1], base + vs), base + vs, q, stk, UpTo(b, m.s, cc, k - 1, greedy, y));
      } else {
        DropRuns(m, e + 5, y, stk, 0, base + vs);
        ReachesTrans(m, d, Run(e + 5, y, stk + [0], base + vs), Run(q, y, stk, base + vs));
        YieldsOne(m, d, base + vs, q, stk, y);
        UpToZero(b, m.s, cc, greedy, y);
      }
      YieldsBind(m, c, d, base, vs, q, stk, UpTo(b, m.s, cc, k - 1, greedy, y), EachUpTo(b, m.s, cc, k - 1, greedy, ys[1..]));
    }
  }

  lemma UpToZero(b: Node, s: Subject, cc: nat, greedy: bool, x: Res)
    ensures UpTo(b, s, cc, 0, greedy, x) == [x]
  {}

  /** The body of a counted loop at p, with the counter on the stack above depth d. */
  ghost predicate CountedAt(m: Machine, b: Node, cc: nat, p: nat, d: nat) {
    && Loaded(m, b, cc, p, d + 1)
    && Decode(m.code, After(b, cc, p)) == Some(Loop(p - (After(b, cc, p) + 5))) && Decode(m.code, After(b, cc, p) + 5) == Some(Drop)
  }

  lemma {:induction false} CountedYields(m: Machine, b: Node, cc: nat, p: nat, k: nat, c: Config, stk: seq<nat>, base: seq<State>, xs: seq<Res>)
    requires CountedAt(m, b, cc, p, |stk|) && k >= 1 && Starts(m, xs) && Yields(m, c, base, p, stk + [k], xs)
    ensures Yields(m, c, base, After(b, cc, p) + 6, stk, Copies(b, m.s, cc, k, xs))
    decreases b, 2, k, 0, 0
  {
    hide Yields, Reaches, Decode, EachResult, Copies, Holds, Depth, After, WellFormed, Parsed;
    var e := After(b, cc, p);
    var ys := EachResult(b, m.s, cc, xs);
    EachYields(m, b, cc, p, c, base, stk + [k], xs);
    EachWithin(b, m.s, cc, xs, 0, 2 * m.captures);
    CopiesFirst(b, m.s, cc, k, xs);
    if k > 1 {
      forall y: Res, ss: seq<State> ensures Reaches(m, Run(e, y, stk + [k], ss), Run(p, y, stk + [k - 1], ss)) {
        LoopRuns(m, e, p, y, stk, k, ss);
      }
      YieldsVia(m, c, base, e, stk + [k], p, stk + [k - 1], ys);
      CountedYields(m, b, cc, p, k - 1, c, stk, base, ys);
    } else {
      forall y: Res, ss: seq<State> ensures Reaches(m, Run(e, y, stk + [k], ss), Run(e + 6, y, stk, ss)) {
        LoopRuns(m, e, p, y, stk, k, ss);
        DropRuns(m, e + 5, y, stk, 0, ss);
        ReachesTrans(m, Run(e, y, stk + [k], ss), Run(e + 5, y, stk + [0], ss), Run(e + 6, y, stk, ss));
      }
      YieldsVia(m, c, base, e, stk + [k], e + 6, stk, ys);
      CopiesZero(b, m.s, cc, ys);
    }
  }

  // ----- the simple quantifier -----

  predicate AllSorted(f: seq<Instr>) { forall i :: i in f ==> !RangeBad(i) }

  /** Straight-line code has well-formed range tables. */
  lemma {:induction false} SimpleSorted(r: Node, cc: nat)
    requires WellFormed(r) && SimpleCount(Code(r, cc)) >= 0
    ensures AllSorted(Code(r, cc))
    decreases r
  {
    hide Code, SimpleCount, RepeatCode, Parsed;
    NotStraight(r, cc);
    if IsCharNode(r) || IsAssertNode(r) {
      LeafCode(r, cc);
    } else if r.Then? {
      ThenCode(r, cc);
      SimpleAppend(Code(r.first, cc), Code(r.second, cc + Captures(r.first)));
      SimpleSorted(r.first, cc);
      SimpleSorted(r.second, cc + Captures(r.first));
    } else if r.Repeat? {
      RepeatIs(r, cc);
      StraightRepeat(Code(r.body, cc), cc, Captures(r.body), r.min, r.max, r.greedy);
      if r.min == 1 { SimpleSorted(r.body, cc); }
    } else if r.Empty? {
      EmptyCode(cc);
    }
  }

  lemma EmptyCode(cc: nat)
    ensures Code(Empty, cc) == []
  {}

  /** The inner run over the body of a simple quantifier is the straight-line run. */
  lemma {:induction false} AtomRuns(m: Machine, pc: nat, f: seq<Instr>, p: nat)
    requires p <= |m.s.units| && Holds(m.code, pc, f + [Match]) && SimpleCount(f) >= 0 && AllSorted(f)
    ensures Atom(m, pc, p) == Straight(f, m.s, p)
    decreases |f|
  {
    hide Decode, Takes, InstrHolds, WellFormed, Parsed;
    if f == [] {
      assert f + [Match] == [Match];
      HoldsOne(m.code, pc, Match);
    } else {
      var i := f[0];
      assert (f + [Match])[0] == i && (f + [Match])[1..] == f[1..] + [Match];
      assert i in f && forall j :: j in f[1..] ==> j in f;
      if IsChar(i) {
        if p < |m.s.units| { AtomRuns(m, pc + Size(i), f[1..], NextPos(m.s.units, m.s.mode, p)); }
      } else {
        AtomRuns(m, pc + Size(i), f[1..], p);
      }
    }
  }

  lemma {:induction false} IterationsRun(m: Machine, pc: nat, f: seq<Instr>, max: nat, q: nat, p: nat)
    requires p <= |m.s.units| && Holds(m.code, pc, f + [Match]) && SimpleCount(f) > 0 && AllSorted(f)
    ensures Iterations(m, pc, max, q, p) == Some(GreedyRun(f, m.s, max, q, p))
    decreases |m.s.units| - p
  {
    hide Holds, Atom, Straight, WellFormed, Parsed;
    AtomRuns(m, pc, f, p);
    var e := Straight(f, m.s, p);
    if e >= 0 {
      StraightSkips(f, m.s, p);
      SkipMoves(m.s, p, SimpleCount(f));
      if !(q + 1 >= max && max != INT32_MAX) { IterationsRun(m, pc, f, max, q + 1, e); }
    }
  }

  /** A saved simple quantifier gives its earlier ends back, one per failure. */
  lemma {:induction false} QuantYields(m: Machine, p: nat, i: Instr, k: nat, y: Res, stk: seq<nat>, base: seq<State>, q: nat)
    requires Decode(m.code, p) == Some(i) && i.SimpleGreedy? && q == p + 17 + i.next && k >= 1 && y.pos <= |m.s.units|
    requires |BackResults(m.s, i.len, y, k)| == k + 1
    ensures Yields(m, Fail(base + [Quant(p, y, stk, k)]), base, q, stk, BackResults(m.s, i.len, y, k)[1..])
    decreases k
  {
    hide Yields, Reaches, Decode, WellFormed, Parsed;
    var c := Fail(base + [Quant(p, y, stk, k)]);
    var e := Back(m.s.units, m.s.mode, y.pos, i.len);
    var z := Res(e, y.caps);
    var ys := BackResults(m.s, i.len, z, k - 1);
    assert BackResults(m.s, i.len, y, k) == [y] + ys;
    PopTop(base, Quant(p, y, stk, k));
    ReachesStep(m, c);
    if k == 1 {
      YieldsOne(m, c, base, q, stk, z);
    } else {
      QuantYields(m, p, i, k - 1, z, stk, base, q);
      ByFirst(m, c, base, [Quant(p, z, stk, k - 1)], q, stk, ys);
    }
  }

  lemma SimpleLoaded(m: Machine, r: Node, cc: nat, p: nat, d: nat)
    requires r.Repeat? && Loaded(m, r, cc, p, d) && UseSimple(Code(r.body, cc), r.max, r.greedy)
    ensures var f := Code(r.body, cc);
            && Decode(m.code, p) == Some(SimpleGreedy(Total(f) + 1, r.min, r.max, SimpleCount(f)))
            && Holds(m.code, p + 17, f + [Match]) && After(r, cc, p) == p + 17 + Total(f) + 1
  {
    hide Holds, Decode, Code, MaxDepth, NetDepth, Total, SimpleCount, Parsed, MinDepth;
    RepeatIs(r, cc);
    var f := Code(r.body, cc);
    var i := SimpleGreedy(Total(f) + 1, r.min, r.max, SimpleCount(f));
    SimpleShape(f, cc, Captures(r.body), r.min, r.max, r.greedy);
    assert [i] + f + [Match] == [i] + (f + [Match]);
    HoldsParts(m.code, p, [i], f + [Match]);
    HoldsOne(m.code, p, i);
    WrapDepth(i, f, Match);
  }

  lemma SimpleShape(f: seq<Instr>, cc: nat, caps: nat, min: nat, max: nat, greedy: bool)
    requires min <= max && UseSimple(f, max, greedy)
    ensures RepeatCode(f, cc, caps, min, max, greedy) == [SimpleGreedy(Total(f) + 1, min, max, SimpleCount(f))] + f + [Match]
  {}

  lemma SimpleYields(m: Machine, r: Node, cc: nat, p: nat, x: Res, stk: seq<nat>, base: seq<State>)
    requires r.Repeat? && Loaded(m, r, cc, p, |stk|) && UseSimple(Code(r.body, cc), r.max, r.greedy) && Start(m, x)
    ensures Yields(m, Run(p, x, stk, base), base, After(r, cc, p), stk, Results(r, m.s, cc, x))
  {
    hide Yields, Reaches, Results, Decode, Code, Holds, Depth, Iterations, GreedyRun, BackResults, SimpleCount, Total, After, Parsed;
    var f, q := Code(r.body, cc), After(r, cc, p);
    var len := SimpleCount(f);
    SimpleLoaded(m, r, cc, p, |stk|);
    SimpleSorted(r.body, cc);
    IterationsRun(m, p + 17, f, r.max, 0, x.pos);
    SimpleRefines(r, m.s, cc, x);
    var g := GreedyRun(f, m.s, r.max, 0, x.pos);
    var y := Res(g.1, x.caps);
    var c := Run(p, x, stk, base);
    if g.0 < r.min {
      RunsTo(m, p, x, stk, base, Fail(base));
      YieldsNone(m, c, base, q, stk);
    } else if g.0 == r.min {
      RunsTo(m, p, x, stk, base, Run(q, y, stk, base));
      BackNone(m.s, len, y);
      YieldsOne(m, c, base, q, stk, y);
    } else {
      var k := g.0 - r.min;
      var ys := BackResults(m.s, len, y, k);
      RunsTo(m, p, x, stk, base, Run(q, y, stk, base + [Quant(p, y, stk, k)]));
      BackLength(m, r, cc, x);
      QuantYields(m, p, SimpleGreedy(Total(f) + 1, r.min, r.max, len), k, y, stk, base, q);
      BackHead(m.s, len, y, k);
      ByFirst(m, c, base, [Quant(p, y, stk, k)], q, stk, ys);
    }
  }

  lemma BackHead(s: Subject, len: nat, x: Res, k: nat)
    requires x.pos <= |s.units|
    ensures BackResults(s, len, x, k)[0] == x
  {}

  lemma BackLength(m: Machine, r: Node, cc: nat, x: Res)
    requires r.Repeat? && WellFormed(r) && SubjectOk(m.s) && UseSimple(Code(r.body, cc), r.max, r.greedy) && Start(m, x)
    ensures var f := Code(r.body, cc);
            var g := GreedyRun(f, m.s, r.max, 0, x.pos);
            g.0 > r.min ==> |BackResults(m.s, SimpleCount(f), Res(g.1, x.caps), g.0 - r.min)| == g.0 - r.min + 1
  {
    hide Results, Copies, GreedyRun, BackResults, Code, SimpleCount, Parsed;
    var b := r.body;
    var f := Code(b, cc);
    var g := GreedyRun(f, m.s, r.max, 0, x.pos);
    if g.0 > r.min {
      GreedyCap(f, m.s, r.max, 0, x.pos);
      CopiesRun(b, m.s, cc, r.max, 0, r.min, x);
      CopiesCount(b, m.s, cc, r.min, x, r.max);
      TailBack(b, m.s, cc, r.max, r.min, Copies(b, m.s, cc, r.min, [x])[0]);
    }
  }

  lemma {:induction false} GreedyCap(f: seq<Instr>, s: Subject, max: nat, q: nat, p: nat)
    requires p <= |s.units| && q < max
    ensures max == INT32_MAX || GreedyRun(f, s, max, q, p).0 <= max
    decreases |s.units| - p
  {
    hide Straight, WellFormed, Parsed;
    var e := Straight(f, s, p);
    if e > p && !(q + 1 >= max && max != INT32_MAX) && q + 1 < max { GreedyCap(f, s, max, q + 1, e); }
  }

  // ----- the parts of a repetition -----

  lemma StarParts(b: seq<byte>, p: nat, f: seq<Instr>, greedy: bool, check: bool)
    requires Holds(b, p, StarLoop(f, greedy, check))
    ensures var n: int, z: int := Total(f), Bit(check);
            && Decode(b, p) == Some(Split(greedy, n + 5 + z)) && (check ==> Decode(b, p + 5) == Some(PushCharPos))
            && Holds(b, p + 5 + z, f)
            && Decode(b, p + 5 + z + n) == Some(if check then BneCharPos(-(5 + z + n + 5)) else Goto(-(5 + z + n + 5)))
  {
    hide Holds, Decode, Total;
    var n: int, z: int := Total(f), Bit(check);
    var i := Split(greedy, n + 5 + z);
    var g := if check then [PushCharPos] else [];
    var j := if check then BneCharPos(-(5 + z + n + 5)) else Goto(-(5 + z + n + 5));
    HoldsParts(b, p, [i] + g + f, [j]);
    HoldsParts(b, p, [i] + g, f);
    HoldsParts(b, p, [i], g);
    TotalAppend([i] + g, f);
    TotalAppend([i], g);
    HoldsOne(b, p, i);
    HoldsOne(b, p + Total([i] + g + f), j);
    NoTotal();
    if check { HoldsOne(b, p + 5, PushCharPos); }
  }

  lemma NoTotal()
    ensures Total([]) == 0
  {}

  lemma StarLoaded(m: Machine, b: Node, cc: nat, greedy: bool, check: bool, p: nat, d: nat)
    requires SubjectOk(m.s) && WellFormed(b) && cc + Captures(b) <= m.captures && (!check ==> Progresses(b, cc))
    requires Holds(m.code, p, StarLoop(Code(b, cc), greedy, check)) && d + MaxDepth(StarLoop(Code(b, cc), greedy, check)) <= m.room
    ensures StarAt(m, b, cc, greedy, check, p, d) && StarEnd(b, cc, check, p) == p + Total(StarLoop(Code(b, cc), greedy, check))
  {
    hide Holds, Decode, Code, MaxDepth, NetDepth, Total, AdvanceScan, WellFormed, Parsed, MinDepth, StarLoop;
    NoNet(b, cc);
    StarDepth(Code(b, cc), greedy, check);
    StarParts(m.code, p, Code(b, cc), greedy, check);
  }

  lemma OptionParts(b: seq<byte>, p: nat, f: seq<Instr>, max: nat, greedy: bool)
    requires Holds(b, p, CountedOption(f, max, greedy))
    ensures var n: int := Total(f);
            && Decode(b, p) == Some(PushI32(max)) && Decode(b, p + 5) == Some(Split(greedy, n + 5)) && Holds(b, p + 10, f)
            && Decode(b, p + 10 + n) == Some(Loop(-(5 + n + 5))) && Decode(b, p + 15 + n) == Some(Drop)
  {
    hide Holds, Decode, Total;
    var n: int := Total(f);
    var i, j, k := PushI32(max), Split(greedy, n + 5), Loop(-(5 + n + 5));
    HoldsParts(b, p, [i, j] + f, [k, Drop]);
    HoldsParts(b, p, [i, j], f);
    TotalAppend([i, j], f);
    HoldsTwo(b, p, i, j);
    HoldsTwo(b, p + Total([i, j] + f), k, Drop);
  }

  lemma OptionLoaded(m: Machine, b: Node, cc: nat, greedy: bool, max: nat, p: nat, d: nat)
    requires SubjectOk(m.s) && WellFormed(b) && cc + Captures(b) <= m.captures
    requires Holds(m.code, p, CountedOption(Code(b, cc), max, greedy)) && d + MaxDepth(CountedOption(Code(b, cc), max, greedy)) <= m.room
    ensures Decode(m.code, p) == Some(PushI32(max)) && d < m.room && OptionAt(m, b, cc, greedy, p + 5, d)
    ensures After(b, cc, p + 10) + 6 == p + Total(CountedOption(Code(b, cc), max, greedy))
  {
    hide Holds, Decode, Code, MaxDepth, NetDepth, Total, WellFormed, Parsed, MinDepth, CountedOption;
    NoNet(b, cc);
    OptionDepth(Code(b, cc), max, greedy);
    OptionParts(m.code, p, Code(b, cc), max, greedy);
  }

  lemma CountedParts(b: seq<byte>, p: nat, f: seq<Instr>, min: nat)
    requires Holds(b, p, CountedLoop(f, min))
    ensures var n: int := Total(f);
            && Decode(b, p) == Some(PushI32(min)) && Holds(b, p + 5, f)
            && Decode(b, p + 5 + n) == Some(Loop(-(n + 5))) && Decode(b, p + 10 + n) == Some(Drop)
  {
    hide Holds, Decode, Total;
    var i, k := PushI32(min), Loop(-(Total(f) + 5));
    HoldsParts(b, p, [i] + f, [k, Drop]);
    HoldsParts(b, p, [i], f);
    TotalAppend([i], f);
    HoldsOne(b, p, i);
    HoldsTwo(b, p + Total([i] + f), k, Drop);
  }

  lemma CountedLoaded(m: Machine, b: Node, cc: nat, min: nat, p: nat, d: nat)
    requires SubjectOk(m.s) && WellFormed(b) && cc + Captures(b) <= m.captures
    requires Holds(m.code, p, CountedLoop(Code(b, cc), min)) && d + MaxDepth(CountedLoop(Code(b, cc), min)) <= m.room
    ensures Decode(m.code, p) == Some(PushI32(min)) && d < m.room && CountedAt(m, b, cc, p + 5, d)
    ensures After(b, cc, p + 5) + 6 == p + Total(CountedLoop(Code(b, cc), min))
  {
    hide Holds, Decode, Code, MaxDepth, NetDepth, Total, WellFormed, Parsed, MinDepth, CountedLoop;
    NoNet(b, cc);
    LoopDepth(Code(b, cc), min);
    CountedParts(m.code, p, Code(b, cc), min);
  }

  lemma PushRuns(m: Machine, p: nat, k: nat, x: Res, stk: seq<nat>, ss: seq<State>)
    requires Decode(m.code, p) == Some(PushI32(k)) && |stk| < m.room
    ensures Reaches(m, Run(p, x, stk, ss), Run(p + 5, x, stk + [k], ss))
  {
    hide Decode, WellFormed, Parsed;
    RunsTo(m, p, x, stk, ss, Run(p + 5, x, stk + [k], ss));
  }

  /** The part of a repetition after the mandatory copies, entered with result y. */
  ghost predicate TailAt(m: Machine, b: Node, cc: nat, extra: nat, unbounded: bool, greedy: bool, p: nat, d: nat) {
    && SubjectOk(m.s) && WellFormed(b) && cc + Captures(b) <= m.captures
    && (var check := NeedsCheck(Code(b, cc), greedy);
        var f := RepeatTail(Code(b, cc), extra, unbounded, greedy, check);
        && (unbounded && !check ==> Progresses(b, cc)) && Holds(m.code, p, f) && d + MaxDepth(f) <= m.room)
  }

  function TailEndPc(b: Node, cc: nat, extra: nat, unbounded: bool, greedy: bool, p: nat): nat
    requires WellFormed(b)
  {
    p + Total(RepeatTail(Code(b, cc), extra, unbounded, greedy, NeedsCheck(Code(b, cc), greedy)))
  }

  function TailList(b: Node, s: Subject, cc: nat, extra: nat, unbounded: bool, greedy: bool, y: Res): seq<Res> {
    if unbounded then Star(b, s, cc, greedy, y) else UpTo(b, s, cc, extra, greedy, y)
  }

  lemma {:induction false} TailYields(m: Machine, b: Node, cc: nat, extra: nat, unbounded: bool, greedy: bool, p: nat, y: Res, stk: seq<nat>, base: seq<State>)
    requires TailAt(m, b, cc, extra, unbounded, greedy, p, |stk|) && Start(m, y)
    ensures Yields(m, Run(p, y, stk, base), base, TailEndPc(b, cc, extra, unbounded, greedy, p), stk,
                   TailList(b, m.s, cc, extra, unbounded, greedy, y))
    decreases b, 4, 0, 0, 0
  {
    hide Yields, Reaches, Decode, Code, Total, Holds, MaxDepth, Star, UpTo, StarLoop, CountedOption, AdvanceScan, WellFormed, Parsed, MinDepth;
    var q := TailEndPc(b, cc, extra, unbounded, greedy, p);
    if unbounded {
      var check := NeedsCheck(Code(b, cc), greedy);
      StarLoaded(m, b, cc, greedy, check, p, |stk|);
      StarYields(m, b, cc, greedy, check, p, y, stk, base);
    } else if extra > 0 {
      OptionLoaded(m, b, cc, greedy, extra, p, |stk|);
      PushRuns(m, p, extra, y, stk, base);
      OptionYields(m, b, cc, greedy, p + 5, extra, y, stk, base);
      YieldsFrom(m, Run(p, y, stk, base), Run(p + 5, y, stk + [extra], base), base, q, stk, UpTo(b, m.s, cc, extra, greedy, y));
    } else {
      NoDepth();
      UpToZero(b, m.s, cc, greedy, y);
      YieldsHere(m, p, stk, y, base);
    }
  }

  function EachTailList(b: Node, s: Subject, cc: nat, extra: nat, unbounded: bool, greedy: bool, ys: seq<Res>): seq<Res> {
    if unbounded then EachStar(b, s, cc, greedy, ys) else EachUpTo(b, s, cc, extra, greedy, ys)
  }

  lemma EachTailStep(b: Node, s: Subject, cc: nat, extra: nat, unbounded: bool, greedy: bool, ys: seq<Res>)
    ensures EachTailList(b, s, cc, extra, unbounded, greedy, ys) ==
            if ys == [] then [] else TailList(b, s, cc, extra, unbounded, greedy, ys[0]) + EachTailList(b, s, cc, extra, unbounded, greedy, ys[1..])
  {
    hide Star, UpTo, WellFormed, Parsed;
  }

  lemma {:induction false} EachTail(m: Machine, b: Node, cc: nat, extra: nat, unbounded: bool, greedy: bool, p: nat, c: Config,
                                   stk: seq<nat>, base: seq<State>, ys: seq<Res>)
    requires TailAt(m, b, cc, extra, unbounded, greedy, p, |stk|) && Starts(m, ys) && Yields(m, c, base, p, stk, ys)
    ensures Yields(m, c, base, TailEndPc(b, cc, extra, unbounded, greedy, p), stk, EachTailList(b, m.s, cc, extra, unbounded, greedy, ys))
    decreases b, 5, 0, 0, |ys|
  {
    hide Yields, Reaches, EachTailList, TailList, Holds, Code, RepeatTail, MaxDepth, TailEndPc, WellFormed, Parsed, MinDepth;
    var q := TailEndPc(b, cc, extra, unbounded, greedy, p);
    EachTailStep(b, m.s, cc, extra, unbounded, greedy, ys);
    if ys == [] {
      YieldsNone(m, c, base, p, stk);
      YieldsNone(m, c, base, q, stk);
    } else {
      var vs := FirstOf(m, c, base, p, stk, ys);
      TailWithin(ys, m.s, 0, 2 * m.captures);
      EachTail(m, b, cc, extra, unbounded, greedy, p, Fail(base + vs), stk, base, ys[1..]);
      TailYields(m, b, cc, extra, unbounded, greedy, p, ys[0], stk, base + vs);
      YieldsBind(m, c, Run(p, ys[0], stk, base + vs), base, vs, q, stk, TailList(b, m.s, cc, extra, unbounded, greedy, ys[0]),
                 EachTailList(b, m.s, cc, extra, unbounded, greedy, ys[1..]));
    }
  }

  // ----- repetitions -----

  /** After the capture reset of an optional repetition. */
  lemma ResetRuns(m: Machine, b: Node, cc: nat, p: nat, x: Res, stk: seq<nat>, ss: seq<State>)
    requires Holds(m.code, p, ResetCode(cc, Captures(b))) && cc + Captures(b) <= m.captures && Start(m, x)
    ensures Reaches(m, Run(p, x, stk, ss), Run(p + Total(ResetCode(cc, Captures(b))), Entry(b, cc, 0, x), stk, ss))
    ensures Start(m, Entry(b, cc, 0, x))
  {
    hide Decode, Reaches, WellFormed, Parsed;
    if Captures(b) > 0 {
      var i := SaveReset(cc, cc + Captures(b) - 1);
      HoldsOne(m.code, p, i);
      RunsTo(m, p, x, stk, ss, Run(p + 3, Entry(b, cc, 0, x), stk, ss));
    } else {
      NoDepth();
      ReachesSelf(m, Run(p, x, stk, ss));
    }
  }

  /** The code after the reset of an optional repetition. */
  function OptionalRest(f: seq<Instr>, max: nat, greedy: bool): seq<Instr> {
    if max == 0 then [] else if max == 1 then [Split(greedy, Total(f))] + f
    else RepeatTail(f, max, max == INT32_MAX, greedy, NeedsCheck(f, greedy))
  }

  lemma OptionalShape(f: seq<Instr>, cc: nat, caps: nat, max: nat, greedy: bool)
    requires !UseSimple(f, max, greedy)
    ensures RepeatCode(f, cc, caps, 0, max, greedy) == ResetCode(cc, caps) + OptionalRest(f, max, greedy)
  {
    hide RepeatTail, ResetCode, SimpleCount, AdvanceScan, Total, WellFormed, Parsed;
  }

  lemma OptionalLoaded(m: Machine, r: Node, cc: nat, p: nat, d: nat)
    requires r.Repeat? && Loaded(m, r, cc, p, d) && r.min == 0 && !UseSimple(Code(r.body, cc), r.max, r.greedy)
    ensures var f := Code(r.body, cc);
            var p0 := p + Total(ResetCode(cc, Captures(r.body)));
            && Captures(r) == Captures(r.body) && Holds(m.code, p, ResetCode(cc, Captures(r.body)))
            && Holds(m.code, p0, OptionalRest(f, r.max, r.greedy)) && d + MaxDepth(OptionalRest(f, r.max, r.greedy)) <= m.room
            && After(r, cc, p) == p0 + Total(OptionalRest(f, r.max, r.greedy))
  {
    hide Holds, Code, MaxDepth, NetDepth, Total, OptionalRest, ResetCode, SimpleCount, AdvanceScan, RepeatCode, Parsed, MinDepth;
    RepeatIs(r, cc);
    var f := Code(r.body, cc);
    OptionalShape(f, cc, Captures(r.body), r.max, r.greedy);
    var a, g := ResetCode(cc, Captures(r.body)), OptionalRest(f, r.max, r.greedy);
    HoldsParts(m.code, p, a, g);
    TotalAppend(a, g);
    DepthAppend(a, g);
    ResetNet(cc, Captures(r.body));
  }

  /** The results of an optional repetition after the reset. */
  lemma {:induction false} OptionalRestYields(m: Machine, r: Node, cc: nat, p0: nat, e: Res, stk: seq<nat>, base: seq<State>)
    requires r.Repeat? && WellFormed(r) && r.min == 0 && SubjectOk(m.s) && cc + Captures(r.body) <= m.captures && Start(m, e)
    requires Holds(m.code, p0, OptionalRest(Code(r.body, cc), r.max, r.greedy))
    requires |stk| + MaxDepth(OptionalRest(Code(r.body, cc), r.max, r.greedy)) <= m.room
    ensures Yields(m, Run(p0, e, stk, base), base, p0 + Total(OptionalRest(Code(r.body, cc), r.max, r.greedy)), stk, RepeatEnds(r, m.s, cc, [e]))
    decreases r, 0, 0, 0, 0
  {
    hide Yields, Reaches, Holds, Code, MaxDepth, NetDepth, Total, RepeatTail, EachStar, EachUpTo, AdvanceScan, Parsed, MinDepth;
    var b, max := r.body, r.max;
    YieldsHere(m, p0, stk, e, base);
    if max == 0 {
      NoDepth();
      NoMoreUpTo(b, m.s, cc, r.greedy, [e]);
    } else if max == 1 {
      MaybeYields(m, b, cc, r.greedy, p0, e, stk, base);
    } else {
      EachTail(m, b, cc, max, max == INT32_MAX, r.greedy, p0, Run(p0, e, stk, base), stk, base, [e]);
    }
  }

  lemma MaybeLoaded(m: Machine, b: Node, cc: nat, greedy: bool, p: nat, d: nat)
    requires WellFormed(b)
    requires var g := [Split(greedy, Total(Code(b, cc)))] + Code(b, cc); Holds(m.code, p, g) && d + MaxDepth(g) <= m.room
    ensures Decode(m.code, p) == Some(Split(greedy, Total(Code(b, cc)))) && Holds(m.code, p + 5, Code(b, cc)) && d + Depth(b, cc) <= m.room
    ensures Total([Split(greedy, Total(Code(b, cc)))] + Code(b, cc)) == 5 + Total(Code(b, cc))
  {
    hide Holds, Code, MaxDepth, NetDepth, Total, Decode, WellFormed, Parsed, MinDepth;
    var f := Code(b, cc);
    var i := Split(greedy, Total(f));
    HoldsParts(m.code, p, [i], f);
    HoldsOne(m.code, p, i);
    TotalAppend([i], f);
    DepthAppend([i], f);
    OneNet(i);
  }

  /** A body that may be skipped. */
  lemma {:induction false} MaybeYields(m: Machine, b: Node, cc: nat, greedy: bool, p: nat, x: Res, stk: seq<nat>, base: seq<State>)
    requires WellFormed(b) && SubjectOk(m.s) && cc + Captures(b) <= m.captures && Start(m, x)
    requires var g := [Split(greedy, Total(Code(b, cc)))] + Code(b, cc); Holds(m.code, p, g) && |stk| + MaxDepth(g) <= m.room
    ensures Yields(m, Run(p, x, stk, base), base, p + Total([Split(greedy, Total(Code(b, cc)))] + Code(b, cc)), stk,
                   EachUpTo(b, m.s, cc, 1, greedy, [x]))
    decreases b, 5, 0, 0, 0
  {
    hide Yields, Reaches, Holds, Code, MaxDepth, NetDepth, Total, Results, Decode, WellFormed, Parsed, Depth, EachUpTo, MinDepth;
    MaybeLoaded(m, b, cc, greedy, p, |stk|);
    var f := Code(b, cc);
    var q := p + 5 + Total(f);
    var ys := Results(b, m.s, cc, x);
    MaybeList(b, m.s, cc, greedy, x);
    var here := if greedy then base + [Choice(q, x, stk)] else base;
    NodeYields(m, b, cc, p + 5, x, stk, here);
    if greedy {
      YieldsHere(m, q, stk, x, base);
      SplitYields(m, p, true, Total(f), x, stk, base, q, stk, ys, [x]);
    } else {
      YieldsHere(m, q, stk, x, base + [Choice(p + 5, x, stk)]);
      SplitYields(m, p, false, Total(f), x, stk, base, q, stk, [x], ys);
    }
  }

  lemma MaybeList(b: Node, s: Subject, cc: nat, greedy: bool, x: Res)
    ensures EachUpTo(b, s, cc, 1, greedy, [x]) == if greedy then Results(b, s, cc, x) + [x] else [x] + Results(b, s, cc, x)
  {
    hide Results, WellFormed, Parsed;
    NoMoreUpTo(b, s, cc, greedy, Results(b, s, cc, x));
    assert [x][1..] == [];
    assert UpTo(b, s, cc, 1, greedy, x) == if greedy then Results(b, s, cc, x) + [x] else [x] + Results(b, s, cc, x);
    assert EachUpTo(b, s, cc, 1, greedy, [x]) == UpTo(b, s, cc, 1, greedy, x) + EachUpTo(b, s, cc, 1, greedy, []);
  }

  lemma {:induction false} OptionalYields(m: Machine, r: Node, cc: nat, p: nat, x: Res, stk: seq<nat>, base: seq<State>)
    requires r.Repeat? && Loaded(m, r, cc, p, |stk|) && Start(m, x) && r.min == 0 && !UseSimple(Code(r.body, cc), r.max, r.greedy)
    ensures Yields(m, Run(p, x, stk, base), base, After(r, cc, p), stk, Results(r, m.s, cc, x))
    decreases r, 0, 0, 1, 0
  {
    hide Yields, Reaches, Results, Holds, Code, MaxDepth, Total, OptionalRest, ResetCode, SimpleCount, AdvanceScan, RepeatEnds, Entry, After, Parsed, MinDepth;
    var b := r.body;
    OptionalLoaded(m, r, cc, p, |stk|);
    RepeatResults(r, m.s, cc, x);
    var e := Entry(b, cc, 0, x);
    CopiesZero(b, m.s, cc, [e]);
    ResetRuns(m, b, cc, p, x, stk, base);
    var p0 := p + Total(ResetCode(cc, Captures(b)));
    OptionalRestYields(m, r, cc, p0, e, stk, base);
    YieldsFrom(m, Run(p, x, stk, base), Run(p0, e, stk, base), base, After(r, cc, p), stk, RepeatEnds(r, m.s, cc, [e]));
  }

  predicate IsPlus(r: Node, cc: nat)
    requires r.Repeat? && WellFormed(r)
  {
    r.min == 1 && r.max == INT32_MAX && !NeedsCheck(Code(r.body, cc), r.greedy)
  }

  lemma PlusLoaded(m: Machine, r: Node, cc: nat, p: nat, d: nat)
    requires r.Repeat? && Loaded(m, r, cc, p, d) && IsPlus(r, cc) && !UseSimple(Code(r.body, cc), r.max, r.greedy)
    ensures PlusAt(m, r.body, cc, r.greedy, p, d) && After(r, cc, p) == After(r.body, cc, p) + 5
  {
    hide Holds, Decode, Code, MaxDepth, NetDepth, Total, SimpleCount, AdvanceScan, Parsed, MinDepth;
    RepeatIs(r, cc);
    var f := Code(r.body, cc);
    var i := Split(!r.greedy, -(Total(f) + 5));
    HoldsParts(m.code, p, f, [i]);
    HoldsOne(m.code, p + Total(f), i);
    TotalAppend(f, [i]);
    DepthAppend(f, [i]);
    OneNet(i);
    NoNet(r.body, cc);
  }

  lemma {:induction false} PlusYields(m: Machine, r: Node, cc: nat, p: nat, x: Res, stk: seq<nat>, base: seq<State>)
    requires r.Repeat? && Loaded(m, r, cc, p, |stk|) && Start(m, x) && IsPlus(r, cc) && !UseSimple(Code(r.body, cc), r.max, r.greedy)
    ensures Yields(m, Run(p, x, stk, base), base, After(r, cc, p), stk, Results(r, m.s, cc, x))
    decreases r, 0, 0, 1, 0
  {
    hide Yields, Reaches, Results, EachResult, Holds, Code, Depth, Total, SimpleCount, AdvanceScan, EachStar, After, Parsed;
    var b := r.body;
    PlusLoaded(m, r, cc, p, |stk|);
    RepeatResults(r, m.s, cc, x);
    CopiesFirst(b, m.s, cc, 1, [x]);
    EachOne(b, m.s, cc, x);
    CopiesZero(b, m.s, cc, Results(b, m.s, cc, x));
    NodeYields(m, b, cc, p, x, stk, base);
    ResultsStart(m, b, cc, x);
    EachPlus(m, b, cc, r.greedy, p, Run(p, x, stk, base), stk, base, Results(b, m.s, cc, x));
  }

  /** The mandatory copies of a repetition that has some. */
  function MandatoryCode(f: seq<Instr>, min: nat): seq<Instr> { if min == 1 then f else CountedLoop(f, min) }

  lemma MandatoryLoaded(m: Machine, r: Node, cc: nat, p: nat, d: nat)
    requires r.Repeat? && Loaded(m, r, cc, p, d) && r.min > 0 && !IsPlus(r, cc) && !UseSimple(Code(r.body, cc), r.max, r.greedy)
    ensures var f := Code(r.body, cc);
            var p1 := p + Total(MandatoryCode(f, r.min));
            && Captures(r) == Captures(r.body) && Holds(m.code, p, MandatoryCode(f, r.min)) && d + MaxDepth(MandatoryCode(f, r.min)) <= m.room
            && TailAt(m, r.body, cc, r.max - r.min, r.max == INT32_MAX, r.greedy, p1, d)
            && After(r, cc, p) == TailEndPc(r.body, cc, r.max - r.min, r.max == INT32_MAX, r.greedy, p1)
  {
    hide Holds, Code, MaxDepth, NetDepth, Total, SimpleCount, AdvanceScan, CountedLoop, RepeatTail, Parsed, MinDepth;
    RepeatIs(r, cc);
    var f := Code(r.body, cc);
    var check := NeedsCheck(f, r.greedy);
    var a, g := MandatoryCode(f, r.min), RepeatTail(f, r.max - r.min, r.max == INT32_MAX, r.greedy, check);
    NoNet(r.body, cc);
    LoopDepth(f, r.min);
    HoldsParts(m.code, p, a, g);
    TotalAppend(a, g);
    DepthAppend(a, g);
  }

  lemma {:induction false} MandatoryYields(m: Machine, b: Node, cc: nat, min: nat, p: nat, x: Res, stk: seq<nat>, base: seq<State>)
    requires SubjectOk(m.s) && WellFormed(b) && cc + Captures(b) <= m.captures && Start(m, x) && min > 0
    requires Holds(m.code, p, MandatoryCode(Code(b, cc), min)) && |stk| + MaxDepth(MandatoryCode(Code(b, cc), min)) <= m.room
    ensures Yields(m, Run(p, x, stk, base), base, p + Total(MandatoryCode(Code(b, cc), min)), stk, Copies(b, m.s, cc, min, [x]))
    decreases b, 4, 0, 0, 0
  {
    hide Yields, Reaches, Results, EachResult, Copies, Holds, Code, MaxDepth, Total, CountedLoop, Decode, WellFormed, Parsed, MinDepth;
    var c := Run(p, x, stk, base);
    if min == 1 {
      CopiesFirst(b, m.s, cc, 1, [x]);
      EachOne(b, m.s, cc, x);
      CopiesZero(b, m.s, cc, Results(b, m.s, cc, x));
      NodeYields(m, b, cc, p, x, stk, base);
    } else {
      CountedLoaded(m, b, cc, min, p, |stk|);
      PushRuns(m, p, min, x, stk, base);
      YieldsOne(m, c, base, p + 5, stk + [min], x);
      CountedYields(m, b, cc, p + 5, min, c, stk, base, [x]);
    }
  }

  lemma {:induction false} GeneralYields(m: Machine, r: Node, cc: nat, p: nat, x: Res, stk: seq<nat>, base: seq<State>)
    requires r.Repeat? && Loaded(m, r, cc, p, |stk|) && Start(m, x)
    requires r.min > 0 && !IsPlus(r, cc) && !UseSimple(Code(r.body, cc), r.max, r.greedy)
    ensures Yields(m, Run(p, x, stk, base), base, After(r, cc, p), stk, Results(r, m.s, cc, x))
    decreases r, 0, 0, 1, 0
  {
    hide Yields, Reaches, Results, Copies, Holds, Code, MaxDepth, Total, MandatoryCode, TailAt, TailEndPc, SimpleCount, AdvanceScan, EachStar, EachUpTo, After, Parsed, MinDepth;
    var b, c := r.body, Run(p, x, stk, base);
    MandatoryLoaded(m, r, cc, p, |stk|);
    RepeatResults(r, m.s, cc, x);
    MandatoryYields(m, b, cc, r.min, p, x, stk, base);
    var ys := Copies(b, m.s, cc, r.min, [x]);
    CopiesWithin(b, m.s, cc, r.min, [x], 0, 2 * m.captures);
    EachTail(m, b, cc, r.max - r.min, r.max == INT32_MAX, r.greedy, p + Total(MandatoryCode(Code(b, cc), r.min)), c, stk, base, ys);
  }

  lemma {:induction false} RepeatYields(m: Machine, r: Node, cc: nat, p: nat, x: Res, stk: seq<nat>, base: seq<State>)
    requires r.Repeat? && Loaded(m, r, cc, p, |stk|) && Start(m, x)
    ensures Yields(m, Run(p, x, stk, base), base, After(r, cc, p), stk, Results(r, m.s, cc, x))
    decreases r, 0, 0, 2, 0
  {
    hide Yields, Results, Holds, Code, MaxDepth, After, UseSimple, IsPlus, Parsed, MinDepth;
    if UseSimple(Code(r.body, cc), r.max, r.greedy) {
      SimpleYields(m, r, cc, p, x, stk, base);
    } else if r.min == 0 {
      OptionalYields(m, r, cc, p, x, stk, base);
    } else if IsPlus(r, cc) {
      PlusYields(m, r, cc, p, x, stk, base);
    } else {
      GeneralYields(m, r, cc, p, x, stk, base);
    }
  }
}
