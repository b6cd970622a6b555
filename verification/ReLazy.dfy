/** Unbounded non-greedy loops, for which no zero-advance check is emitted: exactly when such a loop comes to an end. */
module ReLazy {
  import opened ReBytes
  import opened ReChars
  import opened ReClass
  import opened ReCode
  import opened ReSemantics
  import opened ReProgress
  import opened ReMachine
  import opened ReDepth
  import opened ReCorrect
  import opened ReProgram
  import opened ReExec
  import opened ReSafety

  /** /(?:b)*?[]/: the loop is asked for one more iteration until there is none left to try. */
  function LazyLoop(b: Node): (r: Node)
    ensures WellFormed(b) ==> Parsed(r)
  {
    assert WellFormed(b) ==> Parsed(Repeat(b, 0, INT32_MAX, false));
    Then(Repeat(b, 0, INT32_MAX, false), Class([]))
  }

  /** After n iterations of b from p, at i, one more can match without consuming. */
  ghost predicate EmptyAfter(b: Node, s: Subject, p: nat, n: nat, i: nat) { Times(b, s, n, p, i) && Matches(b, s, i, i) }

  ghost predicate EmptyReachable(b: Node, s: Subject, p: nat) { exists n: nat, i: nat :: EmptyAfter(b, s, p, n, i) }

  ghost predicate Ends(m: Machine, c: Config, d: Config) { IsFinal(d) && Reaches(m, c, d) }

  ghost predicate Halts(m: Machine, c: Config) { exists d :: Ends(m, c, d) }

  /** An iteration that keeps an empty one in reach. */
  lemma EmptyLater(b: Node, s: Subject, p: nat, j: nat)
    requires Matches(b, s, p, j) && EmptyReachable(b, s, j)
    ensures EmptyReachable(b, s, p)
  {
    hide Matches;
    var n: nat, i: nat :| EmptyAfter(b, s, j, n, i);
    TimesNext(b, s, n, p, j, i);
    assert EmptyAfter(b, s, p, n + 1, i);
  }

  lemma EmptyHere(b: Node, s: Subject, p: nat)
    requires Matches(b, s, p, p)
    ensures EmptyReachable(b, s, p)
  {
    assert EmptyAfter(b, s, p, 0, p);
  }

  /** If an empty iteration is in reach, then from some next position as well. */
  lemma EmptyNext(b: Node, s: Subject, p: nat) returns (j: nat)
    requires EmptyReachable(b, s, p)
    ensures Matches(b, s, p, j) && EmptyReachable(b, s, j)
  {
    hide Matches;
    var n: nat, i: nat :| EmptyAfter(b, s, p, n, i);
    if n == 0 {
      j := p;
    } else {
      j := TimesFirst(b, s, n, p, i);
      assert EmptyAfter(b, s, j, n - 1, i);
    }
  }

  // ----- the loop in the machine -----

  /** The loop at p: split, body, jump back, and a character that never occurs behind it. */
  ghost predicate LazyAt(m: Machine, b: Node, p: nat) {
    && WellFormed(b) && Loaded(m, b, 1, p + 5, 0)
    && (var n: int := Total(Code(b, 1));
        && Decode(m.code, p) == Some(Split(false, n + 5)) && Decode(m.code, p + 5 + n) == Some(Goto(-(5 + n + 5)))
        && Decode(m.code, p + 5 + n + 5) == Some(Char32(UINT32_MAX)))
  }

  /** At the loop the exit is tried first, in vain; then the body. */
  lemma LazyEnter(m: Machine, b: Node, p: nat, x: Res, base: seq<State>)
    requires LazyAt(m, b, p) && Start(m, x)
    ensures Step(m, Run(p, x, [], base)).Run? && Reaches(m, Step(m, Run(p, x, [], base)), Run(p + 5, x, [], base))
  {
    hide Decode, WellFormed, Parsed, Code, Total, Reaches, Holds, Depth;
    var q := p + 5 + Total(Code(b, 1)) + 5;
    var st := Choice(p + 5, x, []);
    assert Step(m, Run(p, x, [], base)) == Run(q, x, [], base + [st]);
    NeverTaken(m, q, x, base + [st]);
    PopTop(base, st);
    ReachesStep(m, Run(q, x, [], base + [st]));
    ReachesStep(m, Fail(base + [st]));
    ReachesTrans(m, Run(q, x, [], base + [st]), Fail(base + [st]), Run(p + 5, x, [], base));
  }

  lemma NeverTaken(m: Machine, q: nat, x: Res, ss: seq<State>)
    requires Decode(m.code, q) == Some(Char32(UINT32_MAX)) && SubjectOk(m.s) && x.pos <= |m.s.units|
    ensures Step(m, Run(q, x, [], ss)) == Fail(ss)
  {
    hide Decode;
    if x.pos < |m.s.units| { CharFits(m.s, x.pos); }
  }

  /** One iteration: the body yields its results in front of the jump back. */
  lemma LazyBody(m: Machine, b: Node, p: nat, x: Res, base: seq<State>)
    requires LazyAt(m, b, p) && Start(m, x)
    ensures var ys := Results(b, m.s, 1, x);
            && Yields(m, Run(p + 5, x, [], base), base, p + 5 + Total(Code(b, 1)), [], ys) && Within(ys, m.s, x.pos, 2 * m.captures)
            && (forall k :: 0 <= k < |ys| ==> Matches(b, m.s, x.pos, ys[k].pos))
            && (forall j :: Matches(b, m.s, x.pos, j) ==> Stops(ys, j))
  {
    hide Decode, WellFormed, Parsed, Code, Total, Reaches, Holds, Depth, Yields, Results, Matches;
    NodeYields(m, b, 1, p + 5, x, [], base);
    ResultsWithin(b, m.s, 1, x);
    var ys := Results(b, m.s, 1, x);
    forall j: nat ensures Stops(ys, j) <==> Matches(b, m.s, x.pos, j) { ResultsMatch(b, m.s, 1, x, j); }
    forall k | 0 <= k < |ys| ensures Matches(b, m.s, x.pos, ys[k].pos) { assert Stops(ys, ys[k].pos); }
  }

  /** The jump back, after the first result y. */
  lemma LazyAgain(m: Machine, b: Node, p: nat, y: Res, ss: seq<State>)
    requires LazyAt(m, b, p)
    ensures Reaches(m, Run(p + 5 + Total(Code(b, 1)), y, [], ss), Run(p, y, [], ss))
  {
    hide Decode, WellFormed, Parsed, Code, Total, Reaches, Holds, Depth;
    RunsTo(m, p + 5 + Total(Code(b, 1)), y, [], ss, Run(p, y, [], ss));
  }

  // ----- without an empty iteration in reach the loop fails in the end -----

  lemma {:induction false} LazyFails(m: Machine, b: Node, p: nat, x: Res, base: seq<State>)
    requires LazyAt(m, b, p) && Start(m, x) && !EmptyReachable(b, m.s, x.pos)
    ensures Reaches(m, Run(p, x, [], base), Fail(base))
    decreases Left(m.s, x.pos), 1, 0
  {
    hide LazyAt, Reaches, Yields, Results, Matches, Code, Total, Step, Within;
    var c, d := Run(p, x, [], base), Run(p + 5, x, [], base);
    LazyEnter(m, b, p, x, base);
    StepThen(m, c, d);
    LazyBody(m, b, p, x, base);
    var ys := Results(b, m.s, 1, x);
    forall k | 0 <= k < |ys| ensures ys[k].pos != x.pos && !EmptyReachable(b, m.s, ys[k].pos) {
      if ys[k].pos == x.pos { EmptyHere(b, m.s, x.pos); }
      if EmptyReachable(b, m.s, ys[k].pos) { EmptyLater(b, m.s, x.pos, ys[k].pos); }
    }
    LazyFailsAfter(m, b, p, x.pos, d, base, ys);
    ReachesTrans(m, c, d, Fail(base));
  }

  lemma {:induction false} LazyFailsAfter(m: Machine, b: Node, p: nat, i: nat, c: Config, base: seq<State>, ys: seq<Res>)
    requires LazyAt(m, b, p) && Within(ys, m.s, i, 2 * m.captures) && Yields(m, c, base, p + 5 + Total(Code(b, 1)), [], ys)
    requires forall k :: 0 <= k < |ys| ==> ys[k].pos != i && !EmptyReachable(b, m.s, ys[k].pos)
    ensures Reaches(m, c, Fail(base))
    decreases Left(m.s, i), 0, |ys|
  {
    hide Loaded, Decode, WellFormed, Parsed, Reaches, Yields, Matches, Code, Total, EmptyReachable;
    var q := p + 5 + Total(Code(b, 1));
    if ys == [] {
      YieldsNone(m, c, base, q, []);
    } else {
      var y := ys[0];
      var vs := FirstOf(m, c, base, q, [], ys);
      TailWithin(ys, m.s, i, 2 * m.captures);
      var d, e := Run(q, y, [], base + vs), Run(p, y, [], base + vs);
      LazyAgain(m, b, p, y, base + vs);
      LazyFails(m, b, p, y, base + vs);
      ReachesTrans(m, c, d, e);
      ReachesTrans(m, c, e, Fail(base + vs));
      LazyFailsAfter(m, b, p, i, Fail(base + vs), base, ys[1..]);
      ReachesTrans(m, c, Fail(base + vs), Fail(base));
    }
  }

  // ----- with one in reach it never ends -----

  /** The run from c has not ended after at most n steps. */
  ghost predicate Lasts(m: Machine, c: Config, n: nat) { forall k: nat :: k <= n ==> !IsFinal(Steps(m, c, k)) }

  lemma {:induction false} LastsBefore(m: Machine, c: Config, d: Config, n: nat)
    requires Reaches(m, c, d) && Lasts(m, d, n)
    ensures Lasts(m, c, n)
  {
    hide Step;
    var t: nat :| Steps(m, c, t) == d;
    forall k: nat | k <= n ensures !IsFinal(Steps(m, c, k)) {
      if k <= t {
        StepsAdd(m, c, k, t - k);
        if IsFinal(Steps(m, c, k)) { Absorbing(m, Steps(m, c, k), t - k); }
        assert Steps(m, d, 0) == d;
      } else {
        StepsAdd(m, c, t, k - t);
      }
    }
  }

  lemma LastsStep(m: Machine, c: Config, n: nat)
    requires c.Run? && n > 0 && Lasts(m, Step(m, c), n - 1)
    ensures Lasts(m, c, n)
  {
    hide Step;
    forall k: nat | k <= n ensures !IsFinal(Steps(m, c, k)) {
      if k > 0 { assert Steps(m, c, k) == Steps(m, Step(m, c), k - 1); }
    }
  }

  lemma {:induction false} LazyLasts(m: Machine, b: Node, p: nat, x: Res, base: seq<State>, n: nat)
    requires LazyAt(m, b, p) && Start(m, x) && EmptyReachable(b, m.s, x.pos)
    ensures Lasts(m, Run(p, x, [], base), n)
    decreases n, 1, 0
  {
    hide LazyAt, Reaches, Yields, Results, Matches, Code, Total, Step, Within, EmptyReachable, Lasts;
    var c, d := Run(p, x, [], base), Run(p + 5, x, [], base);
    if n == 0 {
      LastsNow(m, c);
    } else {
      LazyEnter(m, b, p, x, base);
      LazyBody(m, b, p, x, base);
      var j := EmptyNext(b, m.s, x.pos);
      var ys := Results(b, m.s, 1, x);
      LazyLastsAfter(m, b, p, x.pos, d, base, ys, j, n);
      LastsBefore(m, Step(m, c), d, n - 1);
      LastsStep(m, c, n);
    }
  }

  lemma LastsNow(m: Machine, c: Config)
    requires c.Run?
    ensures Lasts(m, c, 0)
  {}

  lemma {:induction false} LazyLastsAfter(m: Machine, b: Node, p: nat, i: nat, c: Config, base: seq<State>, ys: seq<Res>, j: nat, n: nat)
    requires LazyAt(m, b, p) && Within(ys, m.s, i, 2 * m.captures) && Yields(m, c, base, p + 5 + Total(Code(b, 1)), [], ys)
    requires n > 0 && EmptyReachable(b, m.s, j) && Stops(ys, j)
    ensures Lasts(m, c, n - 1)
    decreases n, 0, |ys|
  {
    hide Loaded, Decode, WellFormed, Parsed, Reaches, Yields, Matches, Code, Total, EmptyReachable, Lasts, Stops;
    NotNowhere(ys, j);
    var q := p + 5 + Total(Code(b, 1));
    var y := ys[0];
    var vs := FirstOf(m, c, base, q, [], ys);
    TailWithin(ys, m.s, i, 2 * m.captures);
    var d, e := Run(q, y, [], base + vs), Run(p, y, [], base + vs);
    LazyAgain(m, b, p, y, base + vs);
    ReachesTrans(m, c, d, e);
    if EmptyReachable(b, m.s, y.pos) {
      LazyLasts(m, b, p, y, base + vs, n - 1);
      LastsBefore(m, c, e, n - 1);
    } else {
      LazyFails(m, b, p, y, base + vs);
      ReachesTrans(m, c, e, Fail(base + vs));
      StopsHead(ys, j);
      LazyLastsAfter(m, b, p, i, Fail(base + vs), base, ys[1..], j, n);
      LastsBefore(m, c, Fail(base + vs), n - 1);
    }
  }

  lemma NotNowhere(ys: seq<Res>, j: nat)
    requires Stops(ys, j)
    ensures ys != []
  {}

  // ----- the whole program -----

  lemma LazyParsed(b: Node)
    requires WellFormed(b)
    ensures Parsed(LazyLoop(b)) && RangesFit(LazyLoop(b)) && Captures(LazyLoop(b)) == Captures(b)
    ensures Parsed(Repeat(b, 0, INT32_MAX, false)) && Captures(Repeat(b, 0, INT32_MAX, false)) == Captures(b)
  {
    WellFormedParts(b);
    var r := Repeat(b, 0, INT32_MAX, false);
    assert Parsed(r) && RangesFit(r) && Captures(r) == Captures(b);
    assert Parsed(Class([])) && RangesFit(Class([])) && Captures(Class([])) == 0;
  }

  lemma LazyRepeat(f: seq<Instr>, caps: nat)
    ensures var n: int := Total(f);
            RepeatCode(f, 1, caps, 0, INT32_MAX, false) == ResetCode(1, caps) + ([Split(false, n + 5)] + (f + [Goto(-(5 + n + 5))]))
  {
    hide Total, SimpleCount, AdvanceScan, ResetCode;
    var n: int := Total(f);
    assert StarLoop(f, false, false) == [Split(false, n + 5)] + (f + [Goto(-(5 + n + 5))]);
  }

  lemma NeverCode(cc: nat)
    ensures Parsed(Class([])) && Code(Class([]), cc) == [Char32(UINT32_MAX)]
  {}

  /** The code of the loop: captures unset, the loop, and a character no subject has. */
  lemma LazyCode(b: Node)
    requires WellFormed(b)
    ensures var f := Code(b, 1); var n: int := Total(f);
            && Parsed(LazyLoop(b)) && Captures(LazyLoop(b)) == Captures(b)
            && ProgramCode(LazyLoop(b), true) ==
               [SaveStart(0)] + (ResetCode(1, Captures(b)) + ([Split(false, n + 5)] + (f + [Goto(-(5 + n + 5)), Char32(UINT32_MAX)]))) + [SaveEnd(0), Match]
  {
    hide Total, Code, RepeatCode, ResetCode, Captures, Parsed, WellFormed, RangesFit;
    var r := Repeat(b, 0, INT32_MAX, false);
    var f := Code(b, 1);
    var n: int := Total(f);
    LazyParsed(b);
    RepeatIs(r, 1);
    LazyRepeat(f, Captures(b));
    NeverCode(1 + Captures(r));
    ThenCode(LazyLoop(b), 1);
    assert Code(LazyLoop(b), 1) == ResetCode(1, Captures(b)) + ([Split(false, n + 5)] + (f + [Goto(-(5 + n + 5)), Char32(UINT32_MAX)]));
  }

  function LoopStart(b: Node): nat { 2 + Total(ResetCode(1, Captures(b))) }

  /** Where the parts of the loop lie. */
  lemma LazyParts(b: seq<byte>, reset: seq<Instr>, i: Instr, f: seq<Instr>, j: Instr, k: Instr)
    requires Holds(b, 0, [SaveStart(0)] + (reset + ([i] + (f + [j, k]))) + [SaveEnd(0), Match]) && Size(i) == 5 && Size(j) == 5
    ensures Decode(b, 0) == Some(SaveStart(0)) && Holds(b, 2, reset)
    ensures var p := 2 + Total(reset);
            && Decode(b, p) == Some(i) && Holds(b, p + 5, f) && Decode(b, p + 5 + Total(f)) == Some(j)
            && Decode(b, p + 5 + Total(f) + 5) == Some(k)
  {
    hide Holds, Decode, Total;
    var h := reset + ([i] + (f + [j, k]));
    var p := 2 + Total(reset);
    HoldsParts(b, 0, [SaveStart(0)] + h, [SaveEnd(0), Match]);
    HoldsParts(b, 0, [SaveStart(0)], h);
    HoldsOne(b, 0, SaveStart(0));
    HoldsParts(b, 2, reset, [i] + (f + [j, k]));
    HoldsParts(b, p, [i], f + [j, k]);
    HoldsOne(b, p, i);
    HoldsParts(b, p + 5, f, [j, k]);
    HoldsTwo(b, p + 5 + Total(f), j, k);
  }

  lemma LazyLoaded(m: Machine, b: Node)
    requires WellFormed(b) && SubjectOk(m.s) && Programmed(m, LazyLoop(b), true)
    ensures Decode(m.code, 0) == Some(SaveStart(0)) && Holds(m.code, 2, ResetCode(1, Captures(b))) && 1 + Captures(b) <= m.captures
    ensures LazyAt(m, b, LoopStart(b))
  {
    hide Holds, Decode, Code, Total, MaxDepth, NetDepth, MinDepth, WellFormed, Parsed, ProgramCode, ResetCode, Captures;
    LazyCode(b);
    var f := Code(b, 1);
    var n: int := Total(f);
    var reset, i, j, k := ResetCode(1, Captures(b)), Split(false, n + 5), Goto(-(5 + n + 5)), Char32(UINT32_MAX);
    LazyParts(m.code, reset, i, f, j, k);
    ResetNet(1, Captures(b));
    LazyRoom(f, reset, i, j, k);
  }

  lemma LazyRoom(f: seq<Instr>, reset: seq<Instr>, i: Instr, j: Instr, k: Instr)
    requires i.Split? && NetDepth(reset) == 0
    ensures MaxDepth([SaveStart(0)] + (reset + ([i] + (f + [j, k]))) + [SaveEnd(0), Match]) >= MaxDepth(f)
  {
    hide MaxDepth, NetDepth, MinDepth;
    DepthAppend([SaveStart(0)] + (reset + ([i] + (f + [j, k]))), [SaveEnd(0), Match]);
    DepthAppend([SaveStart(0)], reset + ([i] + (f + [j, k])));
    DepthAppend(reset, [i] + (f + [j, k]));
    DepthAppend([i], f + [j, k]);
    DepthAppend(f, [j, k]);
    OneNet(SaveStart(0));
    OneNet(i);
  }

  /** From the start of the program to the loop. */
  lemma LazyReached(m: Machine, b: Node, x: Res) returns (y: Res)
    requires WellFormed(b) && SubjectOk(m.s) && Programmed(m, LazyLoop(b), true) && Start(m, x)
    ensures LazyAt(m, b, LoopStart(b)) && Start(m, y) && y.pos == x.pos && Reaches(m, Run(0, x, [], []), Run(LoopStart(b), y, [], []))
  {
    hide Holds, Decode, Code, Total, MaxDepth, NetDepth, MinDepth, WellFormed, Parsed, ProgramCode, ResetCode, Reaches, LazyAt;
    LazyLoaded(m, b);
    var x1 := Res(x.pos, SetCap(x.caps, 0, x.pos));
    RunsTo(m, 0, x, [], [], Run(2, x1, [], []));
    ResetRuns(m, b, 1, 2, x1, [], []);
    y := Entry(b, 1, 0, x1);
    ReachesTrans(m, Run(0, x, [], []), Run(2, x1, [], []), Run(LoopStart(b), y, [], []));
  }

  /** The engine comes back from a non-greedy loop around b exactly when no empty match of b is in reach of iterations of b. */
  lemma LazyLoopEnds(m: Machine, b: Node, x: Res)
    requires WellFormed(b) && SubjectOk(m.s) && Programmed(m, LazyLoop(b), true) && Start(m, x)
    ensures Halts(m, Run(0, x, [], [])) <==> !EmptyReachable(b, m.s, x.pos)
  {
    hide Programmed, LazyAt, WellFormed, Parsed, Reaches, Step, EmptyReachable, Start, Lasts;
    var y := LazyReached(m, b, x);
    var c, d := Run(0, x, [], []), Run(LoopStart(b), y, [], []);
    if EmptyReachable(b, m.s, x.pos) {
      forall e ensures !Ends(m, c, e) {
        if Ends(m, c, e) {
          var n := StepsOf(m, c, e);
          LazyLasts(m, b, LoopStart(b), y, [], n);
          LastsBefore(m, c, d, n);
          LastsAt(m, c, n);
        }
      }
    } else {
      LazyFails(m, b, LoopStart(b), y, []);
      NothingLeft(m);
      ReachesTrans(m, c, d, Fail([]));
      ReachesTrans(m, c, Fail([]), NoMatch);
      assert Ends(m, c, NoMatch);
    }
  }

  lemma StepsOf(m: Machine, c: Config, d: Config) returns (n: nat)
    requires Reaches(m, c, d)
    ensures Steps(m, c, n) == d
  {
    n :| Steps(m, c, n) == d;
  }

  lemma LastsAt(m: Machine, c: Config, n: nat)
    requires Lasts(m, c, n)
    ensures !IsFinal(Steps(m, c, n))
  {}

  lemma NothingLeft(m: Machine)
    ensures Reaches(m, Fail([]), NoMatch)
  {
    ReachesStep(m, Fail([]));
  }

  /** Around a body that can match without consuming at the start position the loop never ends, although the pattern
      matches nothing: /(?:)*?[]/ on any subject is the simplest case. */
  lemma EmptyBodyNeverEnds(m: Machine, b: Node, x: Res)
    requires WellFormed(b) && SubjectOk(m.s) && Programmed(m, LazyLoop(b), true) && Start(m, x)
    requires Matches(b, m.s, x.pos, x.pos)
    ensures !Halts(m, Run(0, x, [], [])) && !MatchesFrom(LazyLoop(b), m.s, x.pos)
  {
    hide Programmed, WellFormed, Parsed, Reaches, Start;
    EmptyHere(b, m.s, x.pos);
    LazyLoopEnds(m, b, x);
    if j: nat :| Matches(LazyLoop(b), m.s, x.pos, j) {
      var k := SplitPoint(LazyLoop(b), m.s, x.pos, j);
    }
  }
}
