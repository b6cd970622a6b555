/** Start positions: the engine gives the right answer for every pattern exactly from those that do not split a surrogate pair. */
module ReStart {
  import opened ReBytes
  import opened ReChars
  import opened ReClass
  import opened ReCode
  import opened ReSemantics
  import opened ReProgress
  import opened ReMachine
  import opened ReDepth
  import opened ReCorrect
  import opened ReProgram
  import opened ReExec
  import opened ReSafety
  import opened ReLayout

  /** The run from the first instruction ends with the right verdict, and with the right group 0. */
  ghost predicate Answers(m: Machine, r: Node, sticky: bool, x: Res) {
    var c := Run(0, x, [], []);
    if MatchExists(r, m.s, sticky, x.pos) then exists y :: Finds(m, r, sticky, x, y) else Reaches(m, c, NoMatch)
  }

  ghost predicate Finds(m: Machine, r: Node, sticky: bool, x: Res, y: Res) {
    Reaches(m, Run(0, x, [], []), Matched(y)) && MatchFound(r, m.s, sticky, x.pos, y.caps)
  }

  /** A compiled program about to search s from p. */
  ghost predicate Searches(m: Machine, r: Node, sticky: bool, x: Res, s: Subject, p: nat) {
    Compiled(m, r, sticky) && m.s == s && x.pos == p && |x.caps| == 2 * m.captures && Unset(x.caps)
  }

  /** Whatever the pattern, sticky or not, the engine's answer from p is right. */
  ghost predicate AlwaysRight(s: Subject, p: nat) {
    forall m, r, sticky, x :: Searches(m, r, sticky, x, s, p) ==> Answers(m, r, sticky, x)
  }

  lemma RightFromBoundary(m: Machine, r: Node, sticky: bool, x: Res)
    requires Compiled(m, r, sticky) && Start(m, x) && Unset(x.caps)
    ensures Answers(m, r, sticky, x)
  {
    hide Reaches, ProgramCode, Holds, MaxDepth, Expected, MatchExists, MatchFound;
    ProgramRuns(m, r, sticky, x);
    ExpectedMeans(r, m.s, sticky, x.pos, x.caps);
    var o := Expected(r, m.s, sticky, x.pos, x.caps);
    if o.Some? { assert Finds(m, r, sticky, x, o.value); }
  }

  /** Runs are deterministic: they have one end. */
  lemma OneEnd(m: Machine, c: Config, d: Config, e: Config)
    requires Reaches(m, c, d) && Reaches(m, c, e) && IsFinal(d) && IsFinal(e)
    ensures d == e
  {
    hide Step;
    var a: nat :| Steps(m, c, a) == d;
    var b: nat :| Steps(m, c, b) == e;
    StepsAdd(m, c, a, b);
    StepsAdd(m, c, b, a);
    Absorbing(m, d, b);
    Absorbing(m, e, a);
  }

  // ----- a pattern that the engine gets wrong from inside a pair -----

  /** Number of characters from p to the end. */
  function CharsLeft(s: Subject, p: nat): (n: nat)
    requires p <= |s.units|
    ensures n <= |s.units| - p && Skip(s.units, s.mode, p, n) == |s.units|
    decreases |s.units| - p
  {
    if p == |s.units| then 0 else 1 + CharsLeft(s, NextPos(s.units, s.mode, p))
  }

  lemma {:induction false} SkipTooFar(s: Subject, p: nat, n: nat)
    requires p <= |s.units| && n > CharsLeft(s, p)
    ensures Skip(s.units, s.mode, p, n) == -1
    decreases n
  {
    if p < |s.units| { SkipTooFar(s, NextPos(s.units, s.mode, p), n - 1); }
  }

  /** n times any character. */
  lemma {:induction false} TimesSkips(s: Subject, n: nat, i: nat, j: nat)
    requires i <= |s.units|
    ensures Times(AnyChar, s, n, i, j) <==> Skip(s.units, s.mode, i, n) == j
    decreases n
  {
    if n > 0 {
      if i < |s.units| {
        var k := NextPos(s.units, s.mode, i);
        TimesSkips(s, n - 1, k, j);
        assert Matches(AnyChar, s, i, k);
        if Times(AnyChar, s, n - 1, k, j) { TimesNext(AnyChar, s, n - 1, i, k, j); }
      }
      if Times(AnyChar, s, n, i, j) {
        var k := TimesFirst(AnyChar, s, n, i, j);
      }
    }
  }

  /** The character c, then exactly k more. */
  function Rest(c: nat, k: nat): Node { Then(Literal(c), Repeat(AnyChar, k, k, true)) }

  /** An optional character in front of it, as a simple quantifier. */
  function Missed(c: nat, k: nat): Node { Then(Repeat(AnyChar, 0, 1, true), Rest(c, k)) }

  lemma RestParsed(c: nat, k: nat)
    requires c <= 0xFFFF && k < INT32_MAX
    ensures WellFormed(Rest(c, k)) && WellFormed(Missed(c, k)) && WellFormed(Repeat(AnyChar, 0, 1, true)) && WellFormed(Repeat(AnyChar, k, k, true))
    ensures Captures(Rest(c, k)) == Captures(Missed(c, k)) == Captures(Repeat(AnyChar, 0, 1, true)) == 0
  {
    assert WellFormed(AnyChar) && WellFormed(Literal(c)) && Captures(AnyChar) == Captures(Literal(c)) == 0;
    assert WellFormed(Repeat(AnyChar, k, k, true)) && Captures(Repeat(AnyChar, k, k, true)) == 0;
    assert WellFormed(Rest(c, k)) && Captures(Rest(c, k)) == 0;
    assert WellFormed(Repeat(AnyChar, 0, 1, true)) && Captures(Repeat(AnyChar, 0, 1, true)) == 0;
  }

  /** When the rest matches at i: the character is c, and k more follow. */
  lemma RestMatches(s: Subject, c: nat, k: nat, i: nat, j: nat)
    requires k < INT32_MAX
    ensures Matches(Rest(c, k), s, i, j) <==> i < |s.units| && CharAt(s.units, s.mode, i) == c && Skip(s.units, s.mode, NextPos(s.units, s.mode, i), k) == j
  {
    var a, q := Rest(c, k), Repeat(AnyChar, k, k, true);
    if Matches(a, s, i, j) {
      var l := SplitPoint(a, s, i, j);
      var n: nat :| RepeatsBy(q, s, n, l, j);
      RepeatCount(s, k, n, l, j);
    }
    if i < |s.units| && CharAt(s.units, s.mode, i) == c {
      var l := NextPos(s.units, s.mode, i);
      TimesSkips(s, k, l, j);
      if Skip(s.units, s.mode, l, k) == j {
        assert RepeatsBy(q, s, k, l, j);
        SplitsBy(a, s, i, l, j);
      }
    }
  }

  lemma RepeatCount(s: Subject, k: nat, n: nat, i: nat, j: nat)
    requires RepeatsBy(Repeat(AnyChar, k, k, true), s, n, i, j) && i <= |s.units| && k < INT32_MAX
    ensures Skip(s.units, s.mode, i, k) == j
  {
    TimesSkips(s, n, i, j);
  }

  /** From inside a pair the pattern matches, with no iteration of the optional character; from one unit earlier and from
      one unit later the rest does not match. */
  lemma MissedMatches(s: Subject, p: nat)
    requires SubjectOk(s) && PairAt(s.units, s.mode, p - 1) && 0 < p && |s.units| <= INT32_MAX
    ensures s.units[p] <= 0xFFFF && CharsLeft(s, p + 1) < INT32_MAX
    ensures var c, k := s.units[p], CharsLeft(s, p + 1);
            && Matches(Missed(c, k), s, p, |s.units|)
            && !MatchesFrom(Rest(c, k), s, p - 1) && !MatchesFrom(Rest(c, k), s, p + 1)
  {
    hide Matches;
    var c, k := s.units[p], CharsLeft(s, p + 1);
    RestMatches(s, c, k, p, |s.units|);
    assert Times(AnyChar, s, 0, p, p);
    assert RepeatsBy(Repeat(AnyChar, 0, 1, true), s, 0, p, p);
    OptionalNone(s, c, k, p, |s.units|);
    RestMissing(s, c, k, p - 1);
    if p + 1 < |s.units| { SkipTooFar(s, NextPos(s.units, s.mode, p + 1), k); }
    RestMissing(s, c, k, p + 1);
  }

  lemma RestMissing(s: Subject, c: nat, k: nat, i: nat)
    requires k < INT32_MAX
    requires i < |s.units| ==> CharAt(s.units, s.mode, i) != c || Skip(s.units, s.mode, NextPos(s.units, s.mode, i), k) == -1
    ensures !MatchesFrom(Rest(c, k), s, i)
  {
    hide Matches, Rest;
    if j: nat :| Matches(Rest(c, k), s, i, j) { RestMatches(s, c, k, i, j); }
  }

  lemma OptionalNone(s: Subject, c: nat, k: nat, p: nat, j: nat)
    requires RepeatsBy(Repeat(AnyChar, 0, 1, true), s, 0, p, p) && Matches(Rest(c, k), s, p, j)
    ensures Matches(Missed(c, k), s, p, j)
  {
    hide Times, Rest;
    SplitsBy(Missed(c, k), s, p, p, j);
  }

  // ----- the engine on it -----

  lemma AnyCode(cc: nat)
    ensures Code(AnyChar, cc) == [Any] && Total([Any]) == 1 && SimpleCount([Any]) == 1 && Captures(AnyChar) == 0
    ensures SimpleLoop([Any], 0, 1) == [SimpleGreedy(2, 0, 1, 1), Any, Match]
  {
    assert [Any][1..] == [];
  }

  lemma MissedCode(c: nat, k: nat)
    requires c <= 0xFFFF && k < INT32_MAX
    ensures Parsed(Missed(c, k)) && Parsed(Rest(c, k))
    ensures Code(Missed(c, k), 1) == [SimpleGreedy(2, 0, 1, 1), Any, Match] + Code(Rest(c, k), 1)
  {
    hide Code, Total, SimpleCount, Parsed, Captures, SimpleLoop;
    RestParsed(c, k);
    var r := Repeat(AnyChar, 0, 1, true);
    AnyCode(1);
    RepeatIs(r, 1);
    ThenCode(Missed(c, k), 1);
  }

  /** The code is short. */
  lemma MissedSize(c: nat, k: nat)
    requires c <= 0xFFFF && k < INT32_MAX
    ensures Parsed(Missed(c, k)) && Total(Code(Missed(c, k), 1)) <= 100
  {
    hide Code, Total, Parsed, Captures;
    RestParsed(c, k);
    MissedCode(c, k);
    RestCode(c, k);
    TotalAppend([SimpleGreedy(2, 0, 1, 1), Any, Match], Code(Rest(c, k), 1));
    WrapDepth(SimpleGreedy(2, 0, 1, 1), [Any], Match);
    assert [SimpleGreedy(2, 0, 1, 1)] + [Any] + [Match] == [SimpleGreedy(2, 0, 1, 1), Any, Match];
    AnyCode(1);
  }

  lemma RestCode(c: nat, k: nat)
    requires c <= 0xFFFF && k < INT32_MAX
    ensures Parsed(Rest(c, k)) && Total(Code(Rest(c, k), 1)) <= 30
  {
    hide Code, Total, Parsed, Captures, SimpleCount;
    RestParsed(c, k);
    var q := Repeat(AnyChar, k, k, true);
    AnyCode(1);
    LiteralCode(c, 1);
    RepeatIs(q, 1);
    ThenCode(Rest(c, k), 1);
    assert k > 0 ==> Code(q, 1) == SimpleLoop([Any], k, k);
    assert k == 0 ==> Code(q, 1) == [];
    NoDepth();
    WrapDepth(SimpleGreedy(2, k, k, 1), [Any], Match);
    OneNet(Char(c));
    TotalAppend([Char(c)], Code(q, 1));
  }

  lemma LiteralCode(c: nat, cc: nat)
    requires c <= 0xFFFF
    ensures Parsed(Literal(c)) && Code(Literal(c), cc) == [Char(c)] && Captures(Literal(c)) == 0
  {}

  /** The machine that holds the sticky program. */
  function MissedMachine(s: Subject, c: nat, k: nat): Machine
    requires Parsed(Missed(c, k))
  {
    Machine(Bytes(ProgramCode(Missed(c, k), true)), s, 1, MaxDepth(ProgramCode(Missed(c, k), true)))
  }

  lemma MissedCompiled(s: Subject, c: nat, k: nat)
    requires SubjectOk(s) && c <= 0xFFFF && k < INT32_MAX
    ensures WellFormed(Missed(c, k)) && Compiled(MissedMachine(s, c, k), Missed(c, k), true)
  {
    hide Bytes, Code, Holds, MaxDepth, WellFormed, Parsed, RangesFit, AllFit, Total, Missed, Captures;
    RestParsed(c, k);
    var r := Missed(c, k);
    WellFormedParts(r);
    MissedSize(c, k);
    CodeFits(r, 1);
    var f, code := ProgramCode(r, true), Bytes(ProgramCode(r, true));
    AllFitOne(SaveStart(0));
    AllFitOne(SaveEnd(0));
    AllFitOne(Match);
    AllFitAppend([SaveEnd(0)], [Match]);
    AllFitAppend([SaveStart(0)], Code(r, 1));
    AllFitAppend([SaveStart(0)] + Code(r, 1), [SaveEnd(0)] + [Match]);
    assert f == [SaveStart(0)] + Code(r, 1) + ([SaveEnd(0)] + [Match]);
    assert code[0..0 + |Bytes(f)|] == code;
    BytesHold(code, 0, f);
  }

  /** Where the parts of the program lie. */
  lemma MissedLoaded(m: Machine, c: nat, k: nat)
    requires c <= 0xFFFF && k < INT32_MAX && WellFormed(Missed(c, k)) && Compiled(m, Missed(c, k), true)
    ensures Decode(m.code, 0) == Some(SaveStart(0)) && Decode(m.code, 2) == Some(SimpleGreedy(2, 0, 1, 1))
    ensures Decode(m.code, 19) == Some(Any) && Decode(m.code, 20) == Some(Match)
    ensures WellFormed(Rest(c, k)) && Loaded(m, Rest(c, k), 1, 21, 0)
  {
    hide Decode, Code, Holds, MaxDepth, NetDepth, MinDepth, WellFormed, Parsed, Total, Captures;
    RestParsed(c, k);
    MissedCode(c, k);
    var i, f := SimpleGreedy(2, 0, 1, 1), Code(Rest(c, k), 1);
    var h := [SaveStart(0), i] + ([Any, Match] + f);
    assert ProgramCode(Missed(c, k), true) == h + [SaveEnd(0), Match];
    HoldsParts(m.code, 0, h, [SaveEnd(0), Match]);
    HoldsParts(m.code, 0, [SaveStart(0), i], [Any, Match] + f);
    HoldsTwo(m.code, 0, SaveStart(0), i);
    HoldsParts(m.code, 19, [Any, Match], f);
    HoldsTwo(m.code, 19, Any, Match);
    DepthAppend(h, [SaveEnd(0), Match]);
    DepthAppend([SaveStart(0), i], [Any, Match] + f);
    DepthAppend([Any, Match], f);
    TwoNet(SaveStart(0), i);
    TwoNet(Any, Match);
  }

  /** The rest is tried in vain at a position where it does not match. */
  lemma RestFails(m: Machine, c: nat, k: nat, x: Res, base: seq<State>)
    requires WellFormed(Rest(c, k)) && Loaded(m, Rest(c, k), 1, 21, 0) && Start(m, x) && !MatchesFrom(Rest(c, k), m.s, x.pos)
    ensures Reaches(m, Run(21, x, [], base), Fail(base))
  {
    hide Reaches, Matches, Rest, Code, Total, Holds, Depth, Results, Yields, WellFormed, Parsed;
    var r := Rest(c, k);
    NodeYields(m, r, 1, 21, x, [], base);
    var ys := Results(r, m.s, 1, x);
    if ys != [] {
      StopsHead(ys, ys[0].pos);
      ResultsMatch(r, m.s, 1, x, ys[0].pos);
    }
    YieldsNone(m, Run(21, x, [], base), base, After(r, 1, 21), []);
  }

  /** The optional character is counted once, and given back it ends before the pair. */
  lemma OneCounted(m: Machine, p: nat)
    requires 0 < p < |m.s.units| && PairAt(m.s.units, m.s.mode, p - 1)
    requires Decode(m.code, 19) == Some(Any) && Decode(m.code, 20) == Some(Match)
    ensures var r := Iterations(m, 19, 1, 0, p); r.Some? && r.value.0 == 1 && r.value.1 == p + 1
    ensures Back(m.s.units, m.s.mode, p + 1, 1) == p - 1
    ensures Boundary(m.s.units, m.s.mode, p + 1) && Boundary(m.s.units, m.s.mode, p - 1)
  {
    hide Decode;
    assert NextPos(m.s.units, m.s.mode, p) == p + 1;
    assert Atom(m, 20, p + 1) == p + 1 && Atom(m, 19, p) == p + 1;
    assert Back(m.s.units, m.s.mode, p - 1, 0) == p - 1;
  }

  lemma MissedSteps(m: Machine, x: Res, y: Res, p: nat)
    requires 0 < p < |m.s.units| && PairAt(m.s.units, m.s.mode, p - 1) && m.captures >= 1 && x.pos == p && y == Res(p, SetCap(x.caps, 0, p))
    requires Decode(m.code, 0) == Some(SaveStart(0)) && Decode(m.code, 2) == Some(SimpleGreedy(2, 0, 1, 1))
    requires Decode(m.code, 19) == Some(Any) && Decode(m.code, 20) == Some(Match)
    ensures var z := Res(p + 1, y.caps);
            && Step(m, Run(0, x, [], [])) == Run(2, y, [], [])
            && Step(m, Run(2, y, [], [])) == Run(21, z, [], [Quant(2, z, [], 1)])
            && Step(m, Fail([Quant(2, z, [], 1)])) == Run(21, Res(p - 1, y.caps), [], [])
            && Step(m, Fail([])) == NoMatch
  {
    hide Decode, Iterations, Back;
    OneCounted(m, p);
  }

  /** Started inside a pair, the quantifier gives back two units for one and the match is missed. */
  lemma MissedRun(m: Machine, x: Res, p: nat)
    requires SubjectOk(m.s) && 0 < p && PairAt(m.s.units, m.s.mode, p - 1) && |m.s.units| <= INT32_MAX && x.pos == p && |x.caps| == 2 * m.captures
    requires m.s.units[p] <= 0xFFFF && CharsLeft(m.s, p + 1) < INT32_MAX && WellFormed(Missed(m.s.units[p], CharsLeft(m.s, p + 1)))
    requires Compiled(m, Missed(m.s.units[p], CharsLeft(m.s, p + 1)), true)
    ensures Reaches(m, Run(0, x, [], []), NoMatch)
  {
    hide Decode, Code, Holds, MaxDepth, Matches, Step, Reaches, ProgramCode, WellFormed, Parsed, Missed, Rest;
    var c, k := m.s.units[p], CharsLeft(m.s, p + 1);
    MissedMatches(m.s, p);
    MissedLoaded(m, c, k);
    OneCounted(m, p);
    var y := Res(p, SetCap(x.caps, 0, p));
    var z, w := Res(p + 1, y.caps), Res(p - 1, y.caps);
    var st := Quant(2, z, [], 1);
    MissedSteps(m, x, y, p);
    RestFails(m, c, k, z, [st]);
    RestFails(m, c, k, w, []);
    ReachesStep(m, Fail([]));
    ReachesTrans(m, Run(21, w, [], []), Fail([]), NoMatch);
    StepThen(m, Fail([st]), NoMatch);
    ReachesTrans(m, Run(21, z, [], [st]), Fail([st]), NoMatch);
    StepThen(m, Run(2, y, [], []), NoMatch);
    StepThen(m, Run(0, x, [], []), NoMatch);
  }

  // ----- the exact condition -----

  lemma WrongInsidePair(s: Subject, p: nat)
    requires SubjectOk(s) && 0 < p && PairAt(s.units, s.mode, p - 1) && |s.units| <= INT32_MAX
    ensures !AlwaysRight(s, p)
  {
    hide Code, Holds, MaxDepth, Matches, Reaches, ProgramCode, WellFormed, Parsed, Missed, Bytes, Compiled;
    MissedMatches(s, p);
    var c, k := s.units[p], CharsLeft(s, p + 1);
    MissedCompiled(s, c, k);
    var m, x := MissedMachine(s, c, k), Res(p, [-1, -1]);
    MissedRun(m, x, p);
    assert Searches(m, Missed(c, k), true, x, s, p);
    assert MatchExists(Missed(c, k), s, true, p);
    forall y ensures !Finds(m, Missed(c, k), true, x, y) {
      if Finds(m, Missed(c, k), true, x, y) { OneEnd(m, Run(0, x, [], []), NoMatch, Matched(y)); }
    }
    assert !Answers(m, Missed(c, k), true, x);
  }

  /** The engine's answer from a start position is right for every pattern if and only if the position does not split a pair. */
  lemma RightIffBoundary(s: Subject, p: nat)
    requires SubjectOk(s) && p <= |s.units| <= INT32_MAX
    ensures AlwaysRight(s, p) <==> Boundary(s.units, s.mode, p)
  {
    hide Compiled, Answers;
    if Boundary(s.units, s.mode, p) {
      forall m, r, sticky, x | Searches(m, r, sticky, x, s, p) ensures Answers(m, r, sticky, x) { RightFromBoundary(m, r, sticky, x); }
    } else {
      WrongInsidePair(s, p);
    }
  }
}
