/** Whole programs: what the machine does on the code of lre_compile, and what that means for matching. */
module ReProgram {
  import opened ReBytes
  import opened ReChars
  import opened ReClass
  import opened ReCode
  import opened ReSemantics
  import opened ReProgress
  import opened ReMachine
  import opened ReDepth
  import opened ReCorrect
  import opened ReGroups

  /** The prefix that tries every start position. */
  const SEARCH: seq<Instr> := [Split(false, 6), Any, Goto(-11)]

  function WholeMatch(r: Node): seq<Instr>
    requires Parsed(r)
  {
    [SaveStart(0)] + Code(r, 1) + [SaveEnd(0), Match]
  }

  /** The code emitted by lre_compile, without the header. */
  function ProgramCode(r: Node, sticky: bool): seq<Instr>
    requires Parsed(r)
  {
    (if sticky then [] else SEARCH) + WholeMatch(r)
  }

  /** The machine runs a compiled program: its header announces the captures and the stack size. */
  ghost predicate Compiled(m: Machine, r: Node, sticky: bool) {
    && WellFormed(r) && SubjectOk(m.s) && Holds(m.code, 0, ProgramCode(r, sticky))
    && m.captures == 1 + Captures(r) && m.room == MaxDepth(ProgramCode(r, sticky))
  }

  // ----- running a program -----

  /** The result of trying r at position p, with the whole match stored as group 0. */
  function TryAt(r: Node, s: Subject, p: nat, caps: seq<int>): Option<Res> {
    var ys := Results(r, s, 1, Res(p, SetCap(caps, 0, p)));
    if ys == [] then None else Some(Res(ys[0].pos, SetCap(ys[0].caps, 1, ys[0].pos)))
  }

  /** The first start position, from p on, character by character, at which r matches. */
  function Search(r: Node, s: Subject, p: nat, caps: seq<int>): Option<Res>
    decreases Left(s, p)
  {
    var t := TryAt(r, s, p, caps);
    if t.Some? || p >= |s.units| then t else Search(r, s, NextPos(s.units, s.mode, p), caps)
  }

  function Outcome(o: Option<Res>): Config {
    match o case None => NoMatch case Some(y) => Matched(y)
  }

  lemma WholeParts(m: Machine, r: Node, p: nat)
    requires WellFormed(r) && Holds(m.code, p, WholeMatch(r))
    ensures Decode(m.code, p) == Some(SaveStart(0)) && Holds(m.code, p + 2, Code(r, 1))
    ensures Decode(m.code, After(r, 1, p + 2)) == Some(SaveEnd(0)) && Decode(m.code, After(r, 1, p + 2) + 2) == Some(Match)
  {
    hide Holds, Decode, Code, Total;
    var f := Code(r, 1);
    HoldsParts(m.code, p, [SaveStart(0)] + f, [SaveEnd(0), Match]);
    HoldsParts(m.code, p, [SaveStart(0)], f);
    HoldsOne(m.code, p, SaveStart(0));
    TotalAppend([SaveStart(0)], f);
    HoldsTwo(m.code, p + Total([SaveStart(0)] + f), SaveEnd(0), Match);
  }

  lemma WholeDepth(r: Node, sticky: bool)
    requires WellFormed(r)
    ensures MaxDepth(ProgramCode(r, sticky)) == Depth(r, 1) && NetDepth(WholeMatch(r)) == 0
  {
    hide NetDepth, MaxDepth, Code, Total, MinDepth;
    var f := Code(r, 1);
    NoNet(r, 1);
    DepthAppend([SaveStart(0)] + f, [SaveEnd(0), Match]);
    DepthAppend([SaveStart(0)], f);
    OneNet(SaveStart(0));
    TwoNet(SaveEnd(0), Match);
    DepthAppend(if sticky then [] else SEARCH, WholeMatch(r));
    NoDepth();
    SearchDepth();
  }

  lemma SearchDepth()
    ensures NetDepth(SEARCH) == 0 && MaxDepth(SEARCH) == 0 && Total(SEARCH) == 11
  {
    hide NetDepth, MaxDepth, Total, MinDepth;
    var a, b := [Split(false, 6), Any], [Goto(-11)];
    assert SEARCH == a + b;
    DepthAppend(a, b);
    TotalAppend(a, b);
    TwoNet(Split(false, 6), Any);
    OneNet(Goto(-11));
  }

  /** One attempt at position x.pos: success ends the run, failure goes back to the saved states. */
  lemma TryRuns(m: Machine, r: Node, p: nat, x: Res, base: seq<State>)
    requires WellFormed(r) && SubjectOk(m.s) && Holds(m.code, p, WholeMatch(r)) && m.captures == 1 + Captures(r)
    requires Depth(r, 1) <= m.room && Start(m, x) && Plain(base)
    ensures var t := TryAt(r, m.s, x.pos, x.caps); Reaches(m, Run(p, x, [], base), if t.None? then Fail(base) else Matched(t.value))
  {
    hide Yields, Reaches, Results, Decode, Code, Holds, Depth;
    WholeParts(m, r, p);
    var x1 := Res(x.pos, SetCap(x.caps, 0, x.pos));
    var c := Run(p, x, [], base);
    var e := After(r, 1, p + 2);
    var ys := Results(r, m.s, 1, x1);
    RunsTo(m, p, x, [], base, Run(p + 2, x1, [], base));
    NodeYields(m, r, 1, p + 2, x1, [], base);
    YieldsFrom(m, c, Run(p + 2, x1, [], base), base, e, [], ys);
    CloseYields(m, 0, e, c, base, [], ys);
    var zs := CloseGroup(ys, 0);
    if ys == [] {
      YieldsNone(m, c, base, e + 2, []);
    } else {
      var y := zs[0];
      var vs := FirstOf(m, c, base, e + 2, [], zs);
      RunsTo(m, e + 2, y, [], base + vs, Succeed(y, base + vs));
      ReachesTrans(m, c, Run(e + 2, y, [], base + vs), Succeed(y, base + vs));
      PlainAppend(base, vs);
      assert [] + (base + vs) == base + vs;
      SuccessDrops(m, y, [], base + vs);
      ReachesTrans(m, c, Succeed(y, base + vs), Succeed(y, []));
      ReachesStep(m, Succeed(y, []));
      ReachesTrans(m, c, Succeed(y, []), Matched(y));
    }
  }

  /** The program of a non-sticky expression finds the first start position that matches. */
  lemma {:induction false} SearchRuns(m: Machine, r: Node, x: Res)
    requires Compiled(m, r, false) && Start(m, x)
    ensures Reaches(m, Run(0, x, [], []), Outcome(Search(r, m.s, x.pos, x.caps)))
    decreases Left(m.s, x.pos)
  {
    hide Reaches, Decode, Code, Holds, MaxDepth, Results, TryAt, MinDepth;
    HoldsParts(m.code, 0, SEARCH, WholeMatch(r));
    SearchHolds(m.code);
    SearchDepth();
    WholeDepth(r, false);
    var c := Run(0, x, [], []);
    var st := [Choice(5, x, [])];
    assert [] + st == st;
    RunsTo(m, 0, x, [], [], Run(11, x, [], st));
    TryRuns(m, r, 11, x, st);
    var t := TryAt(r, m.s, x.pos, x.caps);
    if t.Some? {
      ReachesTrans(m, c, Run(11, x, [], st), Matched(t.value));
    } else {
      ReachesTrans(m, c, Run(11, x, [], st), Fail(st));
      NextAttempt(m, x);
      if x.pos < |m.s.units| {
        var y := Res(NextPos(m.s.units, m.s.mode, x.pos), x.caps);
        NextIsBoundary(m.s.units, m.s.mode, x.pos);
        ReachesTrans(m, c, Fail(st), Run(0, y, [], []));
        SearchRuns(m, r, y);
        ReachesTrans(m, c, Run(0, y, [], []), Outcome(Search(r, m.s, y.pos, x.caps)));
      } else {
        ReachesTrans(m, c, Fail(st), NoMatch);
      }
    }
  }

  /** After a failed attempt: one character further, or the end. */
  lemma NextAttempt(m: Machine, x: Res)
    requires Decode(m.code, 5) == Some(Any) && Decode(m.code, 6) == Some(Goto(-11)) && x.pos <= |m.s.units|
    ensures Reaches(m, Fail([Choice(5, x, [])]),
                    if x.pos < |m.s.units| then Run(0, Res(NextPos(m.s.units, m.s.mode, x.pos), x.caps), [], []) else NoMatch)
  {
    hide Reaches, Decode;
    var c := Fail([Choice(5, x, [])]);
    assert [] + [Choice(5, x, [])] == [Choice(5, x, [])];
    FailChoice(m, [], 5, x, []);
    if x.pos < |m.s.units| {
      var y := Res(NextPos(m.s.units, m.s.mode, x.pos), x.caps);
      RunsTo(m, 5, x, [], [], Run(6, y, [], []));
      RunsTo(m, 6, y, [], [], Run(0, y, [], []));
      ReachesTrans(m, c, Run(5, x, [], []), Run(6, y, [], []));
      ReachesTrans(m, c, Run(6, y, [], []), Run(0, y, [], []));
    } else {
      RunsTo(m, 5, x, [], [], Fail([]));
      ReachesTrans(m, c, Run(5, x, [], []), Fail([]));
      ReachesStep(m, Fail([]));
      ReachesTrans(m, c, Fail([]), NoMatch);
    }
  }

  lemma SearchHolds(b: seq<byte>)
    requires Holds(b, 0, SEARCH)
    ensures Decode(b, 0) == Some(Split(false, 6)) && Decode(b, 5) == Some(Any) && Decode(b, 6) == Some(Goto(-11))
  {
    hide Decode;
    assert SEARCH == [Split(false, 6), Any] + [Goto(-11)];
    HoldsParts(b, 0, [Split(false, 6), Any], [Goto(-11)]);
    HoldsTwo(b, 0, Split(false, 6), Any);
    HoldsOne(b, 6, Goto(-11));
  }

  /** What a run of a program returns. */
  function Expected(r: Node, s: Subject, sticky: bool, p: nat, caps: seq<int>): Option<Res> {
    if sticky then TryAt(r, s, p, caps) else Search(r, s, p, caps)
  }

  /** Every run of a compiled program ends, never stuck, with the expected outcome. */
  lemma ProgramRuns(m: Machine, r: Node, sticky: bool, x: Res)
    requires Compiled(m, r, sticky) && Start(m, x)
    ensures Reaches(m, Run(0, x, [], []), Outcome(Expected(r, m.s, sticky, x.pos, x.caps)))
  {
    hide Reaches, Holds, Code, MaxDepth, TryAt, MinDepth;
    if sticky {
      assert [] + WholeMatch(r) == WholeMatch(r);
      WholeDepth(r, true);
      TryRuns(m, r, 0, x, []);
      var c := Run(0, x, [], []);
      if TryAt(r, m.s, x.pos, x.caps).None? {
        ReachesStep(m, Fail([]));
        ReachesTrans(m, c, Fail([]), NoMatch);
      }
    } else {
      SearchRuns(m, r, x);
    }
  }

  // ----- meaning -----

  /** r matches somewhere from p. */
  ghost predicate MatchesFrom(r: Node, s: Subject, p: nat) { exists j :: Matches(r, s, p, j) }

  /** No group is set. */
  predicate Unset(caps: seq<int>) { forall j :: 0 <= j < |caps| ==> caps[j] == -1 }

  /** The captures of the first result of r from p: what the engine prefers, as recorded group by group. */
  ghost predicate Preferred(r: Node, s: Subject, p: nat, caps: seq<int>) {
    && |caps| >= 2
    && (var ys := Results(r, s, 1, Res(p, seq(|caps|, j => if j == 0 then p else -1)));
        ys != [] && |ys[0].caps| == |caps| && ys[0].pos == caps[1] && forall j :: 2 <= j < |caps| ==> caps[j] == ys[0].caps[j])
  }

  /** Group 0 is p and the end of a match from there; every other group is unset or a match of its body, and set if it takes
      part in every match. */
  ghost predicate Filled(r: Node, s: Subject, p: nat, end: nat, caps: seq<int>) {
    && |caps| == 2 * (1 + Captures(r)) && caps[0] == p && caps[1] == end && Matches(r, s, p, end) && Preferred(r, s, p, caps)
    && Recorded(r, s, 1, caps) && (forall k: nat :: k < Captures(r) && Always(r, k) ==> SetAt(caps, 1 + k))
  }

  lemma FirstFills(r: Node, s: Subject, p: nat, caps: seq<int>, y: Res)
    requires WellFormed(r) && Unset(caps) && |caps| == 2 * (1 + Captures(r)) && Boundary(s.units, s.mode, p)
    requires var ys := Results(r, s, 1, Res(p, SetCap(caps, 0, p))); ys != [] && y == ys[0]
    ensures Matches(r, s, p, y.pos) && Filled(r, s, p, y.pos, SetCap(y.caps, 1, y.pos))
  {
    hide Results, Matches, Recorded, Leads, Captures, Always, SetAt;
    var x := Res(p, SetCap(caps, 0, p));
    assert x.caps == seq(|caps|, j => if j == 0 then p else -1);
    RecordedUnset(r, s, 1, x.caps);
    ResultsRecorded(r, s, 1, x, y);
    ResultsLead(r, s, 1, x, y);
    LeadsMatch(r, s, 1, x, y);
    var z := SetCap(y.caps, 1, y.pos);
    RecordedSame(r, s, 1, y.caps, z);
    forall k: nat | k < Captures(r) && Always(r, k) ensures SetAt(z, 1 + k) { SetLater(y.caps, z, 1 + k); }
  }

  lemma SetLater(a: seq<int>, b: seq<int>, k: nat)
    requires SetAt(a, k) && k >= 1 && |b| == |a| && forall j :: 2 <= j < |a| ==> b[j] == a[j]
    ensures SetAt(b, k)
  {}

  lemma TryMeans(r: Node, s: Subject, p: nat, caps: seq<int>)
    requires WellFormed(r) && SubjectOk(s) && Boundary(s.units, s.mode, p) && Unset(caps) && |caps| == 2 * (1 + Captures(r))
    ensures var t := TryAt(r, s, p, caps);
            && (t.Some? <==> MatchesFrom(r, s, p))
            && (t.Some? ==> Filled(r, s, p, t.value.pos, t.value.caps))
  {
    hide Results, Matches, Filled, Captures, Unset;
    var x := Res(p, SetCap(caps, 0, p));
    var ys := Results(r, s, 1, x);
    if ys != [] { FirstFills(r, s, p, caps, ys[0]); }
    if j :| Matches(r, s, p, j) {
      ResultsMatch(r, s, 1, x, j);
    }
  }

  /** q is the position reached from p after some characters. */
  ghost predicate StartOf(s: Subject, p: nat, q: nat) { exists n: nat :: p <= |s.units| && Skip(s.units, s.mode, p, n) == q }

  /** No start position from p on matches. */
  ghost predicate NoStart(r: Node, s: Subject, p: nat) {
    forall q: nat :: StartOf(s, p, q) ==> !MatchesFrom(r, s, q)
  }

  /** q is the first start position from p on that matches. */
  ghost predicate FirstStart(r: Node, s: Subject, p: nat, q: nat) {
    StartOf(s, p, q) && MatchesFrom(r, s, q) && forall t: nat :: StartOf(s, p, t) && t < q ==> !MatchesFrom(r, s, t)
  }

  /** The search succeeds exactly when some start position from p on matches, and then returns the first of
      them as the start of group 0, with everything recorded for the match preferred there. */
  lemma {:induction false} SearchMeans(r: Node, s: Subject, p: nat, caps: seq<int>)
    requires WellFormed(r) && SubjectOk(s) && Boundary(s.units, s.mode, p) && Unset(caps) && |caps| == 2 * (1 + Captures(r))
    ensures var t := Search(r, s, p, caps);
            && (t.None? ==> NoStart(r, s, p))
            && (t.Some? ==> exists q: nat :: Filled(r, s, q, t.value.pos, t.value.caps) && FirstStart(r, s, p, q))
    decreases Left(s, p)
  {
    hide TryAt, MatchesFrom, Matches, Filled, Captures, Unset;
    TryMeans(r, s, p, caps);
    assert Skip(s.units, s.mode, p, 0) == p;
    assert StartOf(s, p, p);
    if TryAt(r, s, p, caps).Some? {
      forall q: nat | StartOf(s, p, q) ensures q >= p { StartForward(s, p, q); }
    } else if p >= |s.units| {
      forall q: nat | StartOf(s, p, q) ensures q == p { StartSplit(s, p, q); }
    } else {
      var p1 := NextPos(s.units, s.mode, p);
      NextIsBoundary(s.units, s.mode, p);
      SearchMeans(r, s, p1, caps);
      forall q: nat | StartOf(s, p, q) ensures q == p || StartOf(s, p1, q) { StartSplit(s, p, q); }
      forall q: nat | StartOf(s, p1, q) ensures StartOf(s, p, q) { StartLater(s, p, q); }
    }
  }

  lemma {:induction false} SkipForward(s: Subject, p: nat, n: nat)
    requires p <= |s.units| && Skip(s.units, s.mode, p, n) >= 0
    ensures Skip(s.units, s.mode, p, n) >= p
    decreases n
  {
    if n > 0 { SkipForward(s, NextPos(s.units, s.mode, p), n - 1); }
  }

  lemma StartForward(s: Subject, p: nat, q: nat)
    requires StartOf(s, p, q)
    ensures q >= p
  {
    var n: nat :| p <= |s.units| && Skip(s.units, s.mode, p, n) == q;
    SkipForward(s, p, n);
  }

  lemma StartSplit(s: Subject, p: nat, q: nat)
    requires StartOf(s, p, q) && p <= |s.units|
    ensures q == p || (p < |s.units| && StartOf(s, NextPos(s.units, s.mode, p), q))
  {
    var n: nat :| p <= |s.units| && Skip(s.units, s.mode, p, n) == q;
    if n > 0 && p < |s.units| { assert Skip(s.units, s.mode, NextPos(s.units, s.mode, p), n - 1) == q; }
  }

  lemma StartLater(s: Subject, p: nat, q: nat)
    requires p < |s.units| && StartOf(s, NextPos(s.units, s.mode, p), q)
    ensures StartOf(s, p, q)
  {
    var n: nat :| Skip(s.units, s.mode, NextPos(s.units, s.mode, p), n) == q;
    assert Skip(s.units, s.mode, p, n + 1) == q;
  }

  /** A match exists at p, or for a non-sticky expression at p or a later start position. */
  ghost predicate MatchExists(r: Node, s: Subject, sticky: bool, p: nat) {
    if sticky then MatchesFrom(r, s, p) else !NoStart(r, s, p)
  }

  /** The captures describe the match preferred from p, or for a non-sticky expression from the first start position that
      has one. */
  ghost predicate MatchFound(r: Node, s: Subject, sticky: bool, p: nat, caps: seq<int>) {
    exists q: nat, end: nat :: Filled(r, s, q, end, caps) && (if sticky then q == p else FirstStart(r, s, p, q))
  }

  lemma ExpectedMeans(r: Node, s: Subject, sticky: bool, p: nat, caps: seq<int>)
    requires WellFormed(r) && SubjectOk(s) && Boundary(s.units, s.mode, p) && Unset(caps) && |caps| == 2 * (1 + Captures(r))
    ensures var o := Expected(r, s, sticky, p, caps);
            (o.Some? <==> MatchExists(r, s, sticky, p)) && (o.Some? ==> MatchFound(r, s, sticky, p, o.value.caps))
  {
    hide TryAt, Search, Filled, MatchesFrom, StartOf, Captures, Unset;
    if sticky { TryMeans(r, s, p, caps); } else { SearchMeans(r, s, p, caps); }
  }
}
