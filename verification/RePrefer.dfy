/** Which of several matches comes first: what the order of the results means for a caller. */
module RePrefer {
  import opened ReBytes
  import opened ReChars
  import opened ReClass
  import opened ReCode
  import opened ReSemantics
  import opened ReProgress
  import opened ReGroups

  lemma Found(r: Node, s: Subject, cc: nat, x: Res, j: nat)
    requires Fit(x, s) && WellFormed(r) && Matches(r, s, x.pos, j)
    ensures Results(r, s, cc, x) != []
  {
    hide Results, Matches;
    ResultsMatch(r, s, cc, x, j);
  }

  /** An alternative that matches at all is preferred to those after it, with its own preferred match. */
  lemma LeftFirst(r: Node, s: Subject, cc: nat, x: Res, j: nat)
    requires r.Or? && Fit(x, s) && WellFormed(r) && Matches(r.left, s, x.pos, j)
    ensures var ys := Results(r, s, cc, x); ys != [] && Matches(r.left, s, x.pos, ys[0].pos)
    ensures Results(r.left, s, cc, x) != [] && Results(r, s, cc, x)[0] == Results(r.left, s, cc, x)[0]
  {
    hide Results, Matches;
    Found(r.left, s, cc, x, j);
    OrResults(r, s, cc, x);
    var y := Results(r.left, s, cc, x)[0];
    ResultsLead(r.left, s, cc, x, y);
    LeadsMatch(r.left, s, cc, x, y);
  }

  /** The preferred match of the first part is kept if the second part matches behind it. */
  lemma FirstThenSecond(r: Node, s: Subject, cc: nat, x: Res, j: nat)
    requires r.Then? && Fit(x, s) && WellFormed(r) && Results(r.first, s, cc, x) != []
    requires Matches(r.second, s, Results(r.first, s, cc, x)[0].pos, j)
    ensures var y := Results(r.first, s, cc, x)[0];
            && Results(r.second, s, cc + Captures(r.first), y) != [] && Results(r, s, cc, x) != []
            && Results(r, s, cc, x)[0] == Results(r.second, s, cc + Captures(r.first), y)[0]
  {
    hide Results, Matches, Captures;
    FitPos(x, s);
    var y := Results(r.first, s, cc, x)[0];
    FitLater(r.first, s, cc, x, y);
    Found(r.second, s, cc + Captures(r.first), y, j);
    ThenResults(r, s, cc, x);
  }

  /** A non-greedy repetition without mandatory copies prefers to match nothing. */
  lemma LazyStops(r: Node, s: Subject, cc: nat, x: Res)
    requires r.Repeat? && !r.greedy && r.min == 0 && WellFormed(r) && Fit(x, s)
    ensures var ys := Results(r, s, cc, x); ys != [] && ys[0].pos == x.pos
  {
    hide StarAfter, EachUpTo, Results;
    FitPos(x, s);
    RepeatResults(r, s, cc, x);
    EntryFirst(r, s, cc, x);
  }

  lemma EntryFirst(r: Node, s: Subject, cc: nat, x: Res)
    requires r.Repeat? && r.min == 0
    ensures var e := Entry(r.body, cc, 0, x);
            && e.pos == x.pos && |e.caps| == |x.caps| && Copies(r.body, s, cc, 0, [e]) == [e]
            && RepeatEnds(r, s, cc, [e]) == if r.max == INT32_MAX then Star(r.body, s, cc, r.greedy, e) else UpTo(r.body, s, cc, r.max, r.greedy, e)
  {
    hide Star, UpTo;
    var b, e := r.body, Entry(r.body, cc, 0, x);
    EntryIs(b, cc, 0, x);
    assert [e][1..] == [];
    assert EachStar(b, s, cc, r.greedy, [e]) == Star(b, s, cc, r.greedy, e) + EachStar(b, s, cc, r.greedy, []);
    assert EachUpTo(b, s, cc, r.max, r.greedy, [e]) == UpTo(b, s, cc, r.max, r.greedy, e) + EachUpTo(b, s, cc, r.max, r.greedy, []);
  }

  lemma StarHead(b: Node, s: Subject, cc: nat, x: Res)
    requires Results(b, s, cc, x) != [] && x.pos < Results(b, s, cc, x)[0].pos <= |s.units|
    ensures Star(b, s, cc, true, Results(b, s, cc, x)[0]) != [] && Star(b, s, cc, true, x) != []
    ensures Star(b, s, cc, true, x)[0] == Star(b, s, cc, true, Results(b, s, cc, x)[0])[0]
  {
    hide Results;
  }

  lemma UpToHead(b: Node, s: Subject, cc: nat, n: nat, x: Res)
    requires n > 0 && Results(b, s, cc, x) != []
    ensures UpTo(b, s, cc, n - 1, true, Results(b, s, cc, x)[0]) != [] && UpTo(b, s, cc, n, true, x) != []
    ensures UpTo(b, s, cc, n, true, x)[0] == UpTo(b, s, cc, n - 1, true, Results(b, s, cc, x)[0])[0]
  {
    hide Results;
  }

  /** A greedy repetition whose body matches, always consuming, prefers at least one iteration: it goes beyond what the
      preferred match of the body consumes. */
  lemma GreedyGoesOn(r: Node, s: Subject, cc: nat, x: Res, j: nat)
    requires r.Repeat? && r.greedy && r.min == 0 && r.max > 0 && WellFormed(r) && Fit(x, s)
    requires MinLen(r.body) > 0 && Matches(r.body, s, x.pos, j)
    ensures var ys := Results(r, s, cc, x); var e := Entry(r.body, cc, 0, x); var zs := Results(r.body, s, cc, e);
            ys != [] && zs != [] && x.pos < zs[0].pos <= ys[0].pos
  {
    hide Results, Star, UpTo, Within;
    var b := r.body;
    FitPos(x, s);
    RepeatResults(r, s, cc, x);
    EntryFirst(r, s, cc, x);
    var e := Entry(b, cc, 0, x);
    FitStored(x, e, s);
    Found(b, s, cc, e, j);
    var z := Results(b, s, cc, e)[0];
    ProgressWithin(b, s, cc, e);
    AmongWithin(Results(b, s, cc, e), s, e.pos + 1, |e.caps|, z);
    if r.max == INT32_MAX {
      StarHead(b, s, cc, e);
      StarWithin(b, s, cc, true, z);
      AmongWithin(Star(b, s, cc, true, z), s, z.pos, |z.caps|, Star(b, s, cc, true, z)[0]);
    } else {
      UpToHead(b, s, cc, r.max, e);
      UpToWithin(b, s, cc, r.max - 1, true, z);
      AmongWithin(UpTo(b, s, cc, r.max - 1, true, z), s, z.pos, |z.caps|, UpTo(b, s, cc, r.max - 1, true, z)[0]);
    }
  }

  // ----- one character, greedily -----

  lemma OneResult(b: Node, s: Subject, cc: nat, x: Res)
    requires IsCharNode(b) && x.pos <= |s.units|
    ensures var ys := Results(b, s, cc, x); |ys| <= 1 && (ys != [] ==> x.pos < ys[0].pos <= |s.units| && ys[0].pos == NextPos(s.units, s.mode, x.pos))
    ensures forall j: nat :: Matches(b, s, x.pos, j) ==> Results(b, s, cc, x) != [] && Results(b, s, cc, x)[0].pos == j
  {}

  lemma {:induction false} LongestStar(b: Node, s: Subject, cc: nat, x: Res, n: nat, j: nat)
    requires IsCharNode(b) && x.pos <= |s.units| && Times(b, s, n, x.pos, j)
    ensures Star(b, s, cc, true, x) != [] && j <= Star(b, s, cc, true, x)[0].pos
    decreases n
  {
    hide Results, Matches, Times;
    OneResult(b, s, cc, x);
    if n == 0 {
      NoTimes(b, s, x.pos, j);
      StarBeyond(b, s, cc, x);
    } else {
      var k := TimesFirst(b, s, n, x.pos, j);
      var z := Results(b, s, cc, x)[0];
      StarHead(b, s, cc, x);
      LongestStar(b, s, cc, z, n - 1, j);
    }
  }

  lemma NoTimes(b: Node, s: Subject, i: nat, j: nat)
    requires Times(b, s, 0, i, j)
    ensures i == j
  {}

  lemma {:induction false} StarBeyond(b: Node, s: Subject, cc: nat, x: Res)
    requires IsCharNode(b) && x.pos <= |s.units|
    ensures Star(b, s, cc, true, x) != [] && x.pos <= Star(b, s, cc, true, x)[0].pos
    decreases Left(s, x.pos)
  {
    hide Results;
    OneResult(b, s, cc, x);
    if Results(b, s, cc, x) != [] {
      StarHead(b, s, cc, x);
      StarBeyond(b, s, cc, Results(b, s, cc, x)[0]);
    }
  }

  /** A starred character, class or dot takes the longest run there is. */
  lemma LongestRun(r: Node, s: Subject, cc: nat, x: Res, j: nat)
    requires r.Repeat? && r.greedy && r.min == 0 && r.max == INT32_MAX && IsCharNode(r.body) && WellFormed(r) && Fit(x, s)
    requires Matches(r, s, x.pos, j)
    ensures var ys := Results(r, s, cc, x); ys != [] && j <= ys[0].pos
  {
    hide Results, Star, UpTo;
    FitPos(x, s);
    RepeatResults(r, s, cc, x);
    EntryFirst(r, s, cc, x);
    var n: nat :| RepeatsBy(r, s, n, x.pos, j);
    LongestStar(r.body, s, cc, Entry(r.body, cc, 0, x), n, j);
  }
}
