/** What is recorded for the capture groups: a relation between the states before and after a match, told entry by entry,
    that holds of every result of backtracking. */
module ReGroups {
  import opened ReBytes
  import opened ReChars
  import opened ReClass
  import opened ReCode
  import opened ReSemantics
  import opened ReProgress

  // ----- the relation -----

  /** One entry of the capture array has changed, to v. */
  predicate Stored(a: seq<int>, b: seq<int>, i: int, v: int) {
    |b| == |a| && forall j :: 0 <= j < |a| ==> b[j] == if j == i then v else a[j]
  }

  /** The groups of a repetition without mandatory copies are unset on entry; nothing else changes. */
  predicate Entered(a: seq<int>, b: seq<int>, unset: bool, lo: int, hi: int) {
    |b| == |a| && forall j :: 0 <= j < |a| ==> b[j] == if unset && lo <= j < hi then -1 else a[j]
  }

  /** Pattern r, whose first group is cc, can lead from x to y. */
  ghost predicate Leads(r: Node, s: Subject, cc: nat, x: Res, y: Res)
    decreases r, 1, 0, 0
  {
    if IsCharNode(r) then Matches(r, s, x.pos, y.pos) && y.caps == x.caps
    else if IsAssertNode(r) then Matches(r, s, x.pos, y.pos) && y == x
    else match r
      case Capture(_) => exists w: Res, z: Res :: LeadsGroup(r, s, cc, x, w, z, y)
      case Look(negated, b) =>
        y.pos == x.pos && (if negated then y == x && !exists j: nat :: Matches(b, s, x.pos, j)
                           else exists z: Res :: Leads(b, s, cc, x, z) && y.caps == z.caps)
      case Then(_, _) => exists z: Res :: LeadsBoth(r, s, cc, x, z, y)
      case Or(a, b) => Leads(a, s, cc, x, y) || Leads(b, s, cc + Captures(a), x, y)
      case Repeat(_, _, _, _) => exists n: nat, e: Res :: LeadsBy(r, s, cc, n, x, e, y)
      case _ => y == x
  }

  /** A group: its start is stored, its body matches, its end is stored. */
  ghost predicate LeadsGroup(r: Node, s: Subject, cc: nat, x: Res, w: Res, z: Res, y: Res)
    requires r.Capture?
    decreases r, 0, 0, 0
  {
    && w.pos == x.pos && Stored(x.caps, w.caps, 2 * cc, x.pos) && Leads(r.body, s, cc + 1, w, z)
    && y.pos == z.pos && Stored(z.caps, y.caps, 2 * cc + 1, z.pos)
  }

  ghost predicate LeadsBoth(r: Node, s: Subject, cc: nat, x: Res, z: Res, y: Res)
    requires r.Then?
    decreases r, 0, 0, 0
  {
    Leads(r.first, s, cc, x, z) && Leads(r.second, s, cc + Captures(r.first), z, y)
  }

  /** A repetition: entered at e, then n copies, a number it allows. */
  ghost predicate LeadsBy(r: Node, s: Subject, cc: nat, n: nat, x: Res, e: Res, y: Res)
    requires r.Repeat?
    decreases r, 0, 0, 0
  {
    && e.pos == x.pos && Entered(x.caps, e.caps, r.min == 0, 2 * cc, 2 * (cc + Captures(r)))
    && r.min <= n && (r.max == INT32_MAX || n <= r.max) && Chain(r.body, s, cc, n, e, y)
  }

  /** n copies of r in a row. */
  ghost predicate Chain(r: Node, s: Subject, cc: nat, n: nat, x: Res, y: Res)
    decreases r, 2, n, 1
  {
    if n == 0 then y == x else exists z: Res :: ChainFirst(r, s, cc, n, x, z, y)
  }

  ghost predicate ChainFirst(r: Node, s: Subject, cc: nat, n: nat, x: Res, z: Res, y: Res)
    requires n > 0
    decreases r, 2, n, 0
  {
    Leads(r, s, cc, x, z) && Chain(r, s, cc, n - 1, z, y)
  }

  lemma ChainNext(r: Node, s: Subject, cc: nat, n: nat, x: Res, z: Res, y: Res)
    requires Leads(r, s, cc, x, z) && Chain(r, s, cc, n, z, y)
    ensures Chain(r, s, cc, n + 1, x, y)
  {
    hide Leads;
    assert ChainFirst(r, s, cc, n + 1, x, z, y);
  }

  lemma ChainSplit(r: Node, s: Subject, cc: nat, n: nat, x: Res, y: Res) returns (z: Res)
    requires n > 0 && Chain(r, s, cc, n, x, y)
    ensures Leads(r, s, cc, x, z) && Chain(r, s, cc, n - 1, z, y)
  {
    z :| ChainFirst(r, s, cc, n, x, z, y);
  }

  lemma {:induction false} ChainJoin(r: Node, s: Subject, cc: nat, m: nat, n: nat, x: Res, z: Res, y: Res)
    requires Chain(r, s, cc, m, x, z) && Chain(r, s, cc, n, z, y)
    ensures Chain(r, s, cc, m + n, x, y)
    decreases m
  {
    hide Leads, Chain;
    if m == 0 {
      ChainNone(r, s, cc, x, z);
    } else {
      var w := ChainSplit(r, s, cc, m, x, z);
      ChainJoin(r, s, cc, m - 1, n, w, z, y);
      ChainNext(r, s, cc, m - 1 + n, x, w, y);
    }
  }

  lemma ChainNone(r: Node, s: Subject, cc: nat, x: Res, y: Res)
    ensures Chain(r, s, cc, 0, x, y) <==> y == x
  {}

  // ----- every result is led to -----

  lemma StoreIs(caps: seq<int>, i: nat, v: int)
    ensures Stored(caps, SetCap(caps, i, v), i, v)
  {}

  lemma {:induction false} ResetIs(caps: seq<int>, first: nat, last: int)
    ensures Entered(caps, ResetCaps(caps, first, last), true, 2 * first, 2 * (last + 1))
    decreases last - first
  {
    if first <= last { ResetIs(SetCap(SetCap(caps, 2 * first, -1), 2 * first + 1, -1), first + 1, last); }
  }

  lemma EntryIs(b: Node, cc: nat, min: nat, x: Res)
    ensures var e := Entry(b, cc, min, x); e.pos == x.pos && Entered(x.caps, e.caps, min == 0, 2 * cc, 2 * (cc + Captures(b)))
  {
    ResetIs(x.caps, cc, cc + Captures(b) - 1);
  }

  /** A closed group comes from a result of its body. */
  lemma {:induction false} CloseFrom(ys: seq<Res>, cc: nat, y: Res) returns (z: Res)
    requires y in CloseGroup(ys, cc)
    ensures z in ys && y.pos == z.pos && Stored(z.caps, y.caps, 2 * cc + 1, z.pos)
    decreases |ys|
  {
    var first := Res(ys[0].pos, SetCap(ys[0].caps, 2 * cc + 1, ys[0].pos));
    if y == first {
      z := ys[0];
      StoreIs(z.caps, 2 * cc + 1, z.pos);
    } else {
      assert y in CloseGroup(ys[1..], cc);
      z := CloseFrom(ys[1..], cc, y);
    }
  }

  lemma {:induction false} EachFrom(r: Node, s: Subject, cc: nat, xs: seq<Res>, y: Res) returns (z: Res)
    requires y in EachResult(r, s, cc, xs)
    ensures z in xs && y in Results(r, s, cc, z)
    decreases |xs|
  {
    hide Results;
    if y in Results(r, s, cc, xs[0]) { z := xs[0]; } else { z := EachFrom(r, s, cc, xs[1..], y); }
  }

  lemma {:induction false} EachStarFrom(r: Node, s: Subject, cc: nat, greedy: bool, xs: seq<Res>, y: Res) returns (z: Res)
    requires y in EachStar(r, s, cc, greedy, xs)
    ensures z in xs && y in Star(r, s, cc, greedy, z)
    decreases |xs|
  {
    hide Star;
    if y in Star(r, s, cc, greedy, xs[0]) { z := xs[0]; } else { z := EachStarFrom(r, s, cc, greedy, xs[1..], y); }
  }

  lemma {:induction false} EachUpToFrom(r: Node, s: Subject, cc: nat, n: nat, greedy: bool, xs: seq<Res>, y: Res) returns (z: Res)
    requires y in EachUpTo(r, s, cc, n, greedy, xs)
    ensures z in xs && y in UpTo(r, s, cc, n, greedy, z)
    decreases |xs|
  {
    hide UpTo;
    if y in UpTo(r, s, cc, n, greedy, xs[0]) { z := xs[0]; } else { z := EachUpToFrom(r, s, cc, n, greedy, xs[1..], y); }
  }

  /** After a body result: another round of the loop, or out of it. */
  lemma {:induction false} StarAfterFrom(r: Node, s: Subject, cc: nat, greedy: bool, ys: seq<Res>, i: nat, y: Res) returns (z: Res)
    requires y in StarAfter(r, s, cc, greedy, ys, i)
    ensures z in ys && (y == z || (i < z.pos <= |s.units| && y in Star(r, s, cc, greedy, z)))
    decreases |ys|
  {
    hide Star;
    var first := if ys[0].pos <= i || ys[0].pos > |s.units| then [ys[0]] else Star(r, s, cc, greedy, ys[0]);
    if y in first { z := ys[0]; } else { z := StarAfterFrom(r, s, cc, greedy, ys[1..], i, y); }
  }

  lemma AmongWithin(ys: seq<Res>, s: Subject, lo: int, caps: int, y: Res)
    requires Within(ys, s, lo, caps) && y in ys
    ensures ResultOk(y, s, lo, caps) && ResultOk(y, s, 0, caps)
  {
    var k :| 0 <= k < |ys| && ys[k] == y;
    assert ResultOk(ys[k], s, lo, caps);
  }

  ghost predicate Fit(x: Res, s: Subject) { ResultOk(x, s, 0, |x.caps|) }

  lemma FitLater(r: Node, s: Subject, cc: nat, x: Res, y: Res)
    requires Fit(x, s) && y in Results(r, s, cc, x)
    ensures Fit(y, s) && |y.caps| == |x.caps| && x.pos <= y.pos
  {
    hide Results;
    ResultsWithin(r, s, cc, x);
    AmongWithin(Results(r, s, cc, x), s, x.pos, |x.caps|, y);
  }

  /** Every result of backtracking is one the relation allows. */
  lemma {:induction false} ResultsLead(r: Node, s: Subject, cc: nat, x: Res, y: Res)
    requires Fit(x, s) && WellFormed(r) && y in Results(r, s, cc, x)
    ensures Leads(r, s, cc, x, y)
    decreases r, 1, 0, 0
  {
    hide Results, Leads, Fit, WellFormed;
    match r
    case Capture(_) => CaptureLeads(r, s, cc, x, y);
    case Look(_, _) => LookLeads(r, s, cc, x, y);
    case Then(_, _) => ThenLeads(r, s, cc, x, y);
    case Or(_, _) => OrLeads(r, s, cc, x, y);
    case Repeat(_, _, _, _) => RepeatLeads(r, s, cc, x, y);
    case _ => LeafLeads(r, s, cc, x, y);
  }

  lemma LeafLeads(r: Node, s: Subject, cc: nat, x: Res, y: Res)
    requires (IsCharNode(r) || IsAssertNode(r) || r.Empty?) && y in Results(r, s, cc, x)
    ensures Leads(r, s, cc, x, y)
  {}

  lemma {:induction false} CaptureLeads(r: Node, s: Subject, cc: nat, x: Res, y: Res)
    requires r.Capture? && Fit(x, s) && WellFormed(r) && y in Results(r, s, cc, x)
    ensures Leads(r, s, cc, x, y)
    decreases r, 0, 0, 0
  {
    hide CloseGroup, Fit, Stored;
    FitPos(x, s);
    var w := Res(x.pos, SetCap(x.caps, 2 * cc, x.pos));
    StoreIs(x.caps, 2 * cc, x.pos);
    FitStored(x, w, s);
    var z := CloseFrom(Results(r.body, s, cc + 1, w), cc, y);
    ResultsLead(r.body, s, cc + 1, w, z);
    assert LeadsGroup(r, s, cc, x, w, z, y);
  }

  lemma {:induction false} ThenLeads(r: Node, s: Subject, cc: nat, x: Res, y: Res)
    requires r.Then? && Fit(x, s) && WellFormed(r) && y in Results(r, s, cc, x)
    ensures Leads(r, s, cc, x, y)
    decreases r, 0, 0, 0
  {
    hide EachResult, Fit, Captures, Results;
    FitPos(x, s);
    ThenResults(r, s, cc, x);
    var z := EachFrom(r.second, s, cc + Captures(r.first), Results(r.first, s, cc, x), y);
    FitLater(r.first, s, cc, x, z);
    ResultsLead(r.first, s, cc, x, z);
    ResultsLead(r.second, s, cc + Captures(r.first), z, y);
    assert LeadsBoth(r, s, cc, x, z, y);
  }

  lemma {:induction false} OrLeads(r: Node, s: Subject, cc: nat, x: Res, y: Res)
    requires r.Or? && Fit(x, s) && WellFormed(r) && y in Results(r, s, cc, x)
    ensures Leads(r, s, cc, x, y)
    decreases r, 0, 0, 0
  {
    hide Fit, Captures, Results;
    FitPos(x, s);
    OrResults(r, s, cc, x);
    if y in Results(r.left, s, cc, x) { ResultsLead(r.left, s, cc, x, y); } else { ResultsLead(r.right, s, cc + Captures(r.left), x, y); }
  }

  lemma FitPos(x: Res, s: Subject)
    requires Fit(x, s)
    ensures x.pos <= |s.units|
  {}

  lemma FitStored(x: Res, w: Res, s: Subject)
    requires Fit(x, s) && w.pos == x.pos
    ensures Fit(w, s)
  {}

  lemma {:induction false} LookLeads(r: Node, s: Subject, cc: nat, x: Res, y: Res)
    requires r.Look? && Fit(x, s) && WellFormed(r) && y in Results(r, s, cc, x)
    ensures Leads(r, s, cc, x, y)
    decreases r, 0, 0, 0
  {
    hide Matches;
    var b := r.body;
    var ys := Results(b, s, cc, x);
    if ys == [] {
      forall j: nat ensures !Matches(b, s, x.pos, j) { ResultsMatch(b, s, cc, x, j); }
    } else {
      ResultsLead(b, s, cc, x, ys[0]);
    }
  }

  lemma {:induction false} RepeatLeads(r: Node, s: Subject, cc: nat, x: Res, y: Res)
    requires r.Repeat? && Fit(x, s) && WellFormed(r) && y in Results(r, s, cc, x)
    ensures Leads(r, s, cc, x, y)
    decreases r, 0, 0, 0
  {
    hide EachStar, EachUpTo, Copies, Results, Fit, Entered, Chain, Captures;
    var b, min, max := r.body, r.min, r.max;
    FitPos(x, s);
    RepeatResults(r, s, cc, x);
    var e := Entry(b, cc, min, x);
    EntryIs(b, cc, min, x);
    FitStored(x, e, s);
    var ys := Copies(b, s, cc, min, [e]);
    var z, n: nat;
    if max == INT32_MAX {
      z := EachStarFrom(b, s, cc, r.greedy, ys, y);
      var e1 := CopiesLead(b, s, cc, min, [e], z);
      n := StarLeads(b, s, cc, r.greedy, z, y);
    } else {
      z := EachUpToFrom(b, s, cc, max - min, r.greedy, ys, y);
      var e1 := CopiesLead(b, s, cc, min, [e], z);
      n := UpToLeads(b, s, cc, max - min, r.greedy, z, y);
    }
    ChainJoin(b, s, cc, min, n, e, z, y);
    RepeatGroups(r);
    assert LeadsBy(r, s, cc, min + n, x, e, y);
  }

  lemma RepeatGroups(r: Node)
    requires r.Repeat?
    ensures Captures(r) == Captures(r.body)
  {}

  ghost predicate AllFit(xs: seq<Res>, s: Subject) { forall x :: x in xs ==> Fit(x, s) }

  lemma EachAllFit(b: Node, s: Subject, cc: nat, xs: seq<Res>)
    requires AllFit(xs, s)
    ensures AllFit(EachResult(b, s, cc, xs), s)
  {
    hide EachResult, Results, Fit;
    forall y | y in EachResult(b, s, cc, xs) ensures Fit(y, s) {
      var z := EachFrom(b, s, cc, xs, y);
      FitLater(b, s, cc, z, y);
    }
  }

  /** The mandatory copies. */
  lemma {:induction false} CopiesLead(b: Node, s: Subject, cc: nat, n: nat, xs: seq<Res>, y: Res) returns (x: Res)
    requires WellFormed(b) && y in Copies(b, s, cc, n, xs) && AllFit(xs, s)
    ensures x in xs && Chain(b, s, cc, n, x, y) && Fit(y, s)
    decreases b, 2, n, 0
  {
    hide EachResult, Results, Fit, Chain, Leads;
    if n == 0 {
      x := y;
      ChainNone(b, s, cc, x, y);
    } else {
      EachAllFit(b, s, cc, xs);
      var z := CopiesLead(b, s, cc, n - 1, EachResult(b, s, cc, xs), y);
      x := EachFrom(b, s, cc, xs, z);
      ResultsLead(b, s, cc, x, z);
      ChainNext(b, s, cc, n - 1, x, z, y);
    }
  }

  lemma {:induction false} StarLeads(b: Node, s: Subject, cc: nat, greedy: bool, x: Res, y: Res) returns (n: nat)
    requires WellFormed(b) && y in Star(b, s, cc, greedy, x) && Fit(x, s)
    ensures Chain(b, s, cc, n, x, y)
    decreases b, 2, Left(s, x.pos), 0
  {
    hide StarAfter, Results, Fit, Chain, Leads;
    ChainNone(b, s, cc, y, y);
    if y == x {
      n := 0;
    } else {
      var z := StarAfterFrom(b, s, cc, greedy, Results(b, s, cc, x), x.pos, y);
      FitLater(b, s, cc, x, z);
      ResultsLead(b, s, cc, x, z);
      if y == z { n := 0; } else { n := StarLeads(b, s, cc, greedy, z, y); }
      ChainNext(b, s, cc, n, x, z, y);
      n := n + 1;
    }
  }

  lemma {:induction false} UpToLeads(b: Node, s: Subject, cc: nat, m: nat, greedy: bool, x: Res, y: Res) returns (n: nat)
    requires WellFormed(b) && y in UpTo(b, s, cc, m, greedy, x) && Fit(x, s)
    ensures n <= m && Chain(b, s, cc, n, x, y)
    decreases b, 2, m, 0
  {
    hide EachUpTo, Results, Fit, Chain, Leads;
    ChainNone(b, s, cc, y, y);
    if y == x {
      n := 0;
    } else {
      var z := EachUpToFrom(b, s, cc, m - 1, greedy, Results(b, s, cc, x), y);
      FitLater(b, s, cc, x, z);
      ResultsLead(b, s, cc, x, z);
      n := UpToLeads(b, s, cc, m - 1, greedy, z, y);
      ChainNext(b, s, cc, n, x, z, y);
      n := n + 1;
    }
  }

  // ----- what a match leaves alone, and that it is one -----

  predicate Frame(a: seq<int>, b: seq<int>, lo: int, hi: int) {
    |b| == |a| && forall j :: 0 <= j < |a| && !(lo <= j < hi) ==> b[j] == a[j]
  }

  /** A pattern changes the entries of its own groups only. */
  lemma {:induction false} LeadsFrame(r: Node, s: Subject, cc: nat, x: Res, y: Res)
    requires Leads(r, s, cc, x, y)
    ensures Frame(x.caps, y.caps, 2 * cc, 2 * (cc + Captures(r)))
    decreases r, 1, 0
  {
    match r
    case Capture(b) =>
      var w: Res, z: Res :| LeadsGroup(r, s, cc, x, w, z, y);
      LeadsFrame(b, s, cc + 1, w, z);
    case Look(negated, b) =>
      if !negated {
        var z: Res :| Leads(b, s, cc, x, z) && y.caps == z.caps;
        LeadsFrame(b, s, cc, x, z);
      }
    case Then(a, b) =>
      var z := ThenOf(r, s, cc, x, y);
      LeadsFrame(a, s, cc, x, z);
      LeadsFrame(b, s, cc + Captures(a), z, y);
    case Or(a, b) =>
      if Leads(a, s, cc, x, y) { LeadsFrame(a, s, cc, x, y); } else { LeadsFrame(b, s, cc + Captures(a), x, y); }
    case Repeat(b, _, _, _) =>
      var n: nat, e: Res :| LeadsBy(r, s, cc, n, x, e, y);
      ChainFrame(b, s, cc, n, e, y);
    case _ =>
  }

  lemma {:induction false} ChainFrame(b: Node, s: Subject, cc: nat, n: nat, x: Res, y: Res)
    requires Chain(b, s, cc, n, x, y)
    ensures Frame(x.caps, y.caps, 2 * cc, 2 * (cc + Captures(b)))
    decreases b, 2, n
  {
    hide Leads, Captures;
    if n > 0 {
      var z := ChainSplit(b, s, cc, n, x, y);
      LeadsFrame(b, s, cc, x, z);
      ChainFrame(b, s, cc, n - 1, z, y);
    }
  }

  lemma {:induction false} LeadsMatch(r: Node, s: Subject, cc: nat, x: Res, y: Res)
    requires Leads(r, s, cc, x, y)
    ensures Matches(r, s, x.pos, y.pos)
    decreases r, 1, 0
  {
    match r
    case Capture(b) =>
      var w: Res, z: Res :| LeadsGroup(r, s, cc, x, w, z, y);
      LeadsMatch(b, s, cc + 1, w, z);
    case Look(negated, b) =>
      if !negated {
        var z: Res :| Leads(b, s, cc, x, z) && y.caps == z.caps;
        LeadsMatch(b, s, cc, x, z);
      }
    case Then(a, b) =>
      var z := ThenOf(r, s, cc, x, y);
      LeadsMatch(a, s, cc, x, z);
      LeadsMatch(b, s, cc + Captures(a), z, y);
      SplitsBy(r, s, x.pos, z.pos, y.pos);
    case Or(a, b) =>
      if Leads(a, s, cc, x, y) { LeadsMatch(a, s, cc, x, y); } else { LeadsMatch(b, s, cc + Captures(a), x, y); }
    case Repeat(b, _, _, _) =>
      var n: nat, e: Res :| LeadsBy(r, s, cc, n, x, e, y);
      ChainMatch(b, s, cc, n, e, y);
      assert RepeatsBy(r, s, n, x.pos, y.pos);
    case _ =>
  }

  lemma {:induction false} ChainMatch(b: Node, s: Subject, cc: nat, n: nat, x: Res, y: Res)
    requires Chain(b, s, cc, n, x, y)
    ensures Times(b, s, n, x.pos, y.pos)
    decreases b, 2, n
  {
    hide Leads, Matches;
    if n > 0 {
      var z := ChainSplit(b, s, cc, n, x, y);
      LeadsMatch(b, s, cc, x, z);
      ChainMatch(b, s, cc, n - 1, z, y);
      TimesNext(b, s, n - 1, x.pos, z.pos, y.pos);
    }
  }

  // ----- every group -----

  /** The body of group k of r, counted from 0 in the order of the opening parentheses. */
  function GroupBody(r: Node, k: nat): Node
    requires k < Captures(r)
  {
    match r
    case Capture(b) => if k == 0 then b else GroupBody(b, k - 1)
    case Look(_, b) => GroupBody(b, k)
    case Then(a, b) => if k < Captures(a) then GroupBody(a, k) else GroupBody(b, k - Captures(a))
    case Or(a, b) => if k < Captures(a) then GroupBody(a, k) else GroupBody(b, k - Captures(a))
    case Repeat(b, _, _, _) => GroupBody(b, k)
  }

  /** Group k of r takes part in every match: it lies in no alternative, no optional part and no negative lookahead. */
  predicate Always(r: Node, k: nat)
    requires k < Captures(r)
  {
    match r
    case Capture(b) => k == 0 || Always(b, k - 1)
    case Look(negated, b) => !negated && Always(b, k)
    case Then(a, b) => if k < Captures(a) then Always(a, k) else Always(b, k - Captures(a))
    case Or(_, _) => false
    case Repeat(b, min, _, _) => min >= 1 && Always(b, k)
  }

  /** Unset, or the two ends of a match. */
  ghost predicate RecordOk(b: Node, s: Subject, i: int, j: int) { (i == -1 && j == -1) || (0 <= i && 0 <= j && Matches(b, s, i, j)) }

  ghost predicate RecordAt(r: Node, s: Subject, cc: nat, caps: seq<int>, k: nat)
    requires k < Captures(r) && 2 * (cc + Captures(r)) <= |caps|
  {
    RecordOk(GroupBody(r, k), s, caps[2 * (cc + k)], caps[2 * (cc + k) + 1])
  }

  /** Every group of r, the first of them being cc, is unset or holds a match of its body. */
  ghost predicate Recorded(r: Node, s: Subject, cc: nat, caps: seq<int>) {
    2 * (cc + Captures(r)) <= |caps| && forall k: nat :: k < Captures(r) ==> RecordAt(r, s, cc, caps, k)
  }

  lemma RecordedGroup(r: Node, s: Subject, cc: nat, caps: seq<int>)
    requires r.Capture?
    ensures Recorded(r, s, cc, caps) <==> Recorded(r.body, s, cc + 1, caps) && RecordOk(r.body, s, caps[2 * cc], caps[2 * cc + 1])
  {
    hide RecordOk;
    if Recorded(r, s, cc, caps) {
      assert RecordAt(r, s, cc, caps, 0);
      var d := cc + 1;
      forall k: nat | k < Captures(r.body) ensures RecordAt(r.body, s, d, caps, k) { assert RecordAt(r, s, cc, caps, k + 1); }
    }
    if Recorded(r.body, s, cc + 1, caps) && RecordOk(r.body, s, caps[2 * cc], caps[2 * cc + 1]) {
      forall k: nat | k < Captures(r) ensures RecordAt(r, s, cc, caps, k) {
        if k > 0 { assert RecordAt(r.body, s, cc + 1, caps, k - 1); }
      }
    }
  }

  lemma BothBody(r: Node, a: Node, b: Node, k: nat)
    requires (r == Then(a, b) || r == Or(a, b)) && k < Captures(r)
    ensures Captures(r) == Captures(a) + Captures(b)
    ensures GroupBody(r, k) == if k < Captures(a) then GroupBody(a, k) else GroupBody(b, k - Captures(a))
  {}

  /** The groups of a, then those of b. */
  lemma BothAt(r: Node, a: Node, b: Node, s: Subject, cc: nat, caps: seq<int>, k: nat)
    requires (r == Then(a, b) || r == Or(a, b)) && k < Captures(r) && 2 * (cc + Captures(r)) <= |caps|
    ensures Captures(r) == Captures(a) + Captures(b)
    ensures RecordAt(r, s, cc, caps, k) <==>
            if k < Captures(a) then RecordAt(a, s, cc, caps, k) else RecordAt(b, s, cc + Captures(a), caps, k - Captures(a))
  {
    hide RecordOk, GroupBody, Captures;
    BothBody(r, a, b, k);
    if k >= Captures(a) { assert cc + k == (cc + Captures(a)) + (k - Captures(a)); }
  }

  lemma BothCount(r: Node, a: Node, b: Node)
    requires r == Then(a, b) || r == Or(a, b)
    ensures Captures(r) == Captures(a) + Captures(b)
  {}

  lemma RecordedBoth(r: Node, a: Node, b: Node, s: Subject, cc: nat, caps: seq<int>)
    requires r == Then(a, b) || r == Or(a, b)
    ensures Recorded(r, s, cc, caps) <==> Recorded(a, s, cc, caps) && Recorded(b, s, cc + Captures(a), caps)
  {
    hide RecordAt, Captures;
    BothCount(r, a, b);
    var d := cc + Captures(a);
    if Recorded(r, s, cc, caps) {
      forall k: nat | k < Captures(a) ensures RecordAt(a, s, cc, caps, k) { BothAt(r, a, b, s, cc, caps, k); }
      forall k: nat | k < Captures(b) ensures RecordAt(b, s, d, caps, k) { BothAt(r, a, b, s, cc, caps, Captures(a) + k); }
    }
    if Recorded(a, s, cc, caps) && Recorded(b, s, d, caps) {
      forall k: nat | k < Captures(r) ensures RecordAt(r, s, cc, caps, k) { BothAt(r, a, b, s, cc, caps, k); }
    }
  }

  lemma RecordedInner(r: Node, s: Subject, cc: nat, caps: seq<int>)
    requires r.Look? || r.Repeat?
    ensures Recorded(r, s, cc, caps) <==> Recorded(r.body, s, cc, caps)
  {
    hide RecordOk;
    if Recorded(r, s, cc, caps) {
      forall k: nat | k < Captures(r.body) ensures RecordAt(r.body, s, cc, caps, k) { assert RecordAt(r, s, cc, caps, k); }
    }
    if Recorded(r.body, s, cc, caps) {
      forall k: nat | k < Captures(r) ensures RecordAt(r, s, cc, caps, k) { assert RecordAt(r.body, s, cc, caps, k); }
    }
  }

  /** Entries outside the groups of r do not matter. */
  lemma RecordedSame(r: Node, s: Subject, cc: nat, a: seq<int>, b: seq<int>)
    requires Recorded(r, s, cc, a) && |b| == |a|
    requires forall j :: 2 * cc <= j < 2 * (cc + Captures(r)) ==> b[j] == a[j]
    ensures Recorded(r, s, cc, b)
  {
    hide RecordOk, GroupBody;
    forall k: nat | k < Captures(r) ensures RecordAt(r, s, cc, b, k) { assert RecordAt(r, s, cc, a, k); }
  }

  lemma RecordedUnset(r: Node, s: Subject, cc: nat, a: seq<int>)
    requires 2 * (cc + Captures(r)) <= |a| && forall j :: 2 * cc <= j < 2 * (cc + Captures(r)) ==> a[j] == -1
    ensures Recorded(r, s, cc, a)
  {
    hide GroupBody, Matches;
    forall k: nat | k < Captures(r) ensures RecordAt(r, s, cc, a, k) {}
  }

  /** A match keeps the records right. */
  lemma {:induction false} LeadsRecords(r: Node, s: Subject, cc: nat, x: Res, y: Res)
    requires Leads(r, s, cc, x, y) && Recorded(r, s, cc, x.caps)
    ensures Recorded(r, s, cc, y.caps)
    decreases r, 1, 0
  {
    hide Leads, Recorded, Captures;
    match r
    case Capture(_) => CaptureRecords(r, s, cc, x, y);
    case Look(_, _) => LookRecords(r, s, cc, x, y);
    case Then(_, _) => ThenRecords(r, s, cc, x, y);
    case Or(_, _) => OrRecords(r, s, cc, x, y);
    case Repeat(_, _, _, _) => RepeatRecords(r, s, cc, x, y);
    case _ => LeafRecords(r, s, cc, x, y);
  }

  lemma LeafRecords(r: Node, s: Subject, cc: nat, x: Res, y: Res)
    requires (IsCharNode(r) || IsAssertNode(r) || r.Empty?) && Leads(r, s, cc, x, y) && Recorded(r, s, cc, x.caps)
    ensures Recorded(r, s, cc, y.caps)
  {}

  lemma {:induction false} CaptureRecords(r: Node, s: Subject, cc: nat, x: Res, y: Res)
    requires r.Capture? && Leads(r, s, cc, x, y) && Recorded(r, s, cc, x.caps)
    ensures Recorded(r, s, cc, y.caps)
    decreases r, 0, 0
  {
    hide Matches;
    var b := r.body;
    var w: Res, z: Res :| LeadsGroup(r, s, cc, x, w, z, y);
    hide Leads, Recorded;
    RecordedGroup(r, s, cc, x.caps);
    RecordedRoom(r, s, cc, x.caps);
    RecordedSame(b, s, cc + 1, x.caps, w.caps);
    LeadsRecords(b, s, cc + 1, w, z);
    LeadsFrame(b, s, cc + 1, w, z);
    LeadsMatch(b, s, cc + 1, w, z);
    RecordedSame(b, s, cc + 1, z.caps, y.caps);
    RecordedGroup(r, s, cc, y.caps);
  }

  lemma RecordedRoom(r: Node, s: Subject, cc: nat, caps: seq<int>)
    requires Recorded(r, s, cc, caps)
    ensures 2 * (cc + Captures(r)) <= |caps|
  {}

  lemma {:induction false} LookRecords(r: Node, s: Subject, cc: nat, x: Res, y: Res)
    requires r.Look? && Leads(r, s, cc, x, y) && Recorded(r, s, cc, x.caps)
    ensures Recorded(r, s, cc, y.caps)
    decreases r, 0, 0
  {
    hide Recorded, Matches;
    if !r.negated {
      var z: Res :| Leads(r.body, s, cc, x, z) && y.caps == z.caps;
      RecordedInner(r, s, cc, x.caps);
      LeadsRecords(r.body, s, cc, x, z);
      RecordedInner(r, s, cc, y.caps);
    }
  }

  lemma ThenOf(r: Node, s: Subject, cc: nat, x: Res, y: Res) returns (z: Res)
    requires r.Then? && Leads(r, s, cc, x, y)
    ensures Leads(r.first, s, cc, x, z) && Leads(r.second, s, cc + Captures(r.first), z, y)
  {
    z :| LeadsBoth(r, s, cc, x, z, y);
  }

  lemma OrOf(r: Node, s: Subject, cc: nat, x: Res, y: Res)
    requires r.Or? && Leads(r, s, cc, x, y)
    ensures Leads(r.left, s, cc, x, y) || Leads(r.right, s, cc + Captures(r.left), x, y)
  {}

  lemma {:induction false} ThenRecords(r: Node, s: Subject, cc: nat, x: Res, y: Res)
    requires r.Then? && Leads(r, s, cc, x, y) && Recorded(r, s, cc, x.caps)
    ensures Recorded(r, s, cc, y.caps)
    decreases r, 0, 0
  {
    hide Leads, Recorded, Captures;
    var a, b := r.first, r.second;
    var z := ThenOf(r, s, cc, x, y);
    BothCount(r, a, b);
    RecordedBoth(r, a, b, s, cc, x.caps);
    RecordedRoom(r, s, cc, x.caps);
    LeadsRecords(a, s, cc, x, z);
    LeadsFrame(a, s, cc, x, z);
    RecordedSame(b, s, cc + Captures(a), x.caps, z.caps);
    LeadsRecords(b, s, cc + Captures(a), z, y);
    LeadsFrame(b, s, cc + Captures(a), z, y);
    RecordedSame(a, s, cc, z.caps, y.caps);
    RecordedBoth(r, a, b, s, cc, y.caps);
  }

  lemma {:induction false} OrRecords(r: Node, s: Subject, cc: nat, x: Res, y: Res)
    requires r.Or? && Leads(r, s, cc, x, y) && Recorded(r, s, cc, x.caps)
    ensures Recorded(r, s, cc, y.caps)
    decreases r, 0, 0
  {
    hide Leads, Recorded, Captures;
    var a, b := r.left, r.right;
    OrOf(r, s, cc, x, y);
    BothCount(r, a, b);
    RecordedBoth(r, a, b, s, cc, x.caps);
    RecordedRoom(r, s, cc, x.caps);
    if Leads(a, s, cc, x, y) {
      LeadsRecords(a, s, cc, x, y);
      LeadsFrame(a, s, cc, x, y);
      RecordedSame(b, s, cc + Captures(a), x.caps, y.caps);
    } else {
      LeadsRecords(b, s, cc + Captures(a), x, y);
      LeadsFrame(b, s, cc + Captures(a), x, y);
      RecordedSame(a, s, cc, x.caps, y.caps);
    }
    RecordedBoth(r, a, b, s, cc, y.caps);
  }

  lemma {:induction false} RepeatRecords(r: Node, s: Subject, cc: nat, x: Res, y: Res)
    requires r.Repeat? && Leads(r, s, cc, x, y) && Recorded(r, s, cc, x.caps)
    ensures Recorded(r, s, cc, y.caps)
    decreases r, 0, 0
  {
    var n: nat, e: Res :| LeadsBy(r, s, cc, n, x, e, y);
    hide Recorded, Chain, Leads;
    RecordedRoom(r, s, cc, x.caps);
    if r.min == 0 { RecordedUnset(r, s, cc, e.caps); } else { RecordedSame(r, s, cc, x.caps, e.caps); }
    RecordedInner(r, s, cc, e.caps);
    ChainRecords(r.body, s, cc, n, e, y);
    RecordedInner(r, s, cc, y.caps);
  }

  lemma {:induction false} ChainRecords(b: Node, s: Subject, cc: nat, n: nat, x: Res, y: Res)
    requires Chain(b, s, cc, n, x, y) && Recorded(b, s, cc, x.caps)
    ensures Recorded(b, s, cc, y.caps)
    decreases b, 2, n
  {
    hide Leads, Recorded;
    if n > 0 {
      var z := ChainSplit(b, s, cc, n, x, y);
      LeadsRecords(b, s, cc, x, z);
      ChainRecords(b, s, cc, n - 1, z, y);
    }
  }

  // ----- groups that are always set -----

  /** A group that takes part in every match is set by it. */
  lemma {:induction false} LeadsSet(r: Node, s: Subject, cc: nat, x: Res, y: Res, k: nat)
    requires Leads(r, s, cc, x, y) && k < Captures(r) && Always(r, k) && 2 * (cc + Captures(r)) <= |x.caps|
    ensures |y.caps| == |x.caps| && y.caps[2 * (cc + k)] >= 0 && y.caps[2 * (cc + k) + 1] >= 0
    decreases r, 1, 0
  {
    match r
    case Capture(b) =>
      var w: Res, z: Res :| LeadsGroup(r, s, cc, x, w, z, y);
      LeadsFrame(b, s, cc + 1, w, z);
      if k > 0 { LeadsSet(b, s, cc + 1, w, z, k - 1); }
    case Look(negated, b) =>
      var z: Res :| Leads(b, s, cc, x, z) && y.caps == z.caps;
      LeadsSet(b, s, cc, x, z, k);
    case Then(a, b) =>
      var z := ThenOf(r, s, cc, x, y);
      LeadsFrame(a, s, cc, x, z);
      LeadsFrame(b, s, cc + Captures(a), z, y);
      if k < Captures(a) { LeadsSet(a, s, cc, x, z, k); } else { LeadsSet(b, s, cc + Captures(a), z, y, k - Captures(a)); }
    case Repeat(b, _, _, _) =>
      var n: nat, e: Res :| LeadsBy(r, s, cc, n, x, e, y);
      ChainSet(b, s, cc, n, e, y, k);
  }

  lemma {:induction false} ChainSet(b: Node, s: Subject, cc: nat, n: nat, x: Res, y: Res, k: nat)
    requires n > 0 && Chain(b, s, cc, n, x, y) && k < Captures(b) && Always(b, k) && 2 * (cc + Captures(b)) <= |x.caps|
    ensures |y.caps| == |x.caps| && y.caps[2 * (cc + k)] >= 0 && y.caps[2 * (cc + k) + 1] >= 0
    decreases b, 2, n
  {
    hide Leads, Captures, Always;
    var z := ChainSplit(b, s, cc, n, x, y);
    LeadsSet(b, s, cc, x, z, k);
    if n > 1 { ChainSet(b, s, cc, n - 1, z, y, k); } else { ChainNone(b, s, cc, z, y); }
  }

  // ----- results -----

  /** A group records where its body was entered and left, the last time. */
  lemma GroupEnds(r: Node, s: Subject, cc: nat, x: Res, y: Res)
    requires r.Capture? && Fit(x, s) && WellFormed(r) && y in Results(r, s, cc, x) && 2 * cc + 1 < |x.caps|
    ensures |y.caps| == |x.caps| && y.caps[2 * cc] == x.pos && y.caps[2 * cc + 1] == y.pos
  {
    ResultsLead(r, s, cc, x, y);
    var w: Res, z: Res :| LeadsGroup(r, s, cc, x, w, z, y);
    hide Leads;
    LeadsFrame(r.body, s, cc + 1, w, z);
  }

  /** A repetition that may be skipped has the result that skips it, with all its groups unset and everything else kept. */
  lemma SkippedUnsets(r: Node, s: Subject, cc: nat, x: Res) returns (y: Res)
    requires r.Repeat? && r.min == 0 && WellFormed(r) && Fit(x, s)
    ensures y in Results(r, s, cc, x) && y.pos == x.pos && |y.caps| == |x.caps|
    ensures forall j :: 0 <= j < |x.caps| ==> y.caps[j] == if 2 * cc <= j < 2 * (cc + Captures(r)) then -1 else x.caps[j]
  {
    hide Star, UpTo, Captures;
    y := Entry(r.body, cc, 0, x);
    EntryIs(r.body, cc, 0, x);
    RepeatGroups(r);
    RepeatResults(r, s, cc, x);
    assert Copies(r.body, s, cc, 0, [y]) == [y];
    OnlyOne(r, s, cc, y);
  }

  lemma OnlyOne(r: Node, s: Subject, cc: nat, y: Res)
    requires r.Repeat? && r.min == 0
    ensures y in RepeatEnds(r, s, cc, [y])
  {
    hide StarAfter, Results;
    assert [y][1..] == [];
    assert y in Star(r.body, s, cc, r.greedy, y) && y in UpTo(r.body, s, cc, r.max, r.greedy, y);
  }

  /** All groups of a result: unset or a match of their bodies, and set where they take part in every match. */
  lemma ResultsRecorded(r: Node, s: Subject, cc: nat, x: Res, y: Res)
    requires Fit(x, s) && WellFormed(r) && y in Results(r, s, cc, x) && Recorded(r, s, cc, x.caps)
    ensures Recorded(r, s, cc, y.caps) && Frame(x.caps, y.caps, 2 * cc, 2 * (cc + Captures(r)))
    ensures forall k: nat :: k < Captures(r) && Always(r, k) ==> SetAt(y.caps, cc + k)
  {
    hide Leads, Recorded, Results, Captures, Always;
    ResultsLead(r, s, cc, x, y);
    LeadsRecords(r, s, cc, x, y);
    LeadsFrame(r, s, cc, x, y);
    RecordedRoom(r, s, cc, x.caps);
    forall k: nat | k < Captures(r) && Always(r, k) ensures SetAt(y.caps, cc + k) { LeadsSet(r, s, cc, x, y, k); }
  }

  predicate SetAt(caps: seq<int>, k: nat) { 2 * k + 1 < |caps| && caps[2 * k] >= 0 && caps[2 * k + 1] >= 0 }
}
