/** What a pattern means: a declarative match relation, and the ordered list of results of backtracking. */
module ReSemantics {
  import opened ReBytes
  import opened ReChars
  import opened ReClass
  import opened ReCode

  datatype Subject = Subject(units: seq<nat>, mode: CharMode, multiLine: bool)

  /** Units fit their width. */
  predicate SubjectOk(s: Subject) {
    forall i :: 0 <= i < |s.units| ==> s.units[i] < if s.mode.Latin1? then 256 else U16
  }

  lemma CharFits(s: Subject, i: nat)
    requires SubjectOk(s) && i < |s.units|
    ensures CharAt(s.units, s.mode, i) <= MAX_CODE_POINT
  {}

  predicate IsCharNode(r: Node) { r.Literal? || r.AnyButLine? || r.AnyChar? || r.Class? }

  predicate CharTakes(r: Node, c: nat) {
    match r
    case Literal(l) => c == l
    case AnyButLine => !LineTerminator(c)
    case AnyChar => true
    case Class(points) => InClass(points, c)
    case _ => false
  }

  predicate IsAssertNode(r: Node) { r.Bol? || r.Eol? || r.Word? }

  predicate AssertHolds(r: Node, s: Subject, i: nat)
    requires i <= |s.units|
  {
    match r
    case Bol => AtLineStart(s.units, s.mode, s.multiLine, i)
    case Eol => AtLineEnd(s.units, s.mode, s.multiLine, i)
    case Word(negated) => AtWordBoundary(s.units, s.mode, i) != negated
    case _ => false
  }

  // ----- the match relation -----

  /** Pattern r matches the characters from i up to j. */
  ghost predicate Matches(r: Node, s: Subject, i: nat, j: nat)
    decreases r, 1, 0, 0
  {
    if IsCharNode(r) then i < |s.units| && j == NextPos(s.units, s.mode, i) && CharTakes(r, CharAt(s.units, s.mode, i))
    else if IsAssertNode(r) then i == j && i <= |s.units| && AssertHolds(r, s, i)
    else match r
      case Capture(b) => Matches(b, s, i, j)
      case Look(negated, b) => i == j && (negated <==> !(exists k :: Matches(b, s, i, k)))
      case Then(_, _) => exists k :: SplitsAt(r, s, i, k, j)
      case Or(a, b) => Matches(a, s, i, j) || Matches(b, s, i, j)
      case Repeat(_, _, _, _) => exists n: nat :: RepeatsBy(r, s, n, i, j)
      case _ => i == j
  }

  /** The two parts of a sequence meet at k. */
  ghost predicate SplitsAt(r: Node, s: Subject, i: nat, k: nat, j: nat)
    requires r.Then?
    decreases r, 0, 0, 0
  {
    Matches(r.first, s, i, k) && Matches(r.second, s, k, j)
  }

  /** n copies, a number the repetition allows. */
  ghost predicate RepeatsBy(r: Node, s: Subject, n: nat, i: nat, j: nat)
    requires r.Repeat?
    decreases r, 0, 0, 0
  {
    r.min <= n && (r.max == INT32_MAX || n <= r.max) && Times(r.body, s, n, i, j)
  }

  /** n consecutive matches of r lead from i to j. */
  ghost predicate Times(r: Node, s: Subject, n: nat, i: nat, j: nat)
    decreases r, 2, n, 1
  {
    if n == 0 then i == j else exists k :: FirstAt(r, s, n, i, k, j)
  }

  /** The first of n matches ends at k. */
  ghost predicate FirstAt(r: Node, s: Subject, n: nat, i: nat, k: nat, j: nat)
    requires n > 0
    decreases r, 2, n, 0
  {
    Matches(r, s, i, k) && Times(r, s, n - 1, k, j)
  }

  lemma TimesFirst(r: Node, s: Subject, n: nat, i: nat, j: nat) returns (k: nat)
    requires n > 0 && Times(r, s, n, i, j)
    ensures Matches(r, s, i, k) && Times(r, s, n - 1, k, j)
  {
    k :| FirstAt(r, s, n, i, k, j);
  }

  lemma TimesNext(r: Node, s: Subject, n: nat, i: nat, k: nat, j: nat)
    requires Matches(r, s, i, k) && Times(r, s, n, k, j)
    ensures Times(r, s, n + 1, i, j)
  {
    assert FirstAt(r, s, n + 1, i, k, j);
  }

  lemma {:induction false} TimesJoin(r: Node, s: Subject, m: nat, n: nat, i: nat, l: nat, j: nat)
    requires Times(r, s, m, i, l) && Times(r, s, n, l, j)
    ensures Times(r, s, m + n, i, j)
    decreases m
  {
    if m > 0 {
      var k := TimesFirst(r, s, m, i, l);
      TimesJoin(r, s, m - 1, n, k, l, j);
      TimesNext(r, s, m - 1 + n, i, k, j);
    }
  }

  lemma {:induction false} TimesSplit(r: Node, s: Subject, m: nat, n: nat, i: nat, j: nat) returns (l: nat)
    requires Times(r, s, m + n, i, j)
    ensures Times(r, s, m, i, l) && Times(r, s, n, l, j)
    decreases m
  {
    if m == 0 {
      l := i;
    } else {
      var k := TimesFirst(r, s, m + n, i, j);
      l := TimesSplit(r, s, m - 1, n, k, j);
      TimesNext(r, s, m - 1, i, k, l);
    }
  }

  // ----- ordered results -----

  /** A result of matching: the position reached and the capture array (start and end per group, -1 unset). */
  datatype Res = Res(pos: nat, caps: seq<int>)

  function SetCap(caps: seq<int>, k: nat, v: int): (r: seq<int>)
    ensures |r| == |caps|
  {
    if k < |caps| then caps[k := v] else caps
  }

  /** save_reset: groups first to last are unset. */
  function ResetCaps(caps: seq<int>, first: nat, last: int): (r: seq<int>)
    ensures |r| == |caps|
    decreases last - first
  {
    if first > last then caps else ResetCaps(SetCap(SetCap(caps, 2 * first, -1), 2 * first + 1, -1), first + 1, last)
  }

  function CloseGroup(ys: seq<Res>, cc: nat): (r: seq<Res>)
    ensures |r| == |ys|
  {
    if ys == [] then [] else [Res(ys[0].pos, SetCap(ys[0].caps, 2 * cc + 1, ys[0].pos))] + CloseGroup(ys[1..], cc)
  }

  function Left(s: Subject, i: nat): nat { if i <= |s.units| then |s.units| - i else 0 }

  /** The result before the mandatory copies of a repetition. */
  function Entry(r: Node, cc: nat, min: nat, x: Res): Res {
    if min == 0 && Captures(r) > 0 then Res(x.pos, ResetCaps(x.caps, cc, cc + Captures(r) - 1)) else x
  }

  /** All results of r at x, in the order the engine tries them. */
  function Results(r: Node, s: Subject, cc: nat, x: Res): seq<Res>
    decreases r, 0, 0, 0, 0
  {
    if x.pos > |s.units| then []
    else if IsCharNode(r) then
      if x.pos < |s.units| && CharTakes(r, CharAt(s.units, s.mode, x.pos)) then [Res(NextPos(s.units, s.mode, x.pos), x.caps)] else []
    else if IsAssertNode(r) then if AssertHolds(r, s, x.pos) then [x] else []
    else match r
      case Capture(b) => CloseGroup(Results(b, s, cc + 1, Res(x.pos, SetCap(x.caps, 2 * cc, x.pos))), cc)
      case Look(negated, b) =>
        var ys := Results(b, s, cc, x);
        if negated then (if ys == [] then [x] else []) else (if ys == [] then [] else [Res(x.pos, ys[0].caps)])
      case Then(a, b) => EachResult(b, s, cc + Captures(a), Results(a, s, cc, x))
      case Or(a, b) => Results(a, s, cc, x) + Results(b, s, cc + Captures(a), x)
      case Repeat(b, min, max, greedy) =>
        var ys := Copies(b, s, cc, min, [Entry(b, cc, min, x)]);
        if max == INT32_MAX then EachStar(b, s, cc, greedy, ys)
        else EachUpTo(b, s, cc, if min <= max then max - min else 0, greedy, ys)
      case _ => [x]
  }

  /** The results of r after each of xs. */
  function EachResult(r: Node, s: Subject, cc: nat, xs: seq<Res>): seq<Res>
    decreases r, 1, 0, 0, |xs|
  {
    if xs == [] then [] else Results(r, s, cc, xs[0]) + EachResult(r, s, cc, xs[1..])
  }

  /** n copies of r after each of xs. */
  function Copies(r: Node, s: Subject, cc: nat, n: nat, xs: seq<Res>): seq<Res>
    decreases r, 2, n, 0, 0
  {
    if n == 0 then xs else Copies(r, s, cc, n - 1, EachResult(r, s, cc, xs))
  }

  /** Any number of copies of r from x: an empty copy leaves the loop. */
  function Star(r: Node, s: Subject, cc: nat, greedy: bool, x: Res): seq<Res>
    decreases r, 2, Left(s, x.pos), 1, 0
  {
    var more := StarAfter(r, s, cc, greedy, Results(r, s, cc, x), x.pos);
    if greedy then more + [x] else [x] + more
  }

  function StarAfter(r: Node, s: Subject, cc: nat, greedy: bool, ys: seq<Res>, i: nat): seq<Res>
    decreases r, 2, Left(s, i), 0, |ys|
  {
    if ys == [] then []
    else (if ys[0].pos <= i || ys[0].pos > |s.units| then [ys[0]] else Star(r, s, cc, greedy, ys[0]))
         + StarAfter(r, s, cc, greedy, ys[1..], i)
  }

  function EachStar(r: Node, s: Subject, cc: nat, greedy: bool, xs: seq<Res>): seq<Res>
    decreases r, 3, 0, 0, |xs|
  {
    if xs == [] then [] else Star(r, s, cc, greedy, xs[0]) + EachStar(r, s, cc, greedy, xs[1..])
  }

  /** At most n copies of r from x. */
  function UpTo(r: Node, s: Subject, cc: nat, n: nat, greedy: bool, x: Res): seq<Res>
    decreases r, 2, n, 0, 0
  {
    if n == 0 then [x]
    else
      var more := EachUpTo(r, s, cc, n - 1, greedy, Results(r, s, cc, x));
      if greedy then more + [x] else [x] + more
  }

  function EachUpTo(r: Node, s: Subject, cc: nat, n: nat, greedy: bool, xs: seq<Res>): seq<Res>
    decreases r, 2, n, 1, |xs|
  {
    if xs == [] then [] else UpTo(r, s, cc, n, greedy, xs[0]) + EachUpTo(r, s, cc, n, greedy, xs[1..])
  }

  // ----- ranges and progress of results -----

  /** Every result lies between lo and the end of the subject, at an unsplit position, with as many captures. */
  predicate Within(ys: seq<Res>, s: Subject, lo: int, caps: int) {
    forall k :: 0 <= k < |ys| ==> ResultOk(ys[k], s, lo, caps)
  }

  predicate ResultOk(y: Res, s: Subject, lo: int, caps: int) {
    lo <= y.pos <= |s.units| && Boundary(s.units, s.mode, y.pos) && |y.caps| == caps
  }

  lemma WithinAppend(xs: seq<Res>, ys: seq<Res>, s: Subject, lo: int, caps: int)
    requires Within(xs, s, lo, caps) && Within(ys, s, lo, caps)
    ensures Within(xs + ys, s, lo, caps)
  {}

  lemma {:induction false} CloseGroupWithin(ys: seq<Res>, cc: nat, s: Subject, lo: int, caps: int)
    requires Within(ys, s, lo, caps)
    ensures Within(CloseGroup(ys, cc), s, lo, caps)
    decreases |ys|
  {
    if ys != [] {
      assert ResultOk(ys[0], s, lo, caps);
      forall k | 0 <= k < |ys[1..]| ensures ResultOk(ys[1..][k], s, lo, caps) { assert ys[1..][k] == ys[k + 1]; }
      CloseGroupWithin(ys[1..], cc, s, lo, caps);
    }
  }

  lemma TailWithin(ys: seq<Res>, s: Subject, lo: int, caps: int)
    requires Within(ys, s, lo, caps) && ys != []
    ensures ResultOk(ys[0], s, lo, caps) && Within(ys[1..], s, lo, caps)
  {
    forall k | 0 <= k < |ys[1..]| ensures ResultOk(ys[1..][k], s, lo, caps) { assert ys[1..][k] == ys[k + 1]; }
  }

  lemma WithinWeaken(ys: seq<Res>, s: Subject, lo: int, lo2: int, caps: int)
    requires Within(ys, s, lo, caps) && lo2 <= lo
    ensures Within(ys, s, lo2, caps)
  {
    forall k | 0 <= k < |ys| ensures ResultOk(ys[k], s, lo2, caps) { assert ResultOk(ys[k], s, lo, caps); }
  }

  lemma {:induction false} ResultsWithin(r: Node, s: Subject, cc: nat, x: Res)
    requires ResultOk(x, s, 0, |x.caps|)
    ensures Within(Results(r, s, cc, x), s, x.pos, |x.caps|)
    decreases r, 0, 0, 0, 0
  {
    if IsCharNode(r) {
      if x.pos < |s.units| { NextIsBoundary(s.units, s.mode, x.pos); }
    } else if !IsAssertNode(r) {
      match r
      case Capture(b) =>
        var x1 := Res(x.pos, SetCap(x.caps, 2 * cc, x.pos));
        ResultsWithin(b, s, cc + 1, x1);
        CloseGroupWithin(Results(b, s, cc + 1, x1), cc, s, x.pos, |x.caps|);
      case Look(negated, b) =>
        ResultsWithin(b, s, cc, x);
        if Results(b, s, cc, x) != [] { TailWithin(Results(b, s, cc, x), s, x.pos, |x.caps|); }
      case Then(a, b) =>
        ResultsWithin(a, s, cc, x);
        EachWithin(b, s, cc + Captures(a), Results(a, s, cc, x), x.pos, |x.caps|);
      case Or(a, b) =>
        ResultsWithin(a, s, cc, x);
        ResultsWithin(b, s, cc + Captures(a), x);
        WithinAppend(Results(a, s, cc, x), Results(b, s, cc + Captures(a), x), s, x.pos, |x.caps|);
      case Repeat(b, min, max, greedy) =>
        var e := Entry(b, cc, min, x);
        assert Within([e], s, x.pos, |x.caps|);
        CopiesWithin(b, s, cc, min, [e], x.pos, |x.caps|);
        var ys := Copies(b, s, cc, min, [e]);
        if max == INT32_MAX { EachStarWithin(b, s, cc, greedy, ys, x.pos, |x.caps|); }
        else { EachUpToWithin(b, s, cc, if min <= max then max - min else 0, greedy, ys, x.pos, |x.caps|); }
      case _ =>
    }
  }

  lemma {:induction false} EachWithin(r: Node, s: Subject, cc: nat, xs: seq<Res>, lo: nat, caps: int)
    requires Within(xs, s, lo, caps)
    ensures Within(EachResult(r, s, cc, xs), s, lo, caps)
    decreases r, 1, 0, 0, |xs|
  {
    if xs != [] {
      TailWithin(xs, s, lo, caps);
      ResultsWithin(r, s, cc, xs[0]);
      WithinWeaken(Results(r, s, cc, xs[0]), s, xs[0].pos, lo, caps);
      EachWithin(r, s, cc, xs[1..], lo, caps);
      WithinAppend(Results(r, s, cc, xs[0]), EachResult(r, s, cc, xs[1..]), s, lo, caps);
    }
  }

  lemma {:induction false} CopiesWithin(r: Node, s: Subject, cc: nat, n: nat, xs: seq<Res>, lo: nat, caps: int)
    requires Within(xs, s, lo, caps)
    ensures Within(Copies(r, s, cc, n, xs), s, lo, caps)
    decreases r, 2, n, 0, 0
  {
    if n > 0 {
      EachWithin(r, s, cc, xs, lo, caps);
      CopiesWithin(r, s, cc, n - 1, EachResult(r, s, cc, xs), lo, caps);
    }
  }

  lemma {:induction false} StarWithin(r: Node, s: Subject, cc: nat, greedy: bool, x: Res)
    requires ResultOk(x, s, 0, |x.caps|)
    ensures Within(Star(r, s, cc, greedy, x), s, x.pos, |x.caps|)
    decreases r, 2, Left(s, x.pos), 1, 0
  {
    ResultsWithin(r, s, cc, x);
    StarAfterWithin(r, s, cc, greedy, Results(r, s, cc, x), x.pos, |x.caps|);
    var more := StarAfter(r, s, cc, greedy, Results(r, s, cc, x), x.pos);
    assert Within([x], s, x.pos, |x.caps|);
    WithinAppend(more, [x], s, x.pos, |x.caps|);
    WithinAppend([x], more, s, x.pos, |x.caps|);
  }

  lemma {:induction false} StarAfterWithin(r: Node, s: Subject, cc: nat, greedy: bool, ys: seq<Res>, i: nat, caps: int)
    requires Within(ys, s, i, caps)
    ensures Within(StarAfter(r, s, cc, greedy, ys, i), s, i, caps)
    decreases r, 2, Left(s, i), 0, |ys|
  {
    if ys != [] {
      TailWithin(ys, s, i, caps);
      StarAfterWithin(r, s, cc, greedy, ys[1..], i, caps);
      if ys[0].pos > i {
        StarWithin(r, s, cc, greedy, ys[0]);
        WithinWeaken(Star(r, s, cc, greedy, ys[0]), s, ys[0].pos, i, caps);
        WithinAppend(Star(r, s, cc, greedy, ys[0]), StarAfter(r, s, cc, greedy, ys[1..], i), s, i, caps);
      } else {
        WithinAppend([ys[0]], StarAfter(r, s, cc, greedy, ys[1..], i), s, i, caps);
      }
    }
  }

  lemma {:induction false} EachStarWithin(r: Node, s: Subject, cc: nat, greedy: bool, xs: seq<Res>, lo: nat, caps: int)
    requires Within(xs, s, lo, caps)
    ensures Within(EachStar(r, s, cc, greedy, xs), s, lo, caps)
    decreases r, 3, 0, 0, |xs|
  {
    if xs != [] {
      TailWithin(xs, s, lo, caps);
      StarWithin(r, s, cc, greedy, xs[0]);
      WithinWeaken(Star(r, s, cc, greedy, xs[0]), s, xs[0].pos, lo, caps);
      EachStarWithin(r, s, cc, greedy, xs[1..], lo, caps);
      WithinAppend(Star(r, s, cc, greedy, xs[0]), EachStar(r, s, cc, greedy, xs[1..]), s, lo, caps);
    }
  }

  lemma {:induction false} UpToWithin(r: Node, s: Subject, cc: nat, n: nat, greedy: bool, x: Res)
    requires ResultOk(x, s, 0, |x.caps|)
    ensures Within(UpTo(r, s, cc, n, greedy, x), s, x.pos, |x.caps|)
    decreases r, 2, n, 0, 0
  {
    assert Within([x], s, x.pos, |x.caps|);
    if n > 0 {
      ResultsWithin(r, s, cc, x);
      EachUpToWithin(r, s, cc, n - 1, greedy, Results(r, s, cc, x), x.pos, |x.caps|);
      var more := EachUpTo(r, s, cc, n - 1, greedy, Results(r, s, cc, x));
      WithinAppend(more, [x], s, x.pos, |x.caps|);
      WithinAppend([x], more, s, x.pos, |x.caps|);
    }
  }

  lemma {:induction false} EachUpToWithin(r: Node, s: Subject, cc: nat, n: nat, greedy: bool, xs: seq<Res>, lo: nat, caps: int)
    requires Within(xs, s, lo, caps)
    ensures Within(EachUpTo(r, s, cc, n, greedy, xs), s, lo, caps)
    decreases r, 2, n, 1, |xs|
  {
    if xs != [] {
      TailWithin(xs, s, lo, caps);
      UpToWithin(r, s, cc, n, greedy, xs[0]);
      WithinWeaken(UpTo(r, s, cc, n, greedy, xs[0]), s, xs[0].pos, lo, caps);
      EachUpToWithin(r, s, cc, n, greedy, xs[1..], lo, caps);
      WithinAppend(UpTo(r, s, cc, n, greedy, xs[0]), EachUpTo(r, s, cc, n, greedy, xs[1..]), s, lo, caps);
    }
  }

  // ----- the results are the matches -----

  /** Some result stops at j. */
  predicate Stops(ys: seq<Res>, j: nat) { exists k :: 0 <= k < |ys| && ys[k].pos == j }

  lemma StopsAppend(xs: seq<Res>, ys: seq<Res>, j: nat)
    ensures Stops(xs + ys, j) <==> Stops(xs, j) || Stops(ys, j)
  {
    if k :| 0 <= k < |xs| && xs[k].pos == j { assert (xs + ys)[k].pos == j; }
    if k :| 0 <= k < |ys| && ys[k].pos == j { assert (xs + ys)[|xs| + k].pos == j; }
    if Stops(xs + ys, j) {
      var k :| 0 <= k < |xs + ys| && (xs + ys)[k].pos == j;
      if k < |xs| { assert xs[k].pos == j; } else { assert ys[k - |xs|].pos == j; }
    }
  }

  lemma StopsOne(x: Res, j: nat)
    ensures Stops([x], j) <==> x.pos == j
  {
    if x.pos == j { assert [x][0].pos == j; }
  }

  lemma StopsHead(ys: seq<Res>, j: nat)
    requires ys != []
    ensures Stops(ys, j) <==> ys[0].pos == j || Stops(ys[1..], j)
  {
    assert ys == [ys[0]] + ys[1..];
    StopsOne(ys[0], j);
    StopsAppend([ys[0]], ys[1..], j);
  }

  lemma {:induction false} CloseGroupStops(ys: seq<Res>, cc: nat, j: nat)
    ensures Stops(CloseGroup(ys, cc), j) <==> Stops(ys, j)
    decreases |ys|
  {
    if ys != [] {
      CloseGroupStops(ys[1..], cc, j);
      StopsHead(ys, j);
      var h := Res(ys[0].pos, SetCap(ys[0].caps, 2 * cc + 1, ys[0].pos));
      StopsOne(h, j);
      StopsAppend([h], CloseGroup(ys[1..], cc), j);
    }
  }

  /** The positions of the results of r at x are exactly the ends of its matches from there. */
  lemma {:induction false} ResultsMatch(r: Node, s: Subject, cc: nat, x: Res, j: nat)
    requires ResultOk(x, s, 0, |x.caps|) && WellFormed(r)
    ensures Stops(Results(r, s, cc, x), j) <==> Matches(r, s, x.pos, j)
    decreases r, 0, 1, 0, 0
  {
    hide Results, Matches, Stops;
    match r
    case Capture(_) => CaptureMatch(r, s, cc, x, j);
    case Look(_, _) => LookMatch(r, s, cc, x, j);
    case Then(_, _) => ThenMatch(r, s, cc, x, j);
    case Or(_, _) => OrMatch(r, s, cc, x, j);
    case Repeat(_, _, _, _) => RepeatMatch(r, s, cc, x, j);
    case _ => LeafMatch(r, s, cc, x, j);
  }

  lemma LeafMatch(r: Node, s: Subject, cc: nat, x: Res, j: nat)
    requires ResultOk(x, s, 0, |x.caps|) && (IsCharNode(r) || IsAssertNode(r) || r.Empty?)
    ensures Stops(Results(r, s, cc, x), j) <==> Matches(r, s, x.pos, j)
  {
    StopsOne(x, j);
    if x.pos < |s.units| { StopsOne(Res(NextPos(s.units, s.mode, x.pos), x.caps), j); }
  }

  lemma {:induction false} CaptureMatch(r: Node, s: Subject, cc: nat, x: Res, j: nat)
    requires ResultOk(x, s, 0, |x.caps|) && WellFormed(r) && r.Capture?
    ensures Stops(Results(r, s, cc, x), j) <==> Matches(r, s, x.pos, j)
    decreases r, 0, 0, 0, 0
  {
    var b := r.body;
    var x1 := Res(x.pos, SetCap(x.caps, 2 * cc, x.pos));
    ResultsMatch(b, s, cc + 1, x1, j);
    CloseGroupStops(Results(b, s, cc + 1, x1), cc, j);
  }

  lemma {:induction false} OrMatch(r: Node, s: Subject, cc: nat, x: Res, j: nat)
    requires ResultOk(x, s, 0, |x.caps|) && WellFormed(r) && r.Or?
    ensures Stops(Results(r, s, cc, x), j) <==> Matches(r, s, x.pos, j)
    decreases r, 0, 0, 0, 0
  {
    hide Parsed, Stops;
    var a, b := r.left, r.right;
    ResultsMatch(a, s, cc, x, j);
    ResultsMatch(b, s, cc + Captures(a), x, j);
    StopsAppend(Results(a, s, cc, x), Results(b, s, cc + Captures(a), x), j);
  }

  lemma SplitsBy(r: Node, s: Subject, i: nat, k: nat, j: nat)
    requires r.Then? && Matches(r.first, s, i, k) && Matches(r.second, s, k, j)
    ensures Matches(r, s, i, j)
  {
    assert SplitsAt(r, s, i, k, j);
  }

  lemma SplitPoint(r: Node, s: Subject, i: nat, j: nat) returns (k: nat)
    requires r.Then? && Matches(r, s, i, j)
    ensures Matches(r.first, s, i, k) && Matches(r.second, s, k, j)
  {
    k :| SplitsAt(r, s, i, k, j);
  }

  lemma ThenResults(r: Node, s: Subject, cc: nat, x: Res)
    requires r.Then? && x.pos <= |s.units|
    ensures Results(r, s, cc, x) == EachResult(r.second, s, cc + Captures(r.first), Results(r.first, s, cc, x))
  {}

  lemma {:induction false} ThenMatch(r: Node, s: Subject, cc: nat, x: Res, j: nat)
    requires ResultOk(x, s, 0, |x.caps|) && WellFormed(r) && r.Then?
    ensures Stops(Results(r, s, cc, x), j) <==> Matches(r, s, x.pos, j)
    decreases r, 0, 0, 0, 0
  {
    hide Stops, Results, EachResult, Matches;
    var a, b := r.first, r.second;
    ThenResults(r, s, cc, x);
    ResultsWithin(a, s, cc, x);
    var xs := Results(a, s, cc, x);
    EachMatch(b, s, cc + Captures(a), xs, x.pos, |x.caps|, j);
    if k :| Stops(xs, k) && Matches(b, s, k, j) {
      ResultsMatch(a, s, cc, x, k);
      SplitsBy(r, s, x.pos, k, j);
    }
    if Matches(r, s, x.pos, j) {
      var k := SplitPoint(r, s, x.pos, j);
      ResultsMatch(a, s, cc, x, k);
    }
  }

  lemma {:induction false} LookMatch(r: Node, s: Subject, cc: nat, x: Res, j: nat)
    requires ResultOk(x, s, 0, |x.caps|) && WellFormed(r) && r.Look?
    ensures Stops(Results(r, s, cc, x), j) <==> Matches(r, s, x.pos, j)
    decreases r, 0, 0, 0, 0
  {
    var b := r.body;
    var ys := Results(b, s, cc, x);
    StopsOne(x, j);
    if ys != [] {
      ResultsMatch(b, s, cc, x, ys[0].pos);
      StopsHead(ys, ys[0].pos);
      StopsOne(Res(x.pos, ys[0].caps), j);
    }
    if k :| Matches(b, s, x.pos, k) { ResultsMatch(b, s, cc, x, k); }
  }

  lemma {:induction false} EachMatch(r: Node, s: Subject, cc: nat, xs: seq<Res>, lo: nat, caps: int, j: nat)
    requires Within(xs, s, lo, caps) && WellFormed(r)
    ensures Stops(EachResult(r, s, cc, xs), j) <==> exists k :: Stops(xs, k) && Matches(r, s, k, j)
    decreases r, 1, 0, 0, |xs|
  {
    if xs != [] {
      TailWithin(xs, s, lo, caps);
      ResultsMatch(r, s, cc, xs[0], j);
      EachMatch(r, s, cc, xs[1..], lo, caps, j);
      StopsAppend(Results(r, s, cc, xs[0]), EachResult(r, s, cc, xs[1..]), j);
      StopsHead(xs, xs[0].pos);
      if k :| Stops(xs[1..], k) && Matches(r, s, k, j) { StopsHead(xs, k); }
      if k :| Stops(xs, k) && Matches(r, s, k, j) { StopsHead(xs, k); }
    }
  }

  lemma TimesZero(r: Node, s: Subject, j: nat)
    ensures forall i :: Times(r, s, 0, i, j) <==> i == j
  {}

  lemma {:induction false} CopiesMatch(r: Node, s: Subject, cc: nat, n: nat, xs: seq<Res>, lo: nat, caps: int, j: nat)
    requires Within(xs, s, lo, caps) && WellFormed(r)
    ensures Stops(Copies(r, s, cc, n, xs), j) <==> exists i :: Stops(xs, i) && Times(r, s, n, i, j)
    decreases r, 2, n, 0, 0
  {
    hide Stops, Times, Results, EachResult, Matches;
    if n == 0 { TimesZero(r, s, j); }
    if n > 0 {
      EachWithin(r, s, cc, xs, lo, caps);
      var ys := EachResult(r, s, cc, xs);
      CopiesMatch(r, s, cc, n - 1, ys, lo, caps, j);
      if k :| Stops(ys, k) && Times(r, s, n - 1, k, j) {
        EachMatch(r, s, cc, xs, lo, caps, k);
        var i :| Stops(xs, i) && Matches(r, s, i, k);
        TimesNext(r, s, n - 1, i, k, j);
      }
      if i :| Stops(xs, i) && Times(r, s, n, i, j) {
        var k := TimesFirst(r, s, n, i, j);
        EachMatch(r, s, cc, xs, lo, caps, k);
      }
    }
  }

  /** Any number of iterations, empty ones included. */
  ghost predicate SomeTimes(r: Node, s: Subject, i: nat, j: nat) { exists n: nat :: Times(r, s, n, i, j) }

  lemma SomeTimesStep(r: Node, s: Subject, i: nat, k: nat, j: nat)
    requires Matches(r, s, i, k) && SomeTimes(r, s, k, j)
    ensures SomeTimes(r, s, i, j)
  {
    var n: nat :| Times(r, s, n, k, j);
    TimesNext(r, s, n, i, k, j);
  }

  lemma {:induction false} StarSound(r: Node, s: Subject, cc: nat, greedy: bool, x: Res, j: nat)
    requires ResultOk(x, s, 0, |x.caps|) && WellFormed(r) && Stops(Star(r, s, cc, greedy, x), j)
    ensures SomeTimes(r, s, x.pos, j)
    decreases r, 2, Left(s, x.pos), 1, 0
  {
    var ys := Results(r, s, cc, x);
    ResultsWithin(r, s, cc, x);
    var more := StarAfter(r, s, cc, greedy, ys, x.pos);
    StopsAppend(more, [x], j);
    StopsAppend([x], more, j);
    StopsOne(x, j);
    if x.pos == j {
      assert Times(r, s, 0, x.pos, j);
    } else {
      StarAfterSound(r, s, cc, greedy, ys, x, j);
    }
  }

  lemma {:induction false} StarAfterSound(r: Node, s: Subject, cc: nat, greedy: bool, ys: seq<Res>, x: Res, j: nat)
    requires ResultOk(x, s, 0, |x.caps|) && WellFormed(r) && Within(ys, s, x.pos, |x.caps|)
    requires forall k :: Stops(ys, k) ==> Stops(Results(r, s, cc, x), k)
    requires Stops(StarAfter(r, s, cc, greedy, ys, x.pos), j)
    ensures SomeTimes(r, s, x.pos, j)
    decreases r, 2, Left(s, x.pos), 0, |ys|
  {
    if ys != [] {
      TailWithin(ys, s, x.pos, |x.caps|);
      var y := ys[0];
      StopsHead(ys, y.pos);
      ResultsMatch(r, s, cc, x, y.pos);
      var head := if y.pos <= x.pos || y.pos > |s.units| then [y] else Star(r, s, cc, greedy, y);
      StopsAppend(head, StarAfter(r, s, cc, greedy, ys[1..], x.pos), j);
      if Stops(head, j) {
        if y.pos <= x.pos {
          StopsOne(y, j);
          assert Times(r, s, 0, y.pos, j);
        } else {
          StarSound(r, s, cc, greedy, y, j);
        }
        SomeTimesStep(r, s, x.pos, y.pos, j);
      } else {
        forall k | Stops(ys[1..], k) ensures Stops(Results(r, s, cc, x), k) { StopsHead(ys, k); }
        StarAfterSound(r, s, cc, greedy, ys[1..], x, j);
      }
    }
  }

  lemma {:induction false} StarAfterHas(r: Node, s: Subject, cc: nat, greedy: bool, ys: seq<Res>, i: nat, k: nat, j: nat)
    requires k < |ys| && i < ys[k].pos <= |s.units| && Stops(Star(r, s, cc, greedy, ys[k]), j)
    ensures Stops(StarAfter(r, s, cc, greedy, ys, i), j)
    decreases k
  {
    var head := if ys[0].pos <= i || ys[0].pos > |s.units| then [ys[0]] else Star(r, s, cc, greedy, ys[0]);
    StopsAppend(head, StarAfter(r, s, cc, greedy, ys[1..], i), j);
    if k > 0 { StarAfterHas(r, s, cc, greedy, ys[1..], i, k - 1, j); }
  }

  lemma StarStops(r: Node, s: Subject, cc: nat, greedy: bool, x: Res, j: nat)
    ensures Stops(Star(r, s, cc, greedy, x), j) <==>
            x.pos == j || Stops(StarAfter(r, s, cc, greedy, Results(r, s, cc, x), x.pos), j)
  {
    hide Stops, Results, StarAfter;
    var more := StarAfter(r, s, cc, greedy, Results(r, s, cc, x), x.pos);
    StopsAppend(more, [x], j);
    StopsAppend([x], more, j);
    StopsOne(x, j);
  }

  /** Empty iterations can be dropped: whatever n iterations reach, the loop reaches. */
  lemma {:induction false} StarComplete(r: Node, s: Subject, cc: nat, greedy: bool, x: Res, n: nat, j: nat)
    requires ResultOk(x, s, 0, |x.caps|) && WellFormed(r) && Times(r, s, n, x.pos, j)
    ensures Stops(Star(r, s, cc, greedy, x), j)
    decreases r, 2, n, 1, 0
  {
    hide Results, Star, StarAfter, Matches;
    StarStops(r, s, cc, greedy, x, j);
    if n > 0 {
      var ys := Results(r, s, cc, x);
      ResultsWithin(r, s, cc, x);
      var k := TimesFirst(r, s, n, x.pos, j);
      if k == x.pos {
        StarComplete(r, s, cc, greedy, x, n - 1, j);
      } else {
        ResultsMatch(r, s, cc, x, k);
        var t :| 0 <= t < |ys| && ys[t].pos == k;
        assert ResultOk(ys[t], s, x.pos, |x.caps|);
        StarComplete(r, s, cc, greedy, ys[t], n - 1, j);
        StarAfterHas(r, s, cc, greedy, ys, x.pos, t, j);
      }
    }
  }

  lemma {:induction false} EachStarMatch(r: Node, s: Subject, cc: nat, greedy: bool, xs: seq<Res>, lo: nat, caps: int, j: nat)
    requires Within(xs, s, lo, caps) && WellFormed(r)
    ensures Stops(EachStar(r, s, cc, greedy, xs), j) <==> exists i :: Stops(xs, i) && SomeTimes(r, s, i, j)
    decreases r, 3, 0, 0, |xs|
  {
    if xs != [] {
      TailWithin(xs, s, lo, caps);
      EachStarMatch(r, s, cc, greedy, xs[1..], lo, caps, j);
      StopsAppend(Star(r, s, cc, greedy, xs[0]), EachStar(r, s, cc, greedy, xs[1..]), j);
      StopsHead(xs, xs[0].pos);
      if Stops(Star(r, s, cc, greedy, xs[0]), j) { StarSound(r, s, cc, greedy, xs[0], j); }
      if i :| Stops(xs[1..], i) && SomeTimes(r, s, i, j) { StopsHead(xs, i); }
      if i :| Stops(xs, i) && SomeTimes(r, s, i, j) {
        StopsHead(xs, i);
        if i == xs[0].pos {
          var n: nat :| Times(r, s, n, i, j);
          StarComplete(r, s, cc, greedy, xs[0], n, j);
        }
      }
    }
  }

  /** At most n iterations. */
  ghost predicate AtMost(r: Node, s: Subject, n: nat, i: nat, j: nat) { exists k: nat :: k <= n && Times(r, s, k, i, j) }

  /** The first of at most n iterations ends at k. */
  ghost predicate AtMostVia(r: Node, s: Subject, n: nat, i: nat, k: nat, j: nat)
    requires n > 0
  {
    Matches(r, s, i, k) && AtMost(r, s, n - 1, k, j)
  }

  lemma AtMostStep(r: Node, s: Subject, n: nat, i: nat, j: nat)
    requires n > 0
    ensures AtMost(r, s, n, i, j) <==> i == j || exists k :: AtMostVia(r, s, n, i, k, j)
  {
    hide Matches;
    if t: nat :| t <= n && Times(r, s, t, i, j) {
      if t > 0 {
        var k := TimesFirst(r, s, t, i, j);
        assert AtMost(r, s, n - 1, k, j);
        assert AtMostVia(r, s, n, i, k, j);
      }
    }
    if i == j { assert Times(r, s, 0, i, j); }
    if k :| AtMostVia(r, s, n, i, k, j) {
      var t: nat :| t <= n - 1 && Times(r, s, t, k, j);
      TimesNext(r, s, t, i, k, j);
      AtMostBy(r, s, n, t + 1, i, j);
    }
  }

  lemma AtMostBy(r: Node, s: Subject, n: nat, t: nat, i: nat, j: nat)
    requires t <= n && Times(r, s, t, i, j)
    ensures AtMost(r, s, n, i, j)
  {}

  lemma AtMostZero(r: Node, s: Subject, i: nat, j: nat)
    ensures AtMost(r, s, 0, i, j) <==> i == j
  {
    if i == j { assert Times(r, s, 0, i, j); }
  }

  lemma {:induction false} UpToMatch(r: Node, s: Subject, cc: nat, n: nat, greedy: bool, x: Res, j: nat)
    requires ResultOk(x, s, 0, |x.caps|) && WellFormed(r)
    ensures Stops(UpTo(r, s, cc, n, greedy, x), j) <==> AtMost(r, s, n, x.pos, j)
    decreases r, 2, n, 0, 0
  {
    hide Stops, AtMost, Results, Matches, EachUpTo;
    StopsOne(x, j);
    if n == 0 {
      AtMostZero(r, s, x.pos, j);
    } else {
      AtMostStep(r, s, n, x.pos, j);
      var ys := Results(r, s, cc, x);
      ResultsWithin(r, s, cc, x);
      var more := EachUpTo(r, s, cc, n - 1, greedy, ys);
      EachUpToMatch(r, s, cc, n - 1, greedy, ys, x.pos, |x.caps|, j);
      StopsAppend(more, [x], j);
      StopsAppend([x], more, j);
      if i :| Stops(ys, i) && AtMost(r, s, n - 1, i, j) {
        ResultsMatch(r, s, cc, x, i);
        assert AtMostVia(r, s, n, x.pos, i, j);
      }
      if i :| AtMostVia(r, s, n, x.pos, i, j) { ResultsMatch(r, s, cc, x, i); }
    }
  }

  lemma {:induction false} EachUpToMatch(r: Node, s: Subject, cc: nat, n: nat, greedy: bool, xs: seq<Res>, lo: nat, caps: int, j: nat)
    requires Within(xs, s, lo, caps) && WellFormed(r)
    ensures Stops(EachUpTo(r, s, cc, n, greedy, xs), j) <==> exists i :: Stops(xs, i) && AtMost(r, s, n, i, j)
    decreases r, 2, n, 1, |xs|
  {
    if xs != [] {
      TailWithin(xs, s, lo, caps);
      UpToMatch(r, s, cc, n, greedy, xs[0], j);
      EachUpToMatch(r, s, cc, n, greedy, xs[1..], lo, caps, j);
      StopsAppend(UpTo(r, s, cc, n, greedy, xs[0]), EachUpTo(r, s, cc, n, greedy, xs[1..]), j);
      StopsHead(xs, xs[0].pos);
      if i :| Stops(xs[1..], i) && AtMost(r, s, n, i, j) { StopsHead(xs, i); }
      if i :| Stops(xs, i) && AtMost(r, s, n, i, j) { StopsHead(xs, i); }
    }
  }

  lemma {:induction false} RepeatMatch(r: Node, s: Subject, cc: nat, x: Res, j: nat)
    requires ResultOk(x, s, 0, |x.caps|) && WellFormed(r) && r.Repeat?
    ensures Stops(Results(r, s, cc, x), j) <==> Matches(r, s, x.pos, j)
    decreases r, 0, 0, 0, 0
  {
    hide Matches, Stops, Copies, EachStar, EachUpTo;
    var b, min, max := r.body, r.min, r.max;
    var e := Entry(b, cc, min, x);
    assert Within([e], s, x.pos, |x.caps|);
    CopiesWithin(b, s, cc, min, [e], x.pos, |x.caps|);
    var ys := Copies(b, s, cc, min, [e]);
    if max == INT32_MAX {
      EachStarMatch(b, s, cc, r.greedy, ys, x.pos, |x.caps|, j);
    } else {
      EachUpToMatch(b, s, cc, max - min, r.greedy, ys, x.pos, |x.caps|, j);
    }
    StopsOne(e, x.pos);
    if i :| Stops(ys, i) && TailTimes(r, s, i, j) {
      CopiesMatch(b, s, cc, min, [e], x.pos, |x.caps|, i);
      var i0 :| Stops([e], i0) && Times(b, s, min, i0, i);
      StopsOne(e, i0);
      TailJoins(r, s, x.pos, i, j);
    }
    if Matches(r, s, x.pos, j) {
      var i := TailPoint(r, s, x.pos, j);
      CopiesMatch(b, s, cc, min, [e], x.pos, |x.caps|, i);
    }
  }

  /** The copies after the mandatory ones. */
  ghost predicate TailTimes(r: Node, s: Subject, i: nat, j: nat)
    requires r.Repeat? && WellFormed(r)
  {
    if r.max == INT32_MAX then SomeTimes(r.body, s, i, j) else AtMost(r.body, s, r.max - r.min, i, j)
  }

  lemma TailJoins(r: Node, s: Subject, i0: nat, i: nat, j: nat)
    requires r.Repeat? && WellFormed(r) && Times(r.body, s, r.min, i0, i) && TailTimes(r, s, i, j)
    ensures Matches(r, s, i0, j)
  {
    var n: nat :| (r.max == INT32_MAX || n <= r.max - r.min) && Times(r.body, s, n, i, j);
    TimesJoin(r.body, s, r.min, n, i0, i, j);
    assert RepeatsBy(r, s, r.min + n, i0, j);
  }

  lemma TailPoint(r: Node, s: Subject, i0: nat, j: nat) returns (i: nat)
    requires r.Repeat? && WellFormed(r) && Matches(r, s, i0, j)
    ensures Times(r.body, s, r.min, i0, i) && TailTimes(r, s, i, j)
  {
    var n: nat :| RepeatsBy(r, s, n, i0, j);
    i := TimesSplit(r.body, s, r.min, n - r.min, i0, j);
  }
}
