/** What the scans of the compiler establish: progress of loop bodies, straight-line atoms, stack room. */
module ReProgress {
  import opened ReBytes
  import opened ReChars
  import opened ReClass
  import opened ReCode
  import opened ReSemantics

  // ----- progress -----

  /** Either way of knowing that a match consumes something. */
  predicate Progresses(r: Node, cc: nat)
    requires WellFormed(r)
  {
    MinLen(r) > 0 || AdvanceScan(Code(r, cc)).Advances?
  }

  lemma SimpleLoopStays(body: seq<Instr>, min: nat, max: nat)
    requires SimpleCount(body) >= 0
    ensures AdvanceScan(SimpleLoop(body, min, max)).MayStay?
  {
    assert SimpleLoop(body, min, max)[0].SimpleGreedy?;
  }

  lemma CountedAdvances(body: seq<Instr>, min: nat)
    ensures AdvanceScan(CountedLoop(body, min)).Advances? ==> AdvanceScan(body).Advances?
    ensures !AdvanceScan(CountedLoop(body, min)).Unknown?
  {
    var f, g := [PushI32(min)], [Loop(-(Total(body) + 5)), Drop];
    AdvanceAppend(f + body, g);
    AdvanceAppend(f, body);
    assert g[0].Loop? && f[1..] == [];
  }

  /** A repetition whose code is seen to advance has a mandatory copy of an advancing body. */
  lemma RepeatAdvances(body: seq<Instr>, cc: nat, caps: nat, min: nat, max: nat, greedy: bool)
    requires min <= max
    ensures AdvanceScan(RepeatCode(body, cc, caps, min, max, greedy)).Advances? ==> min >= 1 && AdvanceScan(body).Advances?
  {
    hide RepeatTail, CountedLoop, SimpleLoop;
    var check := NeedsCheck(body, greedy);
    if UseSimple(body, max, greedy) {
      SimpleLoopStays(body, min, max);
    } else if min == 0 {
      var rest := if max == 0 then [] else if max == 1 then [Split(greedy, Total(body))] + body
                  else RepeatTail(body, max, max == INT32_MAX, greedy, check);
      AdvanceAppend(ResetCode(cc, caps), rest);
      TailStays(body, max, max == INT32_MAX, greedy, check);
      if max == 1 { assert rest[0].Split?; }
      if caps > 0 { assert ResetCode(cc, caps)[1..] == []; }
    } else if min == 1 && max == INT32_MAX && !check {
      var split := [Split(!greedy, -(Total(body) + 5))];
      AdvanceAppend(body, split);
      assert split[0].Split?;
    } else {
      AdvanceAppend(if min == 1 then body else CountedLoop(body, min), RepeatTail(body, max - min, max == INT32_MAX, greedy, check));
      TailStays(body, max - min, max == INT32_MAX, greedy, check);
      CountedAdvances(body, min);
    }
  }

  lemma TailStays(body: seq<Instr>, extra: nat, unbounded: bool, greedy: bool, check: bool)
    ensures !AdvanceScan(RepeatTail(body, extra, unbounded, greedy, check)).Advances?
  {
    if unbounded {
      assert StarLoop(body, greedy, check)[0].Split?;
    } else if extra > 0 {
      var c := CountedOption(body, extra, greedy);
      assert c[0].PushI32? && c[1..][0] == c[1] && c[1].Split?;
    }
  }

  lemma NoProgress(r: Node, cc: nat)
    requires WellFormed(r) && (r.Look? || r.Empty? || IsAssertNode(r) || r.Or?)
    ensures !AdvanceScan(Code(r, cc)).Advances? && (!r.Or? ==> MinLen(r) == 0)
  {
    var f := Code(r, cc);
    if IsAssertNode(r) { assert f[1..] == []; }
    if r.Look? { assert f[0].Lookahead?; }
    if r.Or? { assert f[0].Split?; }
  }

  /** The scan or the length bound is right: every result lies beyond the start. */
  lemma {:induction false} ProgressWithin(r: Node, s: Subject, cc: nat, x: Res)
    requires WellFormed(r) && Progresses(r, cc) && ResultOk(x, s, 0, |x.caps|)
    ensures Within(Results(r, s, cc, x), s, x.pos + 1, |x.caps|)
    decreases r, 1, 0
  {
    hide Results, Within, AdvanceScan, Code;
    if IsCharNode(r) {
      CharProgress(r, s, cc, x);
    } else if r.Look? || r.Empty? || IsAssertNode(r) {
      NoProgress(r, cc);
    } else {
      match r
      case Capture(_) => CaptureProgress(r, s, cc, x);
      case Then(_, _) => ThenProgress(r, s, cc, x);
      case Or(_, _) => OrProgress(r, s, cc, x);
      case Repeat(_, _, _, _) => RepeatProgress(r, s, cc, x);
    }
  }

  lemma CharProgress(r: Node, s: Subject, cc: nat, x: Res)
    requires IsCharNode(r) && ResultOk(x, s, 0, |x.caps|)
    ensures Within(Results(r, s, cc, x), s, x.pos + 1, |x.caps|)
  {
    if x.pos < |s.units| { NextIsBoundary(s.units, s.mode, x.pos); }
  }

  lemma {:induction false} CaptureProgress(r: Node, s: Subject, cc: nat, x: Res)
    requires r.Capture? && WellFormed(r) && Progresses(r, cc) && ResultOk(x, s, 0, |x.caps|)
    ensures Within(Results(r, s, cc, x), s, x.pos + 1, |x.caps|)
    decreases r, 0, 0
  {
    var b := r.body;
    var f, g, h := [SaveStart(cc)], Code(b, cc + 1), [SaveEnd(cc)];
    AdvanceAppend(f + g, h);
    AdvanceAppend(f, g);
    assert f[1..] == [] && h[1..] == [];
    var x1 := Res(x.pos, SetCap(x.caps, 2 * cc, x.pos));
    ProgressWithin(b, s, cc + 1, x1);
    CloseGroupWithin(Results(b, s, cc + 1, x1), cc, s, x.pos + 1, |x.caps|);
  }

  lemma OrResults(r: Node, s: Subject, cc: nat, x: Res)
    requires r.Or?
    ensures Results(r, s, cc, x) == if x.pos > |s.units| then [] else Results(r.left, s, cc, x) + Results(r.right, s, cc + Captures(r.left), x)
  {
    hide Captures;
  }

  lemma OrWithin(r: Node, s: Subject, cc: nat, x: Res, lo: nat, caps: nat)
    requires r.Or? && Within(Results(r.left, s, cc, x), s, lo, caps) && Within(Results(r.right, s, cc + Captures(r.left), x), s, lo, caps)
    ensures Within(Results(r, s, cc, x), s, lo, caps)
  {
    hide Results, Within, Captures;
    OrResults(r, s, cc, x);
    WithinAppend(Results(r.left, s, cc, x), Results(r.right, s, cc + Captures(r.left), x), s, lo, caps);
    NothingWithin(s, lo, caps);
  }

  lemma NothingWithin(s: Subject, lo: nat, caps: nat)
    ensures Within([], s, lo, caps)
  {}

  /** Only the length bound can tell that an alternative progresses. */
  lemma OrMinLen(r: Node, cc: nat)
    requires r.Or? && WellFormed(r) && Progresses(r, cc)
    ensures WellFormed(r.left) && WellFormed(r.right) && MinLen(r.left) > 0 && MinLen(r.right) > 0
  {
    NoProgress(r, cc);
  }

  lemma {:induction false} OrProgress(r: Node, s: Subject, cc: nat, x: Res)
    requires r.Or? && WellFormed(r) && Progresses(r, cc) && ResultOk(x, s, 0, |x.caps|)
    ensures Within(Results(r, s, cc, x), s, x.pos + 1, |x.caps|)
    decreases r, 0, 0
  {
    hide Parsed, AdvanceScan, Results, Within, Code, Captures, WellFormed, MinLen;
    OrMinLen(r, cc);
    ProgressWithin(r.left, s, cc, x);
    ProgressWithin(r.right, s, cc + Captures(r.left), x);
    OrWithin(r, s, cc, x, x.pos + 1, |x.caps|);
  }

  lemma {:induction false} ThenProgress(r: Node, s: Subject, cc: nat, x: Res)
    requires r.Then? && WellFormed(r) && Progresses(r, cc) && ResultOk(x, s, 0, |x.caps|)
    ensures Within(Results(r, s, cc, x), s, x.pos + 1, |x.caps|)
    decreases r, 0, 0
  {
    hide Results, EachResult, Within, Parsed;
    var a, b := r.first, r.second;
    ThenResults(r, s, cc, x);
    AdvanceAppend(Code(a, cc), Code(b, cc + Captures(a)));
    ResultsWithin(a, s, cc, x);
    if Progresses(a, cc) {
      ProgressWithin(a, s, cc, x);
      EachWithin(b, s, cc + Captures(a), Results(a, s, cc, x), x.pos + 1, |x.caps|);
    } else {
      EachProgress(b, s, cc + Captures(a), Results(a, s, cc, x), x.pos, |x.caps|);
    }
  }

  lemma {:induction false} EachProgress(r: Node, s: Subject, cc: nat, xs: seq<Res>, lo: nat, caps: int)
    requires WellFormed(r) && Progresses(r, cc) && Within(xs, s, lo, caps)
    ensures Within(EachResult(r, s, cc, xs), s, lo + 1, caps)
    decreases r, 2, |xs|
  {
    if xs != [] {
      TailWithin(xs, s, lo, caps);
      ProgressWithin(r, s, cc, xs[0]);
      WithinWeaken(Results(r, s, cc, xs[0]), s, xs[0].pos + 1, lo + 1, caps);
      EachProgress(r, s, cc, xs[1..], lo, caps);
      WithinAppend(Results(r, s, cc, xs[0]), EachResult(r, s, cc, xs[1..]), s, lo + 1, caps);
    }
  }

  /** What a repetition does with the results of its mandatory copies. */
  function RepeatEnds(r: Node, s: Subject, cc: nat, ys: seq<Res>): seq<Res>
    requires r.Repeat? && r.min <= r.max
  {
    if r.max == INT32_MAX then EachStar(r.body, s, cc, r.greedy, ys) else EachUpTo(r.body, s, cc, r.max - r.min, r.greedy, ys)
  }

  lemma RepeatResults(r: Node, s: Subject, cc: nat, x: Res)
    requires r.Repeat? && r.min <= r.max && x.pos <= |s.units|
    ensures Results(r, s, cc, x) == RepeatEnds(r, s, cc, Copies(r.body, s, cc, r.min, [Entry(r.body, cc, r.min, x)]))
  {
    hide EachStar, EachUpTo, Copies;
  }

  lemma RepeatEndsWithin(r: Node, s: Subject, cc: nat, ys: seq<Res>, lo: nat, caps: int)
    requires r.Repeat? && r.min <= r.max && Within(ys, s, lo, caps)
    ensures Within(RepeatEnds(r, s, cc, ys), s, lo, caps)
  {
    hide Within, EachStar, EachUpTo;
    if r.max == INT32_MAX { EachStarWithin(r.body, s, cc, r.greedy, ys, lo, caps); }
    else { EachUpToWithin(r.body, s, cc, r.max - r.min, r.greedy, ys, lo, caps); }
  }

  lemma BodyProgresses(r: Node, cc: nat)
    requires r.Repeat? && WellFormed(r) && Progresses(r, cc)
    ensures r.min >= 1 && Progresses(r.body, cc)
  {
    hide RepeatCode;
    RepeatAdvances(Code(r.body, cc), cc, Captures(r.body), r.min, r.max, r.greedy);
  }

  lemma EntryWithin(b: Node, cc: nat, min: nat, x: Res, s: Subject)
    requires ResultOk(x, s, 0, |x.caps|)
    ensures Within([Entry(b, cc, min, x)], s, x.pos, |x.caps|)
  {}

  lemma {:induction false} RepeatProgress(r: Node, s: Subject, cc: nat, x: Res)
    requires r.Repeat? && WellFormed(r) && Progresses(r, cc) && ResultOk(x, s, 0, |x.caps|)
    ensures Within(Results(r, s, cc, x), s, x.pos + 1, |x.caps|)
    decreases r, 0, 0
  {
    hide Results, Copies, EachStar, EachUpTo, EachResult, Within, Entry, RepeatEnds, Code, AdvanceScan;
    var b, min := r.body, r.min;
    BodyProgresses(r, cc);
    RepeatResults(r, s, cc, x);
    var e := Entry(b, cc, min, x);
    EntryWithin(b, cc, min, x, s);
    EachProgress(b, s, cc, [e], x.pos, |x.caps|);
    CopiesWithin(b, s, cc, min - 1, EachResult(b, s, cc, [e]), x.pos + 1, |x.caps|);
    CopiesFirst(b, s, cc, min, [e]);
    RepeatEndsWithin(r, s, cc, Copies(b, s, cc, min, [e]), x.pos + 1, |x.caps|);
  }

  lemma CopiesFirst(r: Node, s: Subject, cc: nat, n: nat, xs: seq<Res>)
    requires n > 0
    ensures Copies(r, s, cc, n, xs) == Copies(r, s, cc, n - 1, EachResult(r, s, cc, xs))
  {}

  // ----- straight-line atoms -----

  predicate InstrHolds(i: Instr, s: Subject, p: nat)
    requires p <= |s.units|
  {
    match i
    case LineStart => AtLineStart(s.units, s.mode, s.multiLine, p)
    case LineEnd => AtLineEnd(s.units, s.mode, s.multiLine, p)
    case WordBoundary(negated) => AtWordBoundary(s.units, s.mode, p) != negated
    case _ => false
  }

  /** Running code without branches from position p; -1 when it fails. */
  function Straight(f: seq<Instr>, s: Subject, p: nat): (e: int)
    requires p <= |s.units|
    ensures -1 <= e <= |s.units|
  {
    if f == [] then p
    else if IsChar(f[0]) then
      if p < |s.units| && Takes(f[0], CharAt(s.units, s.mode, p)) then Straight(f[1..], s, NextPos(s.units, s.mode, p)) else -1
    else if IsAssertion(f[0]) && InstrHolds(f[0], s, p) then Straight(f[1..], s, p)
    else -1
  }

  lemma {:induction false} StraightAppend(f: seq<Instr>, g: seq<Instr>, s: Subject, p: nat)
    requires p <= |s.units|
    ensures Straight(f + g, s, p) == if Straight(f, s, p) < 0 then -1 else Straight(g, s, Straight(f, s, p))
    decreases |f|
  {
    if f == [] {
      assert f + g == g;
    } else {
      assert (f + g)[1..] == f[1..] + g && (f + g)[0] == f[0];
      if IsChar(f[0]) {
        if p < |s.units| { StraightAppend(f[1..], g, s, NextPos(s.units, s.mode, p)); }
      } else {
        StraightAppend(f[1..], g, s, p);
      }
    }
  }

  /** A successful run moves by exactly the number of characters the scan counted. */
  lemma {:induction false} StraightSkips(f: seq<Instr>, s: Subject, p: nat)
    requires p <= |s.units| && SimpleCount(f) >= 0 && Straight(f, s, p) >= 0
    ensures Straight(f, s, p) == Skip(s.units, s.mode, p, SimpleCount(f))
    decreases |f|
  {
    if f != [] {
      if IsChar(f[0]) { StraightSkips(f[1..], s, NextPos(s.units, s.mode, p)); } else { StraightSkips(f[1..], s, p); }
    }
  }

  /** At most one result: the end of the straight-line run. */
  function StraightResult(f: seq<Instr>, s: Subject, x: Res): seq<Res>
    requires x.pos <= |s.units|
  {
    var e := Straight(f, s, x.pos);
    if e < 0 then [] else [Res(e, x.caps)]
  }

  lemma StraightOne(i: Instr, s: Subject, p: nat)
    requires p <= |s.units|
    ensures var e := Straight([i], s, p);
            && (IsChar(i) ==> e == if p < |s.units| && Takes(i, CharAt(s.units, s.mode, p)) then NextPos(s.units, s.mode, p) else -1)
            && (IsAssertion(i) ==> e == if InstrHolds(i, s, p) then p else -1)
  {
    assert [i][1..] == [];
  }

  /** The instruction of a character node takes exactly the characters the node takes. */
  lemma CharAgrees(r: Node, cc: nat, c: nat)
    requires WellFormed(r) && IsCharNode(r) && c <= MAX_CODE_POINT
    ensures |Code(r, cc)| == 1 && IsChar(Code(r, cc)[0]) && (Takes(Code(r, cc)[0], c) <==> CharTakes(r, c))
  {
    if r.Class? {
      ClassAccepted(r.points, c);
      RangeIsChar(r.points);
    }
  }

  lemma LeafStraight(r: Node, s: Subject, cc: nat, x: Res)
    requires SubjectOk(s) && WellFormed(r) && ResultOk(x, s, 0, |x.caps|)
    requires IsCharNode(r) || IsAssertNode(r) || r.Empty?
    ensures Results(r, s, cc, x) == StraightResult(Code(r, cc), s, x)
  {
    hide Takes, CharTakes;
    if IsCharNode(r) {
      CharAgrees(r, cc, if x.pos < |s.units| then CharAt(s.units, s.mode, x.pos) else 0) by {
        if x.pos < |s.units| { CharFits(s, x.pos); }
      }
      assert Code(r, cc) == [Code(r, cc)[0]];
      StraightOne(Code(r, cc)[0], s, x.pos);
    } else if IsAssertNode(r) {
      assert Code(r, cc) == [Code(r, cc)[0]];
      StraightOne(Code(r, cc)[0], s, x.pos);
    }
  }

  lemma RangeIsChar(points: seq<nat>)
    requires ClassOk(points)
    ensures IsChar(RangeInstr(points))
  {}

  /** A pattern with straight-line code has at most one result and leaves the captures alone. */
  lemma {:induction false} SimpleResults(r: Node, s: Subject, cc: nat, x: Res)
    requires SubjectOk(s) && WellFormed(r) && SimpleCount(Code(r, cc)) >= 0 && ResultOk(x, s, 0, |x.caps|)
    ensures Results(r, s, cc, x) == StraightResult(Code(r, cc), s, x) && Captures(r) == 0
    decreases r, 1
  {
    if IsCharNode(r) || IsAssertNode(r) || r.Empty? {
      LeafStraight(r, s, cc, x);
    } else {
      NotStraight(r, cc);
      if r.Then? { ThenSimple(r, s, cc, x); }
      if r.Repeat? { RepeatSimple(r, s, cc, x); }
    }
  }

  lemma NotStraight(r: Node, cc: nat)
    requires WellFormed(r)
    ensures r.Capture? || r.Look? || r.Or? ==> SimpleCount(Code(r, cc)) < 0
  {
    var f := Code(r, cc);
    if r.Capture? { assert f[0].SaveStart?; }
    if r.Look? { assert f[0].Lookahead?; }
    if r.Or? { assert f[0].Split?; }
  }

  lemma ThenCode(r: Node, cc: nat)
    requires r.Then? && Parsed(r)
    ensures Code(r, cc) == Code(r.first, cc) + Code(r.second, cc + Captures(r.first))
    ensures Captures(r) == Captures(r.first) + Captures(r.second)
  {}

  lemma {:induction false} ThenSimple(r: Node, s: Subject, cc: nat, x: Res)
    requires r.Then? && SubjectOk(s) && WellFormed(r) && SimpleCount(Code(r, cc)) >= 0 && ResultOk(x, s, 0, |x.caps|)
    ensures Results(r, s, cc, x) == StraightResult(Code(r, cc), s, x) && Captures(r) == 0
    decreases r, 0
  {
    hide Results, EachResult, Straight, SimpleCount, Code, Captures;
    ThenCode(r, cc);
    var a, b := r.first, r.second;
    var f, g := Code(a, cc), Code(b, cc + Captures(a));
    ThenResults(r, s, cc, x);
    SimpleAppend(f, g);
    StraightAppend(f, g, s, x.pos);
    SimpleResults(a, s, cc, x);
    var ys := Results(a, s, cc, x);
    if Straight(f, s, x.pos) >= 0 {
      ResultsWithin(a, s, cc, x);
      assert ResultOk(ys[0], s, x.pos, |x.caps|);
      SimpleResults(b, s, cc + Captures(a), ys[0]);
      EachOne(b, s, cc + Captures(a), ys[0]);
    } else {
      SimpleNoCaptures(b, s, cc + Captures(a), x);
      EachNone(b, s, cc + Captures(a));
    }
  }

  lemma {:induction false} SimpleNoCaptures(r: Node, s: Subject, cc: nat, x: Res)
    requires SubjectOk(s) && WellFormed(r) && SimpleCount(Code(r, cc)) >= 0 && ResultOk(x, s, 0, |x.caps|)
    ensures Captures(r) == 0
    decreases r, 2
  {
    SimpleResults(r, s, cc, x);
  }

  lemma EachOne(r: Node, s: Subject, cc: nat, x: Res)
    ensures EachResult(r, s, cc, [x]) == Results(r, s, cc, x)
  {
    assert [x][1..] == [];
  }

  lemma EachNone(r: Node, s: Subject, cc: nat)
    ensures EachResult(r, s, cc, []) == []
  {}

  lemma {:induction false} NoMoreUpTo(r: Node, s: Subject, cc: nat, greedy: bool, xs: seq<Res>)
    ensures EachUpTo(r, s, cc, 0, greedy, xs) == xs
    decreases |xs|
  {
    if xs != [] { NoMoreUpTo(r, s, cc, greedy, xs[1..]); }
  }

  /** Only the repetitions {1,1} and {0,0} compile to straight-line code. */
  lemma StraightRepeat(body: seq<Instr>, cc: nat, caps: nat, min: nat, max: nat, greedy: bool)
    requires min <= max
    ensures var f := RepeatCode(body, cc, caps, min, max, greedy);
            SimpleCount(f) >= 0 ==> min == max <= 1 && (if min == 0 then caps == 0 && f == [] else f == body)
  {
    var check := NeedsCheck(body, greedy);
    if UseSimple(body, max, greedy) {
      assert SimpleLoop(body, min, max)[0].SimpleGreedy?;
    } else if min == 0 {
      var rest := if max == 0 then [] else if max == 1 then [Split(greedy, Total(body))] + body
                  else RepeatTail(body, max, max == INT32_MAX, greedy, check);
      SimpleAppend(ResetCode(cc, caps), rest);
      TailNotStraight(body, max, max == INT32_MAX, greedy, check);
    } else if min == 1 && max == INT32_MAX && !check {
      SimpleAppend(body, [Split(!greedy, -(Total(body) + 5))]);
    } else {
      var first := if min == 1 then body else CountedLoop(body, min);
      var tail := RepeatTail(body, max - min, max == INT32_MAX, greedy, check);
      SimpleAppend(first, tail);
      TailNotStraight(body, max - min, max == INT32_MAX, greedy, check);
      if min > 1 { assert CountedLoop(body, min)[0].PushI32?; }
    }
  }

  lemma TailNotStraight(body: seq<Instr>, extra: nat, unbounded: bool, greedy: bool, check: bool)
    ensures unbounded || extra > 0 ==> SimpleCount(RepeatTail(body, extra, unbounded, greedy, check)) < 0
  {
    if unbounded {
      assert StarLoop(body, greedy, check)[0].Split?;
    } else if extra > 0 {
      assert CountedOption(body, extra, greedy)[0].PushI32?;
    }
  }

  lemma {:induction false} RepeatSimple(r: Node, s: Subject, cc: nat, x: Res)
    requires r.Repeat? && SubjectOk(s) && WellFormed(r) && SimpleCount(Code(r, cc)) >= 0 && ResultOk(x, s, 0, |x.caps|)
    ensures Results(r, s, cc, x) == StraightResult(Code(r, cc), s, x) && Captures(r) == 0
    decreases r, 0
  {
    hide Results, Straight, RepeatCode, EachUpTo, EachResult, Copies, SimpleCount;
    var b := r.body;
    StraightRepeat(Code(b, cc), cc, Captures(b), r.min, r.max, r.greedy);
    RepeatResults(r, s, cc, x);
    if r.min == 0 {
      CopiesZero(b, s, cc, [x]);
      NoMoreUpTo(b, s, cc, r.greedy, [x]);
      StraightNothing(s, x.pos);
    } else {
      SimpleResults(b, s, cc, x);
      EachOne(b, s, cc, x);
      CopiesFirst(b, s, cc, 1, [x]);
      CopiesZero(b, s, cc, EachResult(b, s, cc, [x]));
      NoMoreUpTo(b, s, cc, r.greedy, Results(b, s, cc, x));
    }
  }

  lemma CopiesZero(r: Node, s: Subject, cc: nat, xs: seq<Res>)
    ensures Copies(r, s, cc, 0, xs) == xs
  {}

  lemma StraightNothing(s: Subject, p: nat)
    requires p <= |s.units|
    ensures Straight([], s, p) == p
  {}
}
