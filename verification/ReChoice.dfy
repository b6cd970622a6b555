/** Which form a repetition is compiled to, told on the pattern instead of on the bytes that the scans look at. */
module ReChoice {
  import opened ReBytes
  import opened ReClass
  import opened ReCode
  import opened ReSemantics
  import opened ReProgress
  import opened ReMachine
  import opened ReDepth

  /** Number of characters a pattern without any choice takes, -1 for a pattern with groups, alternatives, lookaheads or loops. */
  function Chars(r: Node): (n: int)
    ensures n >= -1
  {
    match r
    case Literal(_) => 1
    case AnyButLine => 1
    case AnyChar => 1
    case Class(_) => 1
    case Empty => 0
    case Bol => 0
    case Eol => 0
    case Word(_) => 0
    case Then(a, b) => if Chars(a) < 0 || Chars(b) < 0 then -1 else Chars(a) + Chars(b)
    case Repeat(b, min, max, greedy) =>
      if max == 0 then (if min == 0 && Captures(b) == 0 then 0 else -1)
      else if min == 1 && max == 1 && !(greedy && Chars(b) > 0) then Chars(b)
      else -1
    case _ => -1
  }

  /** What comes first in a pattern: a character, a choice, or neither. */
  function FirstOf(r: Node): Verdict {
    match r
    case Literal(_) => Advances
    case AnyButLine => Advances
    case AnyChar => Advances
    case Class(_) => Advances
    case Capture(b) => FirstOf(b)
    case Then(a, b) => if FirstOf(a).Unknown? then FirstOf(b) else FirstOf(a)
    case Look(_, _) => MayStay
    case Or(_, _) => MayStay
    case Repeat(b, min, max, greedy) =>
      if max == 0 then Unknown
      else if min == 0 || (greedy && Chars(b) > 0) then MayStay
      else if !FirstOf(b).Unknown? then FirstOf(b)
      else if max == 1 then Unknown
      else MayStay
    case _ => Unknown
  }

  lemma NotStraightCode(r: Node, cc: nat)
    requires Parsed(r) && (r.Capture? || r.Look? || r.Or?)
    ensures SimpleCount(Code(r, cc)) == -1
  {
    hide Total;
    var f := Code(r, cc);
    assert f[0].SaveStart? || f[0].Lookahead? || f[0].Split?;
  }

  lemma LeafScans(r: Node, cc: nat)
    requires Parsed(r) && (IsCharNode(r) || IsAssertNode(r) || r.Empty?)
    ensures SimpleCount(Code(r, cc)) == Chars(r) && AdvanceScan(Code(r, cc)) == FirstOf(r)
  {
    if !r.Empty? { assert Code(r, cc)[1..] == []; }
    if r.Class? { RangeAny(r.points); }
  }

  lemma RangeAny(points: seq<nat>)
    requires Sorted(points)
    ensures IsChar(RangeInstr(points))
  {}

  /** The straight-line scan finds exactly the patterns without choice, and counts their characters. */
  lemma {:induction false} CharsIs(r: Node, cc: nat)
    requires Parsed(r)
    ensures SimpleCount(Code(r, cc)) == Chars(r)
    decreases r
  {
    hide SimpleCount, Code, RepeatCode, Captures, IsCharNode, IsAssertNode;
    match r
    case Then(a, b) =>
      ThenCode(r, cc);
      CharsIs(a, cc);
      CharsIs(b, cc + Captures(a));
      SimpleAppend(Code(a, cc), Code(b, cc + Captures(a)));
    case Repeat(b, min, max, greedy) =>
      RepeatIs(r, cc);
      CharsIs(b, cc);
      RepeatChars(Code(b, cc), cc, Captures(b), min, max, greedy);
    case Capture(_) => NotStraightCode(r, cc);
    case Look(_, _) => NotStraightCode(r, cc);
    case Or(_, _) => NotStraightCode(r, cc);
    case _ =>
      LeafNode(r);
      LeafScans(r, cc);
  }

  lemma LeafNode(r: Node)
    requires !r.Then? && !r.Or? && !r.Repeat? && !r.Capture? && !r.Look?
    ensures IsCharNode(r) || IsAssertNode(r) || r.Empty?
  {}

  lemma RepeatChars(f: seq<Instr>, cc: nat, caps: nat, min: nat, max: nat, greedy: bool)
    requires min <= max
    ensures SimpleCount(RepeatCode(f, cc, caps, min, max, greedy)) ==
            if max == 0 then (if caps == 0 then 0 else -1)
            else if min == 1 && max == 1 && !(greedy && SimpleCount(f) > 0) then SimpleCount(f)
            else -1
  {
    hide RepeatTail, CountedLoop, Total, AdvanceScan;
    StraightRepeat(f, cc, caps, min, max, greedy);
    if max == 0 {
      assert ResetCode(cc, caps) + [] == ResetCode(cc, caps);
    } else if min == 1 && max == 1 {
      NoTail(f, greedy, NeedsCheck(f, greedy));
      assert f + [] == f;
    }
  }

  lemma NoTail(f: seq<Instr>, greedy: bool, check: bool)
    ensures RepeatTail(f, 0, false, greedy, check) == []
  {}

  /** The zero-advance scan finds exactly what comes first in the pattern. */
  lemma {:induction false} FirstIs(r: Node, cc: nat)
    requires Parsed(r)
    ensures AdvanceScan(Code(r, cc)) == FirstOf(r)
    decreases r
  {
    hide AdvanceScan, SimpleCount, Code, RepeatCode, Total;
    match r
    case Capture(b) =>
      CaptureCode(r, cc);
      FirstIs(b, cc + 1);
      FirstGroup(cc, Code(b, cc + 1));
    case Look(negated, b) =>
      LookCode(r, cc);
      FirstChoice(Code(r, cc));
    case Then(a, b) =>
      ThenCode(r, cc);
      FirstIs(a, cc);
      FirstIs(b, cc + Captures(a));
      AdvanceAppend(Code(a, cc), Code(b, cc + Captures(a)));
    case Or(a, b) =>
      OrCode(r, cc);
      FirstChoice(Code(r, cc));
    case Repeat(b, min, max, greedy) =>
      RepeatIs(r, cc);
      FirstIs(b, cc);
      CharsIs(b, cc);
      FirstRepeat(Code(b, cc), cc, Captures(b), min, max, greedy);
    case _ => LeafScans(r, cc);
  }

  lemma FirstGroup(k: nat, f: seq<Instr>)
    ensures AdvanceScan([SaveStart(k)] + f + [SaveEnd(k)]) == AdvanceScan(f)
  {
    AdvanceAppend([SaveStart(k)] + f, [SaveEnd(k)]);
    AdvanceAppend([SaveStart(k)], f);
    assert [SaveStart(k)][1..] == [] && [SaveEnd(k)][1..] == [];
  }

  lemma FirstChoice(f: seq<Instr>)
    requires f != [] && (f[0].Lookahead? || f[0].Split?)
    ensures AdvanceScan(f) == MayStay
  {}

  lemma FirstTail(f: seq<Instr>, extra: nat, unbounded: bool, greedy: bool, check: bool)
    ensures AdvanceScan(RepeatTail(f, extra, unbounded, greedy, check)) == if unbounded || extra > 0 then MayStay else Unknown
  {
    hide Total;
    if unbounded {
      assert StarLoop(f, greedy, check)[0].Split?;
    } else if extra > 0 {
      assert CountedOption(f, extra, greedy)[0].PushI32? && CountedOption(f, extra, greedy)[1..][0].Split?;
    }
  }

  lemma FirstCounted(f: seq<Instr>, min: nat)
    ensures AdvanceScan(CountedLoop(f, min)) == if AdvanceScan(f).Unknown? then MayStay else AdvanceScan(f)
  {
    hide Total;
    var a, c := [PushI32(min)], [Loop(-(Total(f) + 5)), Drop];
    AdvanceAppend(a + f, c);
    AdvanceAppend(a, f);
    assert a[1..] == [] && c[0].Loop?;
  }

  lemma FirstRepeat(f: seq<Instr>, cc: nat, caps: nat, min: nat, max: nat, greedy: bool)
    requires min <= max
    ensures AdvanceScan(RepeatCode(f, cc, caps, min, max, greedy)) ==
            if max == 0 then Unknown
            else if min == 0 || (greedy && SimpleCount(f) > 0) then MayStay
            else if !AdvanceScan(f).Unknown? then AdvanceScan(f)
            else if max == 1 then Unknown
            else MayStay
  {
    hide RepeatTail, CountedLoop, Total, SimpleLoop;
    var check := NeedsCheck(f, greedy);
    if UseSimple(f, max, greedy) {
      SimpleLoopStays(f, min, max);
    } else if min == 0 {
      var rest := if max == 0 then [] else if max == 1 then [Split(greedy, Total(f))] + f else RepeatTail(f, max, max == INT32_MAX, greedy, check);
      AdvanceAppend(ResetCode(cc, caps), rest);
      FirstTail(f, max, max == INT32_MAX, greedy, check);
      if max == 1 { FirstChoice(rest); }
      if caps > 0 { assert ResetCode(cc, caps)[1..] == []; }
    } else if min == 1 && max == INT32_MAX && !check {
      AdvanceAppend(f, [Split(!greedy, -(Total(f) + 5))]);
      FirstChoice([Split(!greedy, -(Total(f) + 5))]);
    } else {
      AdvanceAppend(if min == 1 then f else CountedLoop(f, min), RepeatTail(f, max - min, max == INT32_MAX, greedy, check));
      FirstTail(f, max - min, max == INT32_MAX, greedy, check);
      FirstCounted(f, min);
    }
  }

  // ----- the form of a repetition -----

  /** The simple quantifier instruction is used exactly for greedy repetitions, at least once allowed, of patterns without
      choice that take characters. The zero-advance check is made exactly in greedy loops whose body does not begin with a
      character on every path. Everything else follows the bounds. */
  lemma RepeatForm(r: Node, cc: nat)
    requires r.Repeat? && Parsed(r)
    ensures var f, min, max := Code(r.body, cc), r.min, r.max;
            var check := r.greedy && FirstOf(r.body) != Advances;
            var reset := if Captures(r.body) > 0 then [SaveReset(cc, cc + Captures(r.body) - 1)] else [];
            var back: int := -(Total(f) + 5);
            Code(r, cc) ==
              if r.greedy && max > 0 && Chars(r.body) > 0 then [SimpleGreedy(Total(f) + 1, min, max, Chars(r.body))] + f + [Match]
              else if max == 0 then reset
              else if min == 0 && max == 1 then reset + ([Split(r.greedy, Total(f))] + f)
              else if min == 0 then reset + Loops(f, max, max == INT32_MAX, r.greedy, check)
              else if min == 1 && max == INT32_MAX && !check then f + [Split(!r.greedy, back)]
              else (if min == 1 then f else [PushI32(min)] + f + [Loop(back), Drop])
                   + (if max == min && max != INT32_MAX then [] else Loops(f, max - min, max == INT32_MAX, r.greedy, check))
  {
    hide Code, SimpleCount, AdvanceScan, Total, StarLoop, CountedOption;
    RepeatIs(r, cc);
    CharsIs(r.body, cc);
    FirstIs(r.body, cc);
    var f := Code(r.body, cc);
    assert ResetCode(cc, Captures(r.body)) + [] == ResetCode(cc, Captures(r.body));
  }

  /** The loop for the copies that are not mandatory. */
  function Loops(f: seq<Instr>, n: nat, unbounded: bool, greedy: bool, check: bool): seq<Instr> {
    if unbounded then StarLoop(f, greedy, check) else CountedOption(f, n, greedy)
  }
}
