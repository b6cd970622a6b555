/** Sizes and stack depths of the code fragments. */
module ReDepth {
  import opened ReBytes
  import opened ReClass
  import opened ReCode
  import opened ReSemantics
  import opened ReProgress
  import opened ReMachine

  lemma CaptureCode(r: Node, cc: nat)
    requires r.Capture? && Parsed(r)
    ensures Code(r, cc) == [SaveStart(cc)] + Code(r.body, cc + 1) + [SaveEnd(cc)] && Captures(r) == 1 + Captures(r.body)
  {}

  lemma LookCode(r: Node, cc: nat)
    requires r.Look? && Parsed(r)
    ensures Code(r, cc) == [Lookahead(r.negated, Total(Code(r.body, cc)) + 1)] + Code(r.body, cc) + [Match]
    ensures Captures(r) == Captures(r.body)
  {}

  lemma OrCode(r: Node, cc: nat)
    requires r.Or? && Parsed(r)
    ensures var f, g := Code(r.left, cc), Code(r.right, cc + Captures(r.left));
            Code(r, cc) == [Split(true, Total(f) + 5)] + f + [Goto(Total(g))] + g
    ensures Captures(r) == Captures(r.left) + Captures(r.right)
  {
    hide Total;
  }

  lemma RepeatIs(r: Node, cc: nat)
    requires r.Repeat? && Parsed(r)
    ensures Code(r, cc) == RepeatCode(Code(r.body, cc), cc, Captures(r.body), r.min, r.max, r.greedy)
    ensures Captures(r) == Captures(r.body)
  {
    hide RepeatCode;
  }

  /** The code of a pattern leaves the stack as high as it found it, and never goes below. */
  lemma {:induction false} NoNet(r: Node, cc: nat)
    requires Parsed(r)
    ensures NetDepth(Code(r, cc)) == 0 && MinDepth(Code(r, cc)) == 0
    decreases r
  {
    hide NetDepth, MaxDepth, MinDepth, RepeatCode, Code, Total;
    match r
    case Capture(b) =>
      CaptureCode(r, cc);
      NoNet(b, cc + 1);
      WrapDepth(SaveStart(cc), Code(b, cc + 1), SaveEnd(cc));
    case Look(negated, b) =>
      LookCode(r, cc);
      NoNet(b, cc);
      WrapDepth(Lookahead(negated, Total(Code(b, cc)) + 1), Code(b, cc), Match);
    case Then(a, b) =>
      ThenCode(r, cc);
      NoNet(a, cc);
      NoNet(b, cc + Captures(a));
      DepthAppend(Code(a, cc), Code(b, cc + Captures(a)));
    case Or(a, b) =>
      OrCode(r, cc);
      NoNet(a, cc);
      NoNet(b, cc + Captures(a));
      OrDepth(Code(a, cc), Code(b, cc + Captures(a)));
    case Repeat(b, min, max, greedy) =>
      RepeatIs(r, cc);
      NoNet(b, cc);
      RepeatDepth(Code(b, cc), cc, Captures(b), min, max, greedy);
    case _ =>
      LeafNet(r, cc);
  }

  /** An instruction before and one after a body. */
  lemma WrapDepth(i: Instr, body: seq<Instr>, j: Instr)
    ensures NetDepth([i] + body + [j]) == Delta(i) + NetDepth(body) + Delta(j)
    ensures Delta(i) == Delta(j) == 0 && NetDepth(body) == MinDepth(body) == 0 ==> MinDepth([i] + body + [j]) == 0
    ensures Delta(i) == 0 && Delta(j) <= 0 ==> MaxDepth([i] + body + [j]) == Max(MaxDepth(body), NetDepth(body))
    ensures Total([i] + body + [j]) == Size(i) + Total(body) + Size(j)
  {
    hide NetDepth, MaxDepth, MinDepth, Total;
    DepthAppend([i] + body, [j]);
    DepthAppend([i], body);
    TotalAppend([i] + body, [j]);
    TotalAppend([i], body);
    OneNet(i);
    OneNet(j);
  }

  lemma OneNet(i: Instr)
    ensures NetDepth([i]) == Delta(i) && MaxDepth([i]) == Max(0, Delta(i)) && Total([i]) == Size(i)
    ensures MinDepth([i]) == -Max(0, -Delta(i))
  {
    assert [i][1..] == [];
  }

  lemma TwoNet(i: Instr, j: Instr)
    ensures NetDepth([i, j]) == Delta(i) + Delta(j) && MaxDepth([i, j]) == Max(0, Delta(i) + Max(0, Delta(j)))
    ensures MinDepth([i, j]) == -Max(0, -(Delta(i) - Max(0, -Delta(j))))
    ensures Total([i, j]) == Size(i) + Size(j)
  {
    assert [i, j][1..] == [j];
    OneNet(j);
  }

  lemma LeafNet(r: Node, cc: nat)
    requires Parsed(r) && (IsCharNode(r) || IsAssertNode(r) || r.Empty?)
    ensures NetDepth(Code(r, cc)) == 0 && MinDepth(Code(r, cc)) == 0
  {
    var f := Code(r, cc);
    if !r.Empty? {
      assert f == [f[0]];
      OneNet(f[0]);
    }
  }

  lemma OrDepth(f: seq<Instr>, g: seq<Instr>)
    requires NetDepth(f) == 0 && NetDepth(g) == 0
    ensures NetDepth(f) == 0 && MinDepth(f) == MinDepth(g) == 0 ==> MinDepth([Split(true, Total(f) + 5)] + f + [Goto(Total(g))] + g) == 0
    ensures var h := [Split(true, Total(f) + 5)] + f + [Goto(Total(g))] + g;
            NetDepth(h) == 0 && MaxDepth(h) == Max(MaxDepth(f), MaxDepth(g)) && Total(h) == 5 + Total(f) + 5 + Total(g)
  {
    hide NetDepth, MaxDepth, MinDepth, Total;
    var a, c := [Split(true, Total(f) + 5)], [Goto(Total(g))];
    DepthAppend(a + f + c, g);
    DepthAppend(a + f, c);
    DepthAppend(a, f);
    TotalAppend(a + f + c, g);
    TotalAppend(a + f, c);
    TotalAppend(a, f);
    OneNet(a[0]);
    OneNet(c[0]);
  }

  lemma StarDepth(body: seq<Instr>, greedy: bool, check: bool)
    requires NetDepth(body) == 0
    ensures MinDepth(body) == 0 ==> MinDepth(StarLoop(body, greedy, check)) == 0
    ensures NetDepth(StarLoop(body, greedy, check)) == 0
    ensures MaxDepth(StarLoop(body, greedy, check)) == MaxDepth(body) + Bit(check)
    ensures Total(StarLoop(body, greedy, check)) == 5 + Bit(check) + Total(body) + 5
  {
    hide NetDepth, MaxDepth, MinDepth, Total;
    var n: int, z: int := Total(body), Bit(check);
    var a := [Split(greedy, n + 5 + z)];
    var b := if check then [PushCharPos] else [];
    var c := [if check then BneCharPos(-(5 + z + n + 5)) else Goto(-(5 + z + n + 5))];
    DepthAppend(a + b + body, c);
    DepthAppend(a + b, body);
    DepthAppend(a, b);
    TotalAppend(a + b + body, c);
    TotalAppend(a + b, body);
    TotalAppend(a, b);
    OneNet(a[0]);
    OneNet(c[0]);
    if check { OneNet(PushCharPos); } else { NoDepth(); }
  }

  lemma OptionDepth(body: seq<Instr>, max: nat, greedy: bool)
    requires NetDepth(body) == 0
    ensures MinDepth(body) == 0 ==> MinDepth(CountedOption(body, max, greedy)) == 0
    ensures NetDepth(CountedOption(body, max, greedy)) == 0
    ensures MaxDepth(CountedOption(body, max, greedy)) == MaxDepth(body) + 1
    ensures Total(CountedOption(body, max, greedy)) == 10 + Total(body) + 6
  {
    hide NetDepth, MaxDepth, MinDepth, Total;
    var n: int := Total(body);
    var a, c := [PushI32(max), Split(greedy, n + 5)], [Loop(-(5 + n + 5)), Drop];
    DepthAppend(a + body, c);
    DepthAppend(a, body);
    TotalAppend(a + body, c);
    TotalAppend(a, body);
    TwoNet(a[0], a[1]);
    TwoNet(c[0], c[1]);
  }

  lemma LoopDepth(body: seq<Instr>, min: nat)
    requires NetDepth(body) == 0
    ensures MinDepth(body) == 0 ==> MinDepth(CountedLoop(body, min)) == 0
    ensures NetDepth(CountedLoop(body, min)) == 0
    ensures MaxDepth(CountedLoop(body, min)) == MaxDepth(body) + 1
    ensures Total(CountedLoop(body, min)) == 5 + Total(body) + 6
  {
    hide NetDepth, MaxDepth, MinDepth, Total;
    var a, c := [PushI32(min)], [Loop(-(Total(body) + 5)), Drop];
    DepthAppend(a + body, c);
    DepthAppend(a, body);
    TotalAppend(a + body, c);
    TotalAppend(a, body);
    OneNet(a[0]);
    TwoNet(c[0], c[1]);
  }

  lemma TailDepth(body: seq<Instr>, extra: nat, unbounded: bool, greedy: bool, check: bool)
    requires NetDepth(body) == 0
    ensures MinDepth(body) == 0 ==> MinDepth(RepeatTail(body, extra, unbounded, greedy, check)) == 0
    ensures NetDepth(RepeatTail(body, extra, unbounded, greedy, check)) == 0
    ensures unbounded ==> MaxDepth(RepeatTail(body, extra, unbounded, greedy, check)) == MaxDepth(body) + Bit(check)
    ensures !unbounded && extra > 0 ==> MaxDepth(RepeatTail(body, extra, unbounded, greedy, check)) == MaxDepth(body) + 1
  {
    if unbounded { StarDepth(body, greedy, check); } else if extra > 0 { OptionDepth(body, extra, greedy); }
  }

  lemma ResetNet(cc: nat, caps: nat)
    ensures NetDepth(ResetCode(cc, caps)) == 0 && MaxDepth(ResetCode(cc, caps)) == 0 && MinDepth(ResetCode(cc, caps)) == 0
    ensures Total(ResetCode(cc, caps)) == if caps > 0 then 3 else 0
  {
    if caps > 0 { OneNet(SaveReset(cc, cc + caps - 1)); }
  }

  lemma RepeatDepth(body: seq<Instr>, cc: nat, caps: nat, min: nat, max: nat, greedy: bool)
    requires NetDepth(body) == 0 && min <= max
    ensures MinDepth(body) == 0 ==> MinDepth(RepeatCode(body, cc, caps, min, max, greedy)) == 0
    ensures NetDepth(RepeatCode(body, cc, caps, min, max, greedy)) == 0
    ensures max > 0 ==> MaxDepth(RepeatCode(body, cc, caps, min, max, greedy)) >= MaxDepth(body)
  {
    hide RepeatTail, CountedLoop, NetDepth, MaxDepth, MinDepth;
    var check := NeedsCheck(body, greedy);
    if UseSimple(body, max, greedy) {
      SimpleLoopDepth(body, min, max);
    } else if min == 0 {
      var rest := if max == 0 then [] else if max == 1 then [Split(greedy, Total(body))] + body
                  else RepeatTail(body, max, max == INT32_MAX, greedy, check);
      DepthAppend(ResetCode(cc, caps), rest);
      ResetNet(cc, caps);
      TailDepth(body, max, max == INT32_MAX, greedy, check);
      DepthAppend([Split(greedy, Total(body))], body);
      OneNet(Split(greedy, Total(body)));
      NoDepth();
    } else if min == 1 && max == INT32_MAX && !check {
      var i := Split(!greedy, -(Total(body) + 5));
      DepthAppend(body, [i]);
      OneNet(i);
    } else {
      DepthAppend(if min == 1 then body else CountedLoop(body, min), RepeatTail(body, max - min, max == INT32_MAX, greedy, check));
      TailDepth(body, max - min, max == INT32_MAX, greedy, check);
      LoopDepth(body, min);
    }
  }

  lemma NoDepth()
    ensures NetDepth([]) == 0 && MaxDepth([]) == 0 && MinDepth([]) == 0 && Total([]) == 0
  {}

  lemma SimpleLoopDepth(body: seq<Instr>, min: nat, max: nat)
    requires NetDepth(body) == 0 && SimpleCount(body) >= 0
    ensures MinDepth(body) == 0 ==> MinDepth(SimpleLoop(body, min, max)) == 0
    ensures NetDepth(SimpleLoop(body, min, max)) == 0 && MaxDepth(SimpleLoop(body, min, max)) == MaxDepth(body)
    ensures Total(SimpleLoop(body, min, max)) == 17 + Total(body) + 1
  {
    WrapDepth(SimpleGreedy(Total(body) + 1, min, max, SimpleCount(body)), body, Match);
  }

  lemma LeafCode(r: Node, cc: nat)
    requires WellFormed(r) && (IsCharNode(r) || IsAssertNode(r))
    ensures var f := Code(r, cc); |f| == 1 && f == [f[0]] && (IsChar(f[0]) || IsAssertion(f[0])) && !RangeBad(f[0])
    ensures Total(Code(r, cc)) == Size(Code(r, cc)[0])
  {
    var f := Code(r, cc);
    assert f[1..] == [];
    if r.Class? {
      RangeIsChar(r.points);
      ClassSorted(r.points);
    }
  }

  lemma ClassSorted(points: seq<nat>)
    requires ClassOk(points)
    ensures !RangeBad(RangeInstr(points))
  {
    OddPositive(points);
    if |points| > 0 {
      CountFits(points);
      PairsSorted(points, Narrow(points));
    }
  }
}
