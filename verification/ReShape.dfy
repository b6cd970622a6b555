/** What the layout of emitted code guarantees at every instruction, whatever has been executed before: jumps lead to
    instructions, the stack there has one fixed shape, and every operand is one the machine can handle. */
module ReShape {
  import opened ReBytes
  import opened ReClass
  import opened ReCode
  import opened ReSemantics
  import opened ReProgress
  import opened ReMachine
  import opened ReDepth
  import opened ReCorrect
  import opened ReProgram

  // ----- shapes of the stack -----

  /** One entry per stack slot: true for a loop counter that is at least 1, false for anything. */
  type Shape = seq<bool>

  /** The instruction finds the slots it needs. */
  predicate Enters(i: Instr, t: Shape) {
    (i.Drop? || i.BneCharPos? ==> |t| > 0) && (i.Loop? ==> |t| > 0 && t[|t| - 1])
  }

  /** The shape before the next instruction. */
  function Next(i: Instr, t: Shape): Shape {
    if i.PushI32? then t + [i.value >= 1]
    else if i.PushCharPos? then t + [false]
    else if (i.Drop? || i.BneCharPos?) && |t| > 0 then t[..|t| - 1]
    else if i.Loop? && |t| > 0 then t[..|t| - 1] + [false]
    else t
  }

  /** The shape where the instruction jumps to. */
  function Taken(i: Instr, t: Shape): Shape {
    if i.BneCharPos? && |t| > 0 then t[..|t| - 1] else t
  }

  function ShapeAfter(f: seq<Instr>, t: Shape): Shape {
    if f == [] then t else ShapeAfter(f[1..], Next(f[0], t))
  }

  lemma {:induction false} ShapeAppend(f: seq<Instr>, g: seq<Instr>, t: Shape)
    ensures ShapeAfter(f + g, t) == ShapeAfter(g, ShapeAfter(f, t))
    decreases |f|
  {
    hide Next;
    if f == [] {
      assert f + g == g;
    } else {
      assert (f + g)[1..] == f[1..] + g;
      ShapeAppend(f[1..], g, Next(f[0], t));
    }
  }

  lemma ShapeOne(i: Instr, t: Shape)
    ensures ShapeAfter([i], t) == Next(i, t) && ShapeAfter([], t) == t
  {
    assert [i][1..] == [];
  }

  /** A stack of shape t also has shape u. */
  predicate Weaker(u: Shape, t: Shape) { |u| == |t| && forall j :: 0 <= j < |u| ==> (u[j] ==> t[j]) }

  // ----- every instruction of a fragment -----

  predicate IsJump(i: Instr) { i.Goto? || i.Split? || i.Loop? || i.BneCharPos? || i.Lookahead? || i.SimpleGreedy? }

  function JumpBy(i: Instr): int
    requires IsJump(i)
  {
    match i
    case Goto(off) => off
    case Split(_, off) => off
    case Loop(off) => off
    case BneCharPos(off) => off
    case Lookahead(_, off) => off
    case SimpleGreedy(next, _, _, _) => next
  }

  /** Offset p is where an instruction of f starts, or its end, and a stack of shape u fits there. */
  ghost predicate Lands(f: seq<Instr>, t: Shape, p: int, u: Shape) { exists j :: LandsAt(f, t, p, u, j) }

  predicate LandsAt(f: seq<Instr>, t: Shape, p: int, u: Shape, j: int) {
    0 <= j <= |f| && Total(f[..j]) == p && Weaker(ShapeAfter(f[..j], t), u)
  }

  /** The operands need no more than n capture groups, and no malformed range list. */
  predicate OperandsOk(i: Instr, n: nat) {
    !RangeBad(i) && (i.SaveStart? || i.SaveEnd? ==> i.index < n) && (i.SaveReset? ==> i.last < n)
  }

  /** A simple quantifier at k is followed by its body of b straight-line instructions and a match. */
  predicate BodyAt(f: seq<Instr>, k: int, b: nat)
    requires 0 <= k < |f| && f[k].SimpleGreedy?
  {
    k + 1 + b < |f| && f[k + 1 + b] == Match && SimpleCount(f[k + 1..k + 1 + b]) == f[k].len > 0
  }

  ghost predicate PointOk(f: seq<Instr>, t: Shape, n: nat, k: int)
    requires 0 <= k < |f|
  {
    var u := ShapeAfter(f[..k], t);
    && OperandsOk(f[k], n) && Enters(f[k], u)
    && (IsJump(f[k]) ==> Lands(f, t, Total(f[..k + 1]) + JumpBy(f[k]), Taken(f[k], u)))
    && (f[k].SimpleGreedy? ==> exists b: nat :: BodyAt(f, k, b))
  }

  ghost predicate Sound(f: seq<Instr>, t: Shape, n: nat) { forall k :: 0 <= k < |f| ==> PointOk(f, t, n, k) }

  // ----- composition -----

  lemma LandsInside(a: seq<Instr>, f: seq<Instr>, b: seq<Instr>, t: Shape, p: int, u: Shape)
    requires Lands(f, ShapeAfter(a, t), p, u)
    ensures Lands(a + f + b, t, Total(a) + p, u)
  {
    hide Total, ShapeAfter, Weaker;
    var j :| LandsAt(f, ShapeAfter(a, t), p, u, j);
    assert (a + f + b)[..|a| + j] == a + f[..j];
    TotalAppend(a, f[..j]);
    ShapeAppend(a, f[..j], t);
    assert LandsAt(a + f + b, t, Total(a) + p, u, |a| + j);
  }

  lemma PointInside(a: seq<Instr>, f: seq<Instr>, b: seq<Instr>, t: Shape, n: nat, k: nat)
    requires k < |f| && PointOk(f, ShapeAfter(a, t), n, k)
    ensures PointOk(a + f + b, t, n, |a| + k)
  {
    hide Total, ShapeAfter, Lands, OperandsOk, Enters, Taken, JumpBy, IsJump, SimpleCount;
    var h := a + f + b;
    assert h[..|a| + k] == a + f[..k] && h[..|a| + k + 1] == a + f[..k + 1];
    ShapeAppend(a, f[..k], t);
    if IsJump(f[k]) {
      TotalAppend(a, f[..k + 1]);
      LandsInside(a, f, b, t, Total(f[..k + 1]) + JumpBy(f[k]), Taken(f[k], ShapeAfter(f[..k], ShapeAfter(a, t))));
    }
    if f[k].SimpleGreedy? {
      var c: nat :| BodyAt(f, k, c);
      assert h[|a| + k + 1..|a| + k + 1 + c] == f[k + 1..k + 1 + c];
      assert BodyAt(h, |a| + k, c);
    }
  }

  lemma SoundInside(a: seq<Instr>, f: seq<Instr>, b: seq<Instr>, t: Shape, n: nat)
    requires Sound(f, ShapeAfter(a, t), n)
    ensures forall k :: |a| <= k < |a| + |f| ==> PointOk(a + f + b, t, n, k)
  {
    hide PointOk, ShapeAfter;
    forall k | |a| <= k < |a| + |f| ensures PointOk(a + f + b, t, n, k) { PointInside(a, f, b, t, n, k - |a|); }
  }

  lemma SoundAppend(f: seq<Instr>, g: seq<Instr>, t: Shape, n: nat)
    requires Sound(f, t, n) && Sound(g, ShapeAfter(f, t), n)
    ensures Sound(f + g, t, n) && ShapeAfter(f + g, t) == ShapeAfter(g, ShapeAfter(f, t))
  {
    hide PointOk, ShapeAfter;
    ShapeOne(Any, t);
    SoundInside([], f, g, t, n);
    SoundInside(f, g, [], t, n);
    ShapeAppend(f, g, t);
    assert [] + f + g == f + g && f + g + [] == f + g;
    forall k | 0 <= k < |f + g| ensures PointOk(f + g, t, n, k) { }
  }

  lemma SoundNone(t: Shape, n: nat)
    ensures Sound([], t, n) && ShapeAfter([], t) == t
  {}

  /** The instruction after a in h == a + [i] + b; a jump leads to the end of c, where h == c + d. */
  lemma PointAt(a: seq<Instr>, i: Instr, b: seq<Instr>, t: Shape, n: nat, c: seq<Instr>, d: seq<Instr>)
    requires a + [i] + b == c + d && OperandsOk(i, n) && Enters(i, ShapeAfter(a, t)) && !i.SimpleGreedy?
    requires IsJump(i) ==> Total(a) + Size(i) + JumpBy(i) == Total(c) && Weaker(ShapeAfter(c, t), Taken(i, ShapeAfter(a, t)))
    ensures PointOk(a + [i] + b, t, n, |a|)
  {
    hide Total, ShapeAfter, OperandsOk, Enters, Size, Weaker, Taken;
    var h := a + [i] + b;
    assert h[..|a|] == a && h[..|a| + 1] == a + [i] && h[..|c|] == c;
    TotalAppend(a, [i]);
    OneNet(i);
    if IsJump(i) { assert LandsAt(h, t, Total(c), Taken(i, ShapeAfter(a, t)), |c|); }
  }

  lemma SoundOne(i: Instr, t: Shape, n: nat)
    requires OperandsOk(i, n) && Enters(i, t) && !IsJump(i)
    ensures Sound([i], t, n) && ShapeAfter([i], t) == Next(i, t)
  {
    hide PointOk;
    ShapeOne(i, t);
    assert [] + [i] + [] == [i];
    PointAt([], i, [], t, n, [i], []);
  }

  // ----- the constructs -----

  /** A body between two instructions, of which the first may jump to the end and the second to the start. */
  lemma SoundWrap(i: Instr, f: seq<Instr>, j: Instr, t: Shape, n: nat)
    requires OperandsOk(i, n) && Enters(i, t) && Sound(f, Next(i, t), n)
    requires OperandsOk(j, n) && Enters(j, ShapeAfter(f, Next(i, t))) && !j.SimpleGreedy?
    requires IsJump(i) ==> JumpBy(i) == Total(f) + Size(j) && Weaker(Next(j, ShapeAfter(f, Next(i, t))), Taken(i, t))
    requires IsJump(j) ==> JumpBy(j) == -(Size(i) + Total(f) + Size(j)) && Weaker(t, Taken(j, ShapeAfter(f, Next(i, t))))
    requires i.SimpleGreedy? ==> j == Match && SimpleCount(f) == i.len > 0
    ensures var h := [i] + f + [j]; Sound(h, t, n) && ShapeAfter(h, t) == Next(j, ShapeAfter(f, Next(i, t)))
  {
    hide Total, PointOk, Size, ShapeAfter, OperandsOk, Enters, Next, Taken, Weaker, SimpleCount, JumpBy, IsJump;
    var h := [i] + f + [j];
    ShapeOne(i, t);
    SoundInside([i], f, [j], t, n);
    ShapeAppend([i] + f, [j], t);
    ShapeAppend([i], f, t);
    ShapeOne(j, ShapeAfter(f, Next(i, t)));
    WrapTotal(i, f, j);
    assert [] + [i] + (f + [j]) == h && h + [] == h && [] + h == h;
    GreedyFacts(i, t, ShapeAfter(f, Next(i, t)));
    if i.SimpleGreedy? { WrapGreedy(i, f, t, n); } else { PointAt([], i, f + [j], t, n, h, []); }
    PointAt([i] + f, j, [], t, n, if IsJump(j) then [] else h, if IsJump(j) then h else []);
    forall k | 0 <= k < |h| ensures PointOk(h, t, n, k) { }
  }

  lemma GreedyFacts(i: Instr, t: Shape, u: Shape)
    ensures i.SimpleGreedy? ==> IsJump(i) && Taken(i, t) == t && Next(i, t) == t && Next(Match, u) == u && Size(Match) == 1
  {}

  lemma WrapTotal(i: Instr, f: seq<Instr>, j: Instr)
    ensures Total([i] + f) == Size(i) + Total(f) && Total([i] + f + [j]) == Size(i) + Total(f) + Size(j) && Total([]) == 0
  {
    hide Total, Size;
    TotalAppend([i] + f, [j]);
    TotalAppend([i], f);
    OneNet(i);
    OneNet(j);
    NoDepth();
  }

  /** The simple quantifier in front of its body. */
  lemma WrapGreedy(i: Instr, f: seq<Instr>, t: Shape, n: nat)
    requires i.SimpleGreedy? && OperandsOk(i, n) && SimpleCount(f) == i.len > 0 && JumpBy(i) == Total(f) + 1
    requires Weaker(ShapeAfter([i] + f + [Match], t), t)
    ensures PointOk([i] + f + [Match], t, n, 0)
  {
    hide Total, ShapeAfter, OperandsOk, Weaker, SimpleCount;
    var h := [i] + f + [Match];
    assert h[..0] == [] && h[..1] == [i] && h[..|h|] == h && h[1..1 + |f|] == f;
    ShapeOne(i, t);
    WrapTotal(i, f, Match);
    NoDepth();
    OneNet(i);
    assert BodyAt(h, 0, |f|);
    assert LandsAt(h, t, Total(h), t, |h|);
  }

  lemma WeakerSelf(t: Shape)
    ensures Weaker(t, t)
  {}

  /** A body followed by an instruction that jumps back to its start. */
  lemma SoundBack(f: seq<Instr>, j: Instr, t: Shape, n: nat)
    requires Sound(f, t, n) && OperandsOk(j, n) && Enters(j, ShapeAfter(f, t)) && !j.SimpleGreedy?
    requires IsJump(j) && JumpBy(j) == -(Total(f) + Size(j)) && Weaker(t, Taken(j, ShapeAfter(f, t)))
    ensures Sound(f + [j], t, n) && ShapeAfter(f + [j], t) == Next(j, ShapeAfter(f, t))
  {
    hide Total, PointOk, Size, ShapeAfter, OperandsOk, Enters, Next, Taken, Weaker;
    var h := f + [j];
    SoundNone(t, n);
    SoundInside([], f, [j], t, n);
    ShapeOne(j, ShapeAfter(f, t));
    ShapeAppend(f, [j], t);
    NoDepth();
    assert [] + f + [j] == h && f + [j] + [] == h && [] + h == h;
    PointAt(f, j, [], t, n, [], h);
    forall k | 0 <= k < |h| ensures PointOk(h, t, n, k) { }
  }

  /** An instruction in front of a body, with a jump to its end. */
  lemma SoundFront(i: Instr, f: seq<Instr>, t: Shape, n: nat)
    requires OperandsOk(i, n) && i.Split? && Sound(f, t, n) && ShapeAfter(f, t) == t && JumpBy(i) == Total(f)
    ensures Sound([i] + f, t, n) && ShapeAfter([i] + f, t) == t
  {
    hide Total, PointOk, ShapeAfter, OperandsOk, Weaker;
    var h := [i] + f;
    ShapeOne(i, t);
    SoundInside([i], f, [], t, n);
    ShapeAppend([i], f, t);
    TotalAppend([i], f);
    OneNet(i);
    NoDepth();
    WeakerSelf(t);
    assert [i] + f + [] == h && [] + [i] + f == h && h + [] == h;
    PointAt([], i, f, t, n, h, []);
    forall k | 0 <= k < |h| ensures PointOk(h, t, n, k) { }
  }

  lemma SoundOr(f: seq<Instr>, g: seq<Instr>, t: Shape, n: nat)
    requires Sound(f, t, n) && Sound(g, t, n) && ShapeAfter(f, t) == t && ShapeAfter(g, t) == t
    ensures var h := [Split(true, Total(f) + 5)] + f + [Goto(Total(g))] + g; Sound(h, t, n) && ShapeAfter(h, t) == t
  {
    hide Total, PointOk, ShapeAfter, Weaker;
    var i, j := Split(true, Total(f) + 5), Goto(Total(g));
    var h := [i] + f + [j] + g;
    var v := [i] + f + [j];
    assert h == [i] + f + ([j] + g) && h == v + g + [] && h == [] + [i] + (f + [j] + g) && h + [] == h;
    ShapeOne(i, t);
    ShapeOne(j, t);
    ShapeAppend([i], f, t);
    ShapeAppend([i] + f, [j], t);
    ShapeAppend(v, g, t);
    SoundInside([i], f, [j] + g, t, n);
    SoundInside(v, g, [], t, n);
    WrapTotal(i, f, j);
    TotalAppend(v, g);
    WeakerSelf(t);
    PointAt([], i, f + [j] + g, t, n, v, g);
    PointAt([i] + f, j, g, t, n, h, []);
    forall k | 0 <= k < |h| ensures PointOk(h, t, n, k) { }
  }

  lemma SoundStar(f: seq<Instr>, greedy: bool, check: bool, t: Shape, n: nat)
    requires var u := if check then t + [false] else t; Sound(f, u, n) && ShapeAfter(f, u) == u
    ensures Sound(StarLoop(f, greedy, check), t, n) && ShapeAfter(StarLoop(f, greedy, check), t) == t
  {
    hide Total, Sound, ShapeAfter, Weaker;
    var m: int, z: int := Total(f), Bit(check);
    var u := if check then t + [false] else t;
    var i := Split(greedy, m + 5 + z);
    var g := if check then [PushCharPos] else [];
    var j := if check then BneCharPos(-(5 + z + m + 5)) else Goto(-(5 + z + m + 5));
    SoundNone(t, n);
    if check { SoundOne(PushCharPos, t, n); }
    SoundAppend(g, f, t, n);
    TotalAppend(g, f);
    OneNet(PushCharPos);
    NoDepth();
    WeakerSelf(t);
    assert check ==> u[..|u| - 1] == t;
    SoundWrap(i, g + f, j, t, n);
    assert StarLoop(f, greedy, check) == [i] + (g + f) + [j];
  }

  lemma SoundOption(f: seq<Instr>, max: nat, greedy: bool, t: Shape, n: nat)
    requires max > 0 && Sound(f, t + [true], n) && ShapeAfter(f, t + [true]) == t + [true]
    ensures Sound(CountedOption(f, max, greedy), t, n) && ShapeAfter(CountedOption(f, max, greedy), t) == t
  {
    hide Total, Sound, ShapeAfter;
    var m: int := Total(f);
    var i, j := Split(greedy, m + 5), Loop(-(5 + m + 5));
    var a, b, c := [PushI32(max)], [i] + f + [j], [Drop];
    SoundOne(PushI32(max), t, n);
    SoundWrap(i, f, j, t + [true], n);
    SoundAppend(a, b, t, n);
    assert (t + [true])[..|t|] == t && (t + [false])[..|t|] == t;
    SoundOne(Drop, t + [false], n);
    SoundAppend(a + b, c, t, n);
    assert CountedOption(f, max, greedy) == a + b + c;
  }

  lemma SoundCounted(f: seq<Instr>, min: nat, t: Shape, n: nat)
    requires min > 0 && Sound(f, t + [true], n) && ShapeAfter(f, t + [true]) == t + [true]
    ensures Sound(CountedLoop(f, min), t, n) && ShapeAfter(CountedLoop(f, min), t) == t
  {
    hide Total, Sound, ShapeAfter;
    var j := Loop(-(Total(f) + 5));
    var a, b, c := [PushI32(min)], f + [j], [Drop];
    SoundOne(PushI32(min), t, n);
    SoundBack(f, j, t + [true], n);
    SoundAppend(a, b, t, n);
    assert (t + [true])[..|t|] == t && (t + [false])[..|t|] == t;
    SoundOne(Drop, t + [false], n);
    SoundAppend(a + b, c, t, n);
    assert CountedLoop(f, min) == a + b + c;
  }

  /** The body of a repetition is met with three different stacks. */
  ghost predicate SoundBody(f: seq<Instr>, t: Shape, n: nat) {
    && Sound(f, t, n) && ShapeAfter(f, t) == t
    && Sound(f, t + [true], n) && ShapeAfter(f, t + [true]) == t + [true]
    && Sound(f, t + [false], n) && ShapeAfter(f, t + [false]) == t + [false]
  }

  lemma SoundTail(f: seq<Instr>, extra: nat, unbounded: bool, greedy: bool, check: bool, t: Shape, n: nat)
    requires SoundBody(f, t, n)
    ensures var h := RepeatTail(f, extra, unbounded, greedy, check); Sound(h, t, n) && ShapeAfter(h, t) == t
  {
    hide Sound, ShapeAfter, StarLoop, CountedOption;
    SoundNone(t, n);
    if unbounded { SoundStar(f, greedy, check, t, n); } else if extra > 0 { SoundOption(f, extra, greedy, t, n); }
  }

  lemma SoundReset(cc: nat, caps: nat, t: Shape, n: nat)
    requires cc + caps <= n
    ensures Sound(ResetCode(cc, caps), t, n) && ShapeAfter(ResetCode(cc, caps), t) == t
  {
    hide Sound, ShapeAfter;
    SoundNone(t, n);
    if caps > 0 { SoundOne(SaveReset(cc, cc + caps - 1), t, n); }
  }

  lemma SoundRepeat(f: seq<Instr>, cc: nat, caps: nat, min: nat, max: nat, greedy: bool, t: Shape, n: nat)
    requires SoundBody(f, t, n) && min <= max && cc + caps <= n
    ensures var h := RepeatCode(f, cc, caps, min, max, greedy); Sound(h, t, n) && ShapeAfter(h, t) == t
  {
    hide Total, Sound, ShapeAfter, RepeatTail, CountedLoop, SimpleCount, AdvanceScan, ResetCode;
    var check := NeedsCheck(f, greedy);
    WeakerSelf(t);
    if UseSimple(f, max, greedy) {
      SoundWrap(SimpleGreedy(Total(f) + 1, min, max, SimpleCount(f)), f, Match, t, n);
    } else if min == 0 {
      SoundReset(cc, caps, t, n);
      SoundNone(t, n);
      SoundTail(f, max, max == INT32_MAX, greedy, check, t, n);
      SoundFront(Split(greedy, Total(f)), f, t, n);
      SoundAppend(ResetCode(cc, caps), if max == 0 then [] else if max == 1 then [Split(greedy, Total(f))] + f
                                       else RepeatTail(f, max, max == INT32_MAX, greedy, check), t, n);
    } else if min == 1 && max == INT32_MAX && !check {
      SoundBack(f, Split(!greedy, -(Total(f) + 5)), t, n);
    } else {
      SoundCounted(f, min, t, n);
      SoundTail(f, max - min, max == INT32_MAX, greedy, check, t, n);
      SoundAppend(if min == 1 then f else CountedLoop(f, min), RepeatTail(f, max - min, max == INT32_MAX, greedy, check), t, n);
    }
  }

  lemma SoundLeaf(r: Node, cc: nat, t: Shape, n: nat)
    requires Parsed(r) && RangesFit(r) && (IsCharNode(r) || IsAssertNode(r) || r.Empty?)
    ensures Sound(Code(r, cc), t, n) && ShapeAfter(Code(r, cc), t) == t
  {
    hide Sound, ShapeAfter, RangeInstr, RangeBad;
    if r.Empty? {
      SoundNone(t, n);
    } else {
      var i := Code(r, cc)[0];
      assert Code(r, cc) == [i];
      if r.Class? {
        ClassSorted(r.points);
        RangeIsChar(r.points);
      } else {
        NotRange(i);
      }
      SoundOne(i, t, n);
    }
  }

  lemma NotRange(i: Instr)
    requires !i.Range? && !i.Range32?
    ensures !RangeBad(i)
  {}

  lemma SoundCapture(f: seq<Instr>, k: nat, t: Shape, n: nat)
    requires Sound(f, t, n) && ShapeAfter(f, t) == t && k < n
    ensures var h := [SaveStart(k)] + f + [SaveEnd(k)]; Sound(h, t, n) && ShapeAfter(h, t) == t
  {
    hide Total, Sound, ShapeAfter;
    SoundWrap(SaveStart(k), f, SaveEnd(k), t, n);
  }

  lemma SoundLook(f: seq<Instr>, negated: bool, t: Shape, n: nat)
    requires Sound(f, t, n) && ShapeAfter(f, t) == t
    ensures var h := [Lookahead(negated, Total(f) + 1)] + f + [Match]; Sound(h, t, n) && ShapeAfter(h, t) == t
  {
    hide Total, Sound, ShapeAfter;
    WeakerSelf(t);
    SoundWrap(Lookahead(negated, Total(f) + 1), f, Match, t, n);
  }

  /** The code of a pattern is sound on every stack, and leaves its shape as it was. */
  lemma {:induction false} CodeSound(r: Node, cc: nat, t: Shape, n: nat)
    requires Parsed(r) && RangesFit(r) && cc + Captures(r) <= n
    ensures Sound(Code(r, cc), t, n) && ShapeAfter(Code(r, cc), t) == t
    decreases r
  {
    hide Total, Sound, ShapeAfter, Code, RepeatCode;
    match r
    case Capture(b) =>
      CaptureCode(r, cc);
      CodeSound(b, cc + 1, t, n);
      SoundCapture(Code(b, cc + 1), cc, t, n);
    case Look(negated, b) =>
      LookCode(r, cc);
      CodeSound(b, cc, t, n);
      SoundLook(Code(b, cc), negated, t, n);
    case Then(a, b) =>
      ThenCode(r, cc);
      CodeSound(a, cc, t, n);
      CodeSound(b, cc + Captures(a), t, n);
      SoundAppend(Code(a, cc), Code(b, cc + Captures(a)), t, n);
    case Or(a, b) =>
      OrCode(r, cc);
      CodeSound(a, cc, t, n);
      CodeSound(b, cc + Captures(a), t, n);
      SoundOr(Code(a, cc), Code(b, cc + Captures(a)), t, n);
    case Repeat(b, min, max, greedy) =>
      RepeatIs(r, cc);
      CodeSound(b, cc, t, n);
      CodeSound(b, cc, t + [true], n);
      CodeSound(b, cc, t + [false], n);
      SoundRepeat(Code(b, cc), cc, Captures(b), min, max, greedy, t, n);
    case _ => SoundLeaf(r, cc, t, n);
  }

  /** Everything of a program but the final match instruction. */
  function Before(r: Node, sticky: bool): seq<Instr>
    requires Parsed(r)
  {
    (if sticky then [] else SEARCH) + ([SaveStart(0)] + Code(r, 1) + [SaveEnd(0)])
  }

  lemma ProgramSound(r: Node, sticky: bool)
    requires Parsed(r) && RangesFit(r)
    ensures ProgramCode(r, sticky) == Before(r, sticky) + [Match]
    ensures Sound(Before(r, sticky), [], 1 + Captures(r)) && ShapeAfter(Before(r, sticky), []) == []
  {
    hide Total, Sound, ShapeAfter, Code;
    var n := 1 + Captures(r);
    CodeSound(r, 1, [], n);
    SoundCapture(Code(r, 1), 0, [], n);
    SoundNone([], n);
    SearchSound(n);
    SoundAppend(if sticky then [] else SEARCH, [SaveStart(0)] + Code(r, 1) + [SaveEnd(0)], [], n);
  }

  lemma SearchSound(n: nat)
    ensures Sound(SEARCH, [], n) && ShapeAfter(SEARCH, []) == []
  {
    hide Total, Sound, ShapeAfter;
    SoundOne(Any, [], n);
    OneNet(Any);
    WeakerSelf([]);
    SoundWrap(Split(false, 6), [Any], Goto(-11), [], n);
    assert SEARCH == [Split(false, 6)] + [Any] + [Goto(-11)];
  }
}
