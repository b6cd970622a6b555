/** Patterns, the byte code emitted for them as a specification, and the three linear scans over byte code. */
module ReCode {
  import opened ReBytes
  import opened ReClass

  // ----- patterns -----

  /** A parsed pattern without back references and lookbehind. Literal code points are not folded. */
  datatype Node =
    | Empty
    | Literal(c: nat)
    | AnyButLine
    | AnyChar
    | Bol
    | Eol
    | Word(negated: bool)
    | Class(points: seq<nat>)
    | Capture(body: Node)
    | Look(negated: bool, body: Node)
    | Then(first: Node, second: Node)
    | Or(left: Node, right: Node)
    | Repeat(body: Node, min: nat, max: nat, greedy: bool)

  /** Number of capture groups in a pattern. */
  function Captures(r: Node): nat {
    match r
    case Capture(b) => 1 + Captures(b)
    case Look(_, b) => Captures(b)
    case Then(a, b) => Captures(a) + Captures(b)
    case Or(a, b) => Captures(a) + Captures(b)
    case Repeat(b, _, _, _) => Captures(b)
    case _ => 0
  }

  /** A lower bound for the characters a match consumes, positive only if every match consumes some. */
  function MinLen(r: Node): nat {
    match r
    case Literal(_) => 1
    case AnyButLine => 1
    case AnyChar => 1
    case Class(_) => 1
    case Capture(b) => MinLen(b)
    case Then(a, b) => MinLen(a) + MinLen(b)
    case Or(a, b) => if MinLen(a) < MinLen(b) then MinLen(a) else MinLen(b)
    case Repeat(b, min, _, _) => if min == 0 then 0 else MinLen(b)
    case _ => 0
  }

  /** What the parser guarantees. */
  predicate Parsed(r: Node) {
    match r
    case Literal(c) => c <= MAX_CODE_POINT
    case Class(points) => Sorted(points)
    case Capture(b) => Parsed(b)
    case Look(_, b) => Parsed(b)
    case Then(a, b) => Parsed(a) && Parsed(b)
    case Or(a, b) => Parsed(a) && Parsed(b)
    case Repeat(b, min, max, _) => Parsed(b) && min <= max <= INT32_MAX
    case _ => true
  }

  /** No class has too many ranges. */
  predicate RangesFit(r: Node) {
    match r
    case Class(points) => |points| / 2 < 65535
    case Capture(b) => RangesFit(b)
    case Look(_, b) => RangesFit(b)
    case Then(a, b) => RangesFit(a) && RangesFit(b)
    case Or(a, b) => RangesFit(a) && RangesFit(b)
    case Repeat(b, _, _, _) => RangesFit(b)
    case _ => true
  }

  /** The body of an unbounded non-greedy repetition always consumes: no zero-advance check is emitted for it. */
  predicate LazyConsumes(r: Node) {
    match r
    case Capture(b) => LazyConsumes(b)
    case Look(_, b) => LazyConsumes(b)
    case Then(a, b) => LazyConsumes(a) && LazyConsumes(b)
    case Or(a, b) => LazyConsumes(a) && LazyConsumes(b)
    case Repeat(b, _, max, greedy) => LazyConsumes(b) && (!greedy && max == INT32_MAX ==> MinLen(b) > 0)
    case _ => true
  }

  /** All three: the patterns whose code the machine runs as the pattern means. */
  predicate WellFormed(r: Node): (w: bool)
    ensures w ==> Parsed(r)
  {
    match r
    case Literal(c) => c <= MAX_CODE_POINT
    case Class(points) => ClassOk(points)
    case Capture(b) => WellFormed(b)
    case Look(_, b) => WellFormed(b)
    case Then(a, b) => WellFormed(a) && WellFormed(b)
    case Or(a, b) => WellFormed(a) && WellFormed(b)
    case Repeat(b, min, max, greedy) =>
      WellFormed(b) && min <= max <= INT32_MAX && (!greedy && max == INT32_MAX ==> MinLen(b) > 0)
    case _ => true
  }

  lemma {:induction false} WellFormedParts(r: Node)
    ensures WellFormed(r) <==> Parsed(r) && RangesFit(r) && LazyConsumes(r)
    decreases r
  {
    match r
    case Capture(b) => WellFormedParts(b);
    case Look(_, b) => WellFormedParts(b);
    case Then(a, b) => WellFormedParts(a); WellFormedParts(b);
    case Or(a, b) => WellFormedParts(a); WellFormedParts(b);
    case Repeat(b, _, _, _) => WellFormedParts(b);
    case _ =>
  }

  // ----- fragments of code -----

  function Total(f: seq<Instr>): (n: nat)
  {
    if f == [] then 0 else Size(f[0]) + Total(f[1..])
  }

  lemma {:induction false} TotalAppend(f: seq<Instr>, g: seq<Instr>)
    ensures Total(f + g) == Total(f) + Total(g)
    decreases |f|
  {
    if f == [] {
      assert f + g == g;
    } else {
      assert (f + g)[1..] == f[1..] + g;
      TotalAppend(f[1..], g);
    }
  }

  // ----- the scans -----

  predicate IsChar(i: Instr) { i.Char? || i.Char32? || i.Dot? || i.Any? || i.Range? || i.Range32? }

  predicate IsAssertion(i: Instr) { i.LineStart? || i.LineEnd? || i.WordBoundary? }

  /** re_is_simple_quantifier on instructions: the number of character instructions, or -1. */
  function SimpleCount(f: seq<Instr>): (n: int)
    ensures n >= -1
  {
    if f == [] then 0
    else if IsChar(f[0]) then (var n := SimpleCount(f[1..]); if n < 0 then -1 else n + 1)
    else if IsAssertion(f[0]) then SimpleCount(f[1..])
    else -1
  }

  lemma {:induction false} SimpleAppend(f: seq<Instr>, g: seq<Instr>)
    ensures SimpleCount(f + g) == if SimpleCount(f) < 0 || SimpleCount(g) < 0 then -1 else SimpleCount(f) + SimpleCount(g)
    decreases |f|
  {
    if f == [] {
      assert f + g == g;
    } else {
      assert (f + g)[1..] == f[1..] + g;
      SimpleAppend(f[1..], g);
    }
  }

  datatype Verdict = Unknown | Advances | MayStay

  /** Instructions that neither move the position nor branch. */
  predicate NoEffect(i: Instr) {
    IsAssertion(i) || i.PushI32? || i.PushCharPos? || i.Drop? || i.SaveStart? || i.SaveEnd? || i.SaveReset?
  }

  /** re_check_advance on instructions. */
  function AdvanceScan(f: seq<Instr>): Verdict {
    if f == [] then Unknown
    else if IsChar(f[0]) then Advances
    else if NoEffect(f[0]) then AdvanceScan(f[1..])
    else MayStay
  }

  lemma {:induction false} AdvanceAppend(f: seq<Instr>, g: seq<Instr>)
    ensures AdvanceScan(f + g) == if AdvanceScan(f).Unknown? then AdvanceScan(g) else AdvanceScan(f)
    decreases |f|
  {
    if f == [] {
      assert f + g == g;
    } else {
      assert (f + g)[1..] == f[1..] + g;
      AdvanceAppend(f[1..], g);
    }
  }

  /** Change of the stack depth, in the order of the code. */
  function Delta(i: Instr): int {
    if i.PushI32? || i.PushCharPos? then 1 else if i.Drop? || i.BneCharPos? then -1 else 0
  }

  function NetDepth(f: seq<Instr>): int {
    if f == [] then 0 else Delta(f[0]) + NetDepth(f[1..])
  }

  function Max(a: int, b: int): int { if a < b then b else a }

  /** compute_stack_size on instructions: the largest depth reached above the start, at least 0. */
  function MaxDepth(f: seq<Instr>): (n: nat) {
    if f == [] then 0 else Max(0, Delta(f[0]) + MaxDepth(f[1..]))
  }

  /** The smallest depth reached relative to the start, at most 0. */
  function MinDepth(f: seq<Instr>): (n: int)
    ensures n <= 0
  {
    if f == [] then 0 else -Max(0, -(Delta(f[0]) + MinDepth(f[1..])))
  }

  lemma {:induction false} DepthAppend(f: seq<Instr>, g: seq<Instr>)
    ensures NetDepth(f + g) == NetDepth(f) + NetDepth(g)
    ensures MaxDepth(f + g) == Max(MaxDepth(f), NetDepth(f) + MaxDepth(g))
    ensures MinDepth(f + g) == -Max(-MinDepth(f), -(NetDepth(f) + MinDepth(g)))
    decreases |f|
  {
    if f == [] {
      assert f + g == g;
    } else {
      assert (f + g)[1..] == f[1..] + g;
      DepthAppend(f[1..], g);
    }
  }

  // ----- the code of a pattern -----

  function Bit(b: bool): nat { if b then 1 else 0 }

  /** A greedy or non-greedy repetition of body as the simple quantifier instruction. */
  function SimpleLoop(body: seq<Instr>, min: nat, max: nat): seq<Instr>
    requires SimpleCount(body) >= 0
  {
    [SimpleGreedy(Total(body) + 1, min, max, SimpleCount(body))] + body + [Match]
  }

  /** An unbounded loop: split, optional position push, body, jump back. */
  function StarLoop(body: seq<Instr>, greedy: bool, check: bool): seq<Instr> {
    var n := Total(body);
    var z := Bit(check);
    [Split(greedy, n + 5 + z)] + (if check then [PushCharPos] else []) + body
    + [if check then BneCharPos(-(5 + z + n + 5)) else Goto(-(5 + z + n + 5))]
  }

  /** At most max copies, with a counter on the stack. */
  function CountedOption(body: seq<Instr>, max: nat, greedy: bool): seq<Instr> {
    var n := Total(body);
    [PushI32(max), Split(greedy, n + 5)] + body + [Loop(-(5 + n + 5)), Drop]
  }

  /** Exactly min >= 2 copies, with a counter on the stack. */
  function CountedLoop(body: seq<Instr>, min: nat): seq<Instr> {
    [PushI32(min)] + body + [Loop(-(Total(body) + 5)), Drop]
  }

  /** The part of a repetition after the mandatory copies. */
  function RepeatTail(body: seq<Instr>, extra: nat, unbounded: bool, greedy: bool, check: bool): seq<Instr> {
    if unbounded then StarLoop(body, greedy, check)
    else if extra > 0 then CountedOption(body, extra, greedy)
    else []
  }

  function ResetCode(cc: nat, caps: nat): seq<Instr> {
    if caps > 0 then [SaveReset(cc, cc + caps - 1)] else []
  }

  /** Whether the loop body gets a zero-advance check. */
  predicate NeedsCheck(body: seq<Instr>, greedy: bool) { greedy && !AdvanceScan(body).Advances? }

  predicate UseSimple(body: seq<Instr>, max: nat, greedy: bool) { greedy && max > 0 && SimpleCount(body) > 0 }

  function RepeatCode(body: seq<Instr>, cc: nat, caps: nat, min: nat, max: nat, greedy: bool): seq<Instr>
    requires min <= max
  {
    var check := NeedsCheck(body, greedy);
    if UseSimple(body, max, greedy) then SimpleLoop(body, min, max)
    else if min == 0 then
      ResetCode(cc, caps) +
      (if max == 0 then []
       else if max == 1 then [Split(greedy, Total(body))] + body
       else RepeatTail(body, max, max == INT32_MAX, greedy, check))
    else if min == 1 && max == INT32_MAX && !check then
      body + [Split(!greedy, -(Total(body) + 5))]
    else
      (if min == 1 then body else CountedLoop(body, min))
      + RepeatTail(body, max - min, max == INT32_MAX, greedy, check)
  }

  /** The code of a pattern whose first capture group has index cc. */
  function Code(r: Node, cc: nat): seq<Instr>
    requires Parsed(r)
  {
    match r
    case Empty => []
    case Literal(c) => [if c <= 0xFFFF then Char(c) else Char32(c)]
    case AnyButLine => [Dot]
    case AnyChar => [Any]
    case Bol => [LineStart]
    case Eol => [LineEnd]
    case Word(negated) => [WordBoundary(negated)]
    case Class(points) => [RangeInstr(points)]
    case Capture(b) => [SaveStart(cc)] + Code(b, cc + 1) + [SaveEnd(cc)]
    case Look(negated, b) => [Lookahead(negated, Total(Code(b, cc)) + 1)] + Code(b, cc) + [Match]
    case Then(a, b) => Code(a, cc) + Code(b, cc + Captures(a))
    case Or(a, b) =>
      var f, g := Code(a, cc), Code(b, cc + Captures(a));
      [Split(true, Total(f) + 5)] + f + [Goto(Total(g))] + g
    case Repeat(b, min, max, greedy) => RepeatCode(Code(b, cc), cc, Captures(b), min, max, greedy)
  }

  /** Stack room the code of a pattern needs. */
  function Depth(r: Node, cc: nat): nat
    requires WellFormed(r)
  {
    MaxDepth(Code(r, cc))
  }
}
