/** Byte strings of code fragments, reading them back one instruction at a time, and the operand bounds of emitted code. */
module ReLayout {
  import opened ReBytes
  import opened ReClass
  import opened ReCode
  import opened ReSemantics
  import opened ReProgress
  import opened ReMachine
  import opened ReDepth

  /** The encoding of a fragment. */
  function Bytes(f: seq<Instr>): (b: seq<byte>)
    ensures |b| == Total(f)
  {
    if f == [] then [] else Encode(f[0]) + Bytes(f[1..])
  }

  lemma {:induction false} BytesAppend(f: seq<Instr>, g: seq<Instr>)
    ensures Bytes(f + g) == Bytes(f) + Bytes(g) && Total(f + g) == Total(f) + Total(g)
    decreases |f|
  {
    hide Encode, Size;
    if f == [] {
      assert f + g == g;
    } else {
      assert (f + g)[1..] == f[1..] + g;
      BytesAppend(f[1..], g);
    }
  }

  lemma BytesOne(i: Instr)
    ensures Bytes([i]) == Encode(i)
  {
    assert [i][1..] == [];
  }

  lemma BytesTwo(i: Instr, j: Instr)
    ensures Bytes([i, j]) == Encode(i) + Encode(j)
  {
    assert [i, j][1..] == [j];
    BytesOne(j);
  }

  // ----- one instruction at a time -----

  /** The opcode, and the size reopcode_info gives for it. */
  function OpSize(op: byte): nat {
    if op in {1, 13, 21, 22} then 3
    else if op in {2, 7, 8, 9, 14, 15, 23, 24, 26} then 5
    else if op in {11, 12, 19, 20} then 2
    else if op == 28 then 17
    else 1
  }

  /** The pair count of a range instruction fits its field. */
  predicate CountFits(i: Instr) { i.Range? || i.Range32? ==> |i.pairs| < U16 }

  predicate CountsFit(f: seq<Instr>) { forall k :: 0 <= k < |f| ==> CountFits(f[k]) }

  /** What the first bytes of an instruction say. */
  lemma Head(b: seq<byte>, p: nat, i: Instr)
    requires Has(b, p, Encode(i)) && CountFits(i)
    ensures p < |b| && b[p] == Encode(i)[0]
    ensures !i.Range? && !i.Range32? ==> Size(i) == OpSize(b[p])
    ensures i.Range? || i.Range32? ==> p + 3 <= |b| && Get16(b, p + 1) == |i.pairs| && OpSize(b[p]) == 3
  {
    hide Put16, Put32, PutPairs16, PutPairs32, Get16;
    assert b[p] == b[p..p + |Encode(i)|][0];
    if i.Range? || i.Range32? { HeadRange(b, p, i); }
  }

  lemma HeadRange(b: seq<byte>, p: nat, i: Instr)
    requires (i.Range? || i.Range32?) && Has(b, p, Encode(i)) && CountFits(i)
    ensures p + 3 <= |b| && Get16(b, p + 1) == |i.pairs|
  {
    hide Put32, PutPairs16, PutPairs32, Get16, Put16;
    var n := Put16(|i.pairs|);
    var w := if i.Range? then PutPairs16(i.pairs) else PutPairs32(i.pairs);
    assert Encode(i) == [Encode(i)[0]] + (n + w);
    HasParts(b, p, [Encode(i)[0]], n + w);
    HasParts(b, p + 1, n, w);
    Read16(b, p + 1, |i.pairs|);
  }

  /** Reading the instruction at p of a fragment lying from p to the end of the buffer. */
  method Fetch(b: seq<byte>, p: nat, ghost g: seq<Instr>) returns (op: byte, len: nat)
    requires p < |b| && b[p..] == Bytes(g) && CountsFit(g)
    ensures |g| > 0 && op == Encode(g[0])[0] && len == Size(g[0]) && p + len <= |b| && b[p + len..] == Bytes(g[1..]) && CountsFit(g[1..])
  {
    hide Encode;
    ghost var w := Encode(g[0]);
    assert b[p..] == w + Bytes(g[1..]);
    assert b[p..p + |w|] == b[p..][..|w|] == w;
    assert b[p + |w|..] == b[p..][|w|..] == Bytes(g[1..]);
    Head(b, p, g[0]);
    op := b[p];
    len := OpSize(op);
    EncodeOp(g[0]);
    if op == 21 {
      len := len + 4 * Get16(b, p + 1);
    } else if op == 22 {
      len := len + 8 * Get16(b, p + 1);
    }
  }

  lemma EncodeOp(i: Instr)
    ensures Encode(i)[0] == 21 <==> i.Range?
    ensures Encode(i)[0] == 22 <==> i.Range32?
    ensures Encode(i)[0] in {1, 2, 3, 4, 21, 22} <==> IsChar(i)
    ensures Encode(i)[0] in {5, 6, 17, 18} <==> IsAssertion(i)
    ensures Encode(i)[0] in {15, 25} <==> i.PushI32? || i.PushCharPos?
    ensures Encode(i)[0] in {16, 26} <==> i.Drop? || i.BneCharPos?
    ensures Encode(i)[0] in {11, 12, 13} <==> i.SaveStart? || i.SaveEnd? || i.SaveReset?
    ensures Encode(i)[0] in {5, 6, 15, 25, 16, 17, 18} <==> IsAssertion(i) || i.PushI32? || i.PushCharPos? || i.Drop?
  {}

  /** The opcodes in the order of libregexp-opcode.h. */
  datatype Opcode =
    OpInvalid | OpChar | OpChar32 | OpDot | OpAny | OpLineStart | OpLineEnd | OpGoto | OpSplitGotoFirst |
    OpSplitNextFirst | OpMatch | OpSaveStart | OpSaveEnd | OpSaveReset | OpLoop | OpPushI32 | OpDrop |
    OpWordBoundary | OpNotWordBoundary | OpBackReference | OpBackwardBackReference | OpRange | OpRange32 |
    OpLookahead | OpNegativeLookahead | OpPushCharPos | OpBneCharPos | OpPrev | OpSimpleGreedyQuant

  /** The opcodes with their numbers as positions, and their sizes. */
  const OPCODES: seq<(Opcode, nat)> := [
    (OpInvalid, 1), (OpChar, 3), (OpChar32, 5), (OpDot, 1), (OpAny, 1), (OpLineStart, 1), (OpLineEnd, 1),
    (OpGoto, 5), (OpSplitGotoFirst, 5), (OpSplitNextFirst, 5), (OpMatch, 1), (OpSaveStart, 2), (OpSaveEnd, 2),
    (OpSaveReset, 3), (OpLoop, 5), (OpPushI32, 5), (OpDrop, 1), (OpWordBoundary, 1), (OpNotWordBoundary, 1),
    (OpBackReference, 2), (OpBackwardBackReference, 2), (OpRange, 3), (OpRange32, 3), (OpLookahead, 5),
    (OpNegativeLookahead, 5), (OpPushCharPos, 1), (OpBneCharPos, 5), (OpPrev, 1), (OpSimpleGreedyQuant, 17)]

  function OpcodeOf(i: Instr): Opcode {
    match i
    case Char(_) => OpChar
    case Char32(_) => OpChar32
    case Dot => OpDot
    case Any => OpAny
    case LineStart => OpLineStart
    case LineEnd => OpLineEnd
    case Goto(_) => OpGoto
    case Split(nextFirst, _) => if nextFirst then OpSplitNextFirst else OpSplitGotoFirst
    case Match => OpMatch
    case SaveStart(_) => OpSaveStart
    case SaveEnd(_) => OpSaveEnd
    case SaveReset(_, _) => OpSaveReset
    case Loop(_) => OpLoop
    case PushI32(_) => OpPushI32
    case Drop => OpDrop
    case WordBoundary(negated) => if negated then OpNotWordBoundary else OpWordBoundary
    case Range(_) => OpRange
    case Range32(_) => OpRange32
    case Lookahead(negated, _) => if negated then OpNegativeLookahead else OpLookahead
    case PushCharPos => OpPushCharPos
    case BneCharPos(_) => OpBneCharPos
    case SimpleGreedy(_, _, _, _) => OpSimpleGreedyQuant
  }

  /** The first byte of an instruction is its number in the table, which also gives its size, apart from the pairs of a range. */
  lemma OpcodeTable(i: Instr)
    ensures var op := Encode(i)[0]; op < |OPCODES| && OPCODES[op].0 == OpcodeOf(i)
    ensures Size(i) == OPCODES[Encode(i)[0]].1 + (if i.Range? then 4 * |i.pairs| else if i.Range32? then 8 * |i.pairs| else 0)
  {
    hide Put16, Put32, PutPairs16, PutPairs32;
  }

  // ----- the three scans -----

  /** re_is_simple_quantifier on the bytes from start on. */
  method IsSimpleQuantifier(b: seq<byte>, start: nat, ghost f: seq<Instr>) returns (n: int)
    requires start <= |b| && b[start..] == Bytes(f) && CountsFit(f)
    ensures n == SimpleCount(f)
  {
    hide Encode;
    var p := start;
    var count := 0;
    ghost var g := f;
    while p < |b|
      invariant start <= p <= |b| && b[p..] == Bytes(g) && CountsFit(g) && count >= 0
      invariant SimpleCount(f) == if SimpleCount(g) < 0 then -1 else count + SimpleCount(g)
      decreases |b| - p
    {
      var op, len := Fetch(b, p, g);
      EncodeOp(g[0]);
      if op in {1, 2, 3, 4, 21, 22} {
        count := count + 1;
      } else if op !in {5, 6, 17, 18} {
        return -1;
      }
      p := p + len;
      g := g[1..];
    }
    NoBytes(g);
    n := count;
  }

  lemma NoBytes(g: seq<Instr>)
    ensures g != [] ==> |Bytes(g)| > 0
  {
    hide Encode;
  }

  /** re_check_advance on the bytes from start on; without back references the result is 0 or 1. */
  method CheckAdvance(b: seq<byte>, start: nat, ghost f: seq<Instr>) returns (r: int)
    requires start <= |b| && b[start..] == Bytes(f) && CountsFit(f)
    ensures r == if AdvanceScan(f).Advances? then 1 else 0
  {
    hide Encode;
    var p := start;
    r := -2;
    ghost var g := f;
    while p < |b|
      invariant start <= p <= |b| && b[p..] == Bytes(g) && CountsFit(g)
      invariant r == -2 || r == 0 || r == 1
      invariant r == -2 ==> AdvanceScan(f) == AdvanceScan(g)
      invariant r == 1 ==> AdvanceScan(f).Advances?
      invariant r == 0 ==> AdvanceScan(f).MayStay?
      decreases |b| - p
    {
      var op, len := Fetch(b, p, g);
      EncodeOp(g[0]);
      if op in {1, 2, 3, 4, 21, 22} {
        if r == -2 { r := 1; }
      } else if op in {5, 6, 15, 25, 16, 17, 18} {
      } else if op in {11, 12, 13} {
      } else {
        if r == -2 { r := 0; }
      }
      p := p + len;
      g := g[1..];
    }
    NoBytes(g);
    if r == -2 { r := 0; }
  }

  /** compute_stack_size on the bytes after the header: the largest depth, or -1 beyond STACK_SIZE_MAX.
      The stack never underflows on the way when the code never goes below its start. */
  method ComputeStackSize(b: seq<byte>, start: nat, ghost f: seq<Instr>) returns (n: int)
    requires start <= |b| && b[start..] == Bytes(f) && CountsFit(f) && MinDepth(f) == 0
    ensures n == if MaxDepth(f) > 255 then -1 else MaxDepth(f)
  {
    hide Encode;
    var p := start;
    var size, max := 0, 0;
    ghost var g := f;
    while p < |b|
      invariant start <= p <= |b| && b[p..] == Bytes(g) && CountsFit(g)
      invariant 0 <= size <= max <= 255 && size + MinDepth(g) >= 0
      invariant MaxDepth(f) == Max(max, size + MaxDepth(g))
      decreases |b| - p
    {
      var op, len := Fetch(b, p, g);
      EncodeOp(g[0]);
      if op in {15, 25} {
        size := size + 1;
        if size > max {
          if size > 255 { return -1; }
          max := size;
        }
      } else if op in {16, 26} {
        assert size > 0;
        size := size - 1;
      }
      p := p + len;
      g := g[1..];
    }
    NoBytes(g);
    n := max;
  }

  // ----- emitted code can be decoded -----

  predicate AllFit(f: seq<Instr>) { forall k :: 0 <= k < |f| ==> Fits(f[k]) }

  lemma AllFitAppend(f: seq<Instr>, g: seq<Instr>)
    requires AllFit(f) && AllFit(g)
    ensures AllFit(f + g)
  {
    hide Fits;
  }

  lemma AllFitOne(i: Instr)
    requires Fits(i)
    ensures AllFit([i])
  {}

  /** Encoded instructions lying in a buffer are decoded again there. */
  lemma {:induction false} BytesHold(b: seq<byte>, p: nat, f: seq<Instr>)
    requires Has(b, p, Bytes(f)) && AllFit(f)
    ensures Holds(b, p, f)
    decreases |f|
  {
    hide Encode, Decode, Fits;
    if f != [] {
      HasParts(b, p, Encode(f[0]), Bytes(f[1..]));
      DecodeEncode(b, p, f[0]);
      BytesHold(b, p + Size(f[0]), f[1..]);
    }
  }

  const SIZE_LIMIT: int := 0x8000_0000

  lemma {:induction false} SimpleBelow(f: seq<Instr>)
    ensures SimpleCount(f) <= Total(f)
    decreases |f|
  {
    hide Size, IsChar, IsAssertion;
    if f != [] { SimpleBelow(f[1..]); }
  }

  lemma LeafFits(r: Node, cc: nat)
    requires Parsed(r) && RangesFit(r) && (IsCharNode(r) || IsAssertNode(r) || r.Empty?)
    ensures AllFit(Code(r, cc))
  {
    hide Pairs, Narrow;
    if r.Class? { ClassAccepted(r.points, 0); }
  }

  lemma StarFits(f: seq<Instr>, greedy: bool, check: bool)
    requires AllFit(f) && Total(f) + 10 + Bit(check) < SIZE_LIMIT
    ensures AllFit(StarLoop(f, greedy, check))
  {
    hide Total;
  }

  lemma CountedFits(f: seq<Instr>, n: nat, greedy: bool)
    requires AllFit(f) && Total(f) + 11 < SIZE_LIMIT && n <= INT32_MAX
    ensures AllFit(CountedOption(f, n, greedy)) && AllFit(CountedLoop(f, n))
  {
    hide Total;
  }

  lemma TailFits(f: seq<Instr>, extra: nat, unbounded: bool, greedy: bool, check: bool)
    requires AllFit(f) && extra <= INT32_MAX && NetDepth(f) == 0
    requires Total(RepeatTail(f, extra, unbounded, greedy, check)) < SIZE_LIMIT
    ensures AllFit(RepeatTail(f, extra, unbounded, greedy, check))
    ensures unbounded || extra > 0 ==> Total(f) < Total(RepeatTail(f, extra, unbounded, greedy, check))
  {
    hide Total, StarLoop, CountedOption, NetDepth, MaxDepth, MinDepth, Fits;
    if unbounded {
      StarDepth(f, greedy, check);
      StarFits(f, greedy, check);
    } else if extra > 0 {
      OptionDepth(f, extra, greedy);
      CountedFits(f, extra, greedy);
    }
  }

  /** A repetition whose body is kept contains at least one copy of it. */
  lemma RepeatTotal(f: seq<Instr>, cc: nat, caps: nat, min: nat, max: nat, greedy: bool)
    requires NetDepth(f) == 0 && min <= max && max > 0
    ensures Total(f) <= Total(RepeatCode(f, cc, caps, min, max, greedy))
  {
    hide RepeatTail, CountedLoop, NetDepth, MaxDepth, MinDepth, Total;
    var check := NeedsCheck(f, greedy);
    if UseSimple(f, max, greedy) {
      SimpleLoopDepth(f, min, max);
    } else if min == 0 {
      var rest := if max == 1 then [Split(greedy, Total(f))] + f else RepeatTail(f, max, max == INT32_MAX, greedy, check);
      TotalAppend(ResetCode(cc, caps), rest);
      TotalAppend([Split(greedy, Total(f))], f);
      TailTotal(f, max, max == INT32_MAX, greedy, check);
    } else if min == 1 && max == INT32_MAX && !check {
      TotalAppend(f, [Split(!greedy, -(Total(f) + 5))]);
    } else {
      TotalAppend(if min == 1 then f else CountedLoop(f, min), RepeatTail(f, max - min, max == INT32_MAX, greedy, check));
      LoopDepth(f, min);
    }
  }

  lemma TailTotal(f: seq<Instr>, extra: nat, unbounded: bool, greedy: bool, check: bool)
    requires NetDepth(f) == 0 && (unbounded || extra > 0)
    ensures Total(f) <= Total(RepeatTail(f, extra, unbounded, greedy, check))
  {
    hide NetDepth, Total;
    if unbounded { StarDepth(f, greedy, check); } else { OptionDepth(f, extra, greedy); }
  }

  lemma ResetFits(cc: nat, caps: nat)
    requires cc + caps <= 256
    ensures AllFit(ResetCode(cc, caps))
  {}

  lemma SimpleFits(f: seq<Instr>, min: nat, max: nat)
    requires AllFit(f) && SimpleCount(f) >= 0 && min <= max <= INT32_MAX && Total(SimpleLoop(f, min, max)) < SIZE_LIMIT && NetDepth(f) == 0
    ensures AllFit(SimpleLoop(f, min, max))
  {
    hide Total, NetDepth, SimpleCount;
    SimpleBelow(f);
    SimpleLoopDepth(f, min, max);
  }

  lemma RepeatFits(f: seq<Instr>, cc: nat, caps: nat, min: nat, max: nat, greedy: bool)
    requires (max > 0 ==> AllFit(f)) && NetDepth(f) == 0 && min <= max <= INT32_MAX && cc + caps <= 256
    requires Total(RepeatCode(f, cc, caps, min, max, greedy)) < SIZE_LIMIT
    ensures AllFit(RepeatCode(f, cc, caps, min, max, greedy))
  {
    hide RepeatTail, CountedLoop, SimpleLoop, NetDepth, MaxDepth, MinDepth, Total, AllFit;
    var check := NeedsCheck(f, greedy);
    ResetFits(cc, caps);
    if UseSimple(f, max, greedy) {
      SimpleFits(f, min, max);
    } else if min == 0 {
      var rest := if max == 0 then [] else if max == 1 then [Split(greedy, Total(f))] + f
                  else RepeatTail(f, max, max == INT32_MAX, greedy, check);
      TotalAppend(ResetCode(cc, caps), rest);
      if max == 0 {
        NothingFits();
      } else if max == 1 {
        TotalAppend([Split(greedy, Total(f))], f);
        AllFitOne(Split(greedy, Total(f)));
        AllFitAppend([Split(greedy, Total(f))], f);
      } else {
        TailFits(f, max, max == INT32_MAX, greedy, check);
      }
      AllFitAppend(ResetCode(cc, caps), rest);
    } else if min == 1 && max == INT32_MAX && !check {
      var i := Split(!greedy, -(Total(f) + 5));
      TotalAppend(f, [i]);
      HoldsTotal(i);
      AllFitOne(i);
      AllFitAppend(f, [i]);
    } else {
      var first, tail := if min == 1 then f else CountedLoop(f, min), RepeatTail(f, max - min, max == INT32_MAX, greedy, check);
      TotalAppend(first, tail);
      if min > 1 {
        LoopDepth(f, min);
        CountedFits(f, min, greedy);
      }
      TailFits(f, max - min, max == INT32_MAX, greedy, check);
      AllFitAppend(first, tail);
    }
  }

  lemma HoldsTotal(i: Instr)
    ensures Total([i]) == Size(i)
  {
    assert [i][1..] == [];
  }

  lemma NothingFits()
    ensures AllFit([])
  {}

  lemma WrapFits(i: Instr, f: seq<Instr>, j: Instr)
    requires Fits(i) && AllFit(f) && Fits(j)
    ensures AllFit([i] + f + [j])
  {
    hide Fits;
  }

  lemma WrapTotals(i: Instr, f: seq<Instr>, j: Instr)
    ensures Total([i] + f + [j]) == Size(i) + Total(f) + Size(j)
  {
    hide Total;
    WrapDepth(i, f, j);
  }

  lemma OrFits(f: seq<Instr>, g: seq<Instr>)
    requires AllFit(f) && AllFit(g) && 5 + Total(f) + 5 + Total(g) < SIZE_LIMIT
    ensures AllFit([Split(true, Total(f) + 5)] + f + [Goto(Total(g))] + g)
  {
    hide Total;
  }

  /** Every operand of the code of a pattern fits its field, when the captures do and the code is shorter than 2^31 bytes. */
  lemma {:induction false} CodeFits(r: Node, cc: nat)
    requires Parsed(r) && RangesFit(r) && cc + Captures(r) <= 256 && Total(Code(r, cc)) < SIZE_LIMIT
    ensures AllFit(Code(r, cc))
    decreases r
  {
    hide Total, Code, NetDepth, MaxDepth, MinDepth, AllFit, RepeatCode;
    match r
    case Capture(b) =>
      CaptureCode(r, cc);
      WrapTotals(SaveStart(cc), Code(b, cc + 1), SaveEnd(cc));
      CodeFits(b, cc + 1);
      WrapFits(SaveStart(cc), Code(b, cc + 1), SaveEnd(cc));
    case Look(negated, b) =>
      LookCode(r, cc);
      var i := Lookahead(negated, Total(Code(b, cc)) + 1);
      WrapTotals(i, Code(b, cc), Match);
      CodeFits(b, cc);
      WrapFits(i, Code(b, cc), Match);
    case Then(a, b) =>
      ThenCode(r, cc);
      TotalAppend(Code(a, cc), Code(b, cc + Captures(a)));
      CodeFits(a, cc);
      CodeFits(b, cc + Captures(a));
      AllFitAppend(Code(a, cc), Code(b, cc + Captures(a)));
    case Or(a, b) =>
      OrCode(r, cc);
      var f, g := Code(a, cc), Code(b, cc + Captures(a));
      NoNet(a, cc);
      NoNet(b, cc + Captures(a));
      OrDepth(f, g);
      CodeFits(a, cc);
      CodeFits(b, cc + Captures(a));
      OrFits(f, g);
    case Repeat(b, min, max, greedy) =>
      RepeatIs(r, cc);
      NoNet(b, cc);
      if max > 0 {
        RepeatTotal(Code(b, cc), cc, Captures(b), min, max, greedy);
        CodeFits(b, cc);
      }
      RepeatFits(Code(b, cc), cc, Captures(b), min, max, greedy);
    case _ => LeafFits(r, cc);
  }

  // ----- range counts -----

  lemma CountsAppend(f: seq<Instr>, g: seq<Instr>)
    requires CountsFit(f) && CountsFit(g)
    ensures CountsFit(f + g)
  {}

  lemma CountsOne(i: Instr)
    requires CountFits(i)
    ensures CountsFit([i])
  {}

  lemma PartCounts(f: seq<Instr>, extra: nat, unbounded: bool, greedy: bool, check: bool)
    requires CountsFit(f)
    ensures CountsFit(RepeatTail(f, extra, unbounded, greedy, check)) && CountsFit(CountedLoop(f, extra))
    ensures SimpleCount(f) >= 0 ==> forall min: nat :: CountsFit(SimpleLoop(f, min, extra))
  {
    hide Total, SimpleCount;
  }

  lemma RepeatCounts(f: seq<Instr>, cc: nat, caps: nat, min: nat, max: nat, greedy: bool)
    requires CountsFit(f) && min <= max
    ensures CountsFit(RepeatCode(f, cc, caps, min, max, greedy))
  {
    hide Total, SimpleCount, AdvanceScan, RepeatTail, CountedLoop, SimpleLoop, CountsFit;
    var check := NeedsCheck(f, greedy);
    if UseSimple(f, max, greedy) {
      PartCounts(f, max, false, greedy, check);
    } else if min == 0 {
      ResetCounts(cc, caps);
      PartCounts(f, max, max == INT32_MAX, greedy, check);
      CountsOne(Split(greedy, Total(f)));
      CountsAppend([Split(greedy, Total(f))], f);
      NothingCounts();
      CountsAppend(ResetCode(cc, caps), if max == 0 then [] else if max == 1 then [Split(greedy, Total(f))] + f
                                        else RepeatTail(f, max, max == INT32_MAX, greedy, check));
    } else if min == 1 && max == INT32_MAX && !check {
      CountsOne(Split(!greedy, -(Total(f) + 5)));
      CountsAppend(f, [Split(!greedy, -(Total(f) + 5))]);
    } else {
      PartCounts(f, min, false, greedy, check);
      PartCounts(f, max - min, max == INT32_MAX, greedy, check);
      CountsAppend(if min == 1 then f else CountedLoop(f, min), RepeatTail(f, max - min, max == INT32_MAX, greedy, check));
    }
  }

  lemma NothingCounts()
    ensures CountsFit([])
  {}

  lemma ResetCounts(cc: nat, caps: nat)
    ensures CountsFit(ResetCode(cc, caps))
  {}

  lemma {:induction false} CodeCounts(r: Node, cc: nat)
    requires Parsed(r) && RangesFit(r)
    ensures CountsFit(Code(r, cc))
    decreases r
  {
    hide Total, Code, CountsFit, RepeatCode;
    match r
    case Capture(b) =>
      CaptureCode(r, cc);
      CodeCounts(b, cc + 1);
      CountsOne(SaveStart(cc));
      CountsOne(SaveEnd(cc));
      CountsAppend([SaveStart(cc)], Code(b, cc + 1));
      CountsAppend([SaveStart(cc)] + Code(b, cc + 1), [SaveEnd(cc)]);
    case Look(negated, b) =>
      LookCode(r, cc);
      CodeCounts(b, cc);
      var i := Lookahead(negated, Total(Code(b, cc)) + 1);
      CountsOne(i);
      CountsOne(Match);
      CountsAppend([i], Code(b, cc));
      CountsAppend([i] + Code(b, cc), [Match]);
    case Then(a, b) =>
      ThenCode(r, cc);
      CodeCounts(a, cc);
      CodeCounts(b, cc + Captures(a));
      CountsAppend(Code(a, cc), Code(b, cc + Captures(a)));
    case Or(a, b) =>
      OrCode(r, cc);
      var f, g := Code(a, cc), Code(b, cc + Captures(a));
      CodeCounts(a, cc);
      CodeCounts(b, cc + Captures(a));
      CountsOne(Split(true, Total(f) + 5));
      CountsOne(Goto(Total(g)));
      CountsAppend([Split(true, Total(f) + 5)], f);
      CountsAppend([Split(true, Total(f) + 5)] + f, [Goto(Total(g))]);
      CountsAppend([Split(true, Total(f) + 5)] + f + [Goto(Total(g))], g);
    case Repeat(b, min, max, greedy) =>
      RepeatIs(r, cc);
      CodeCounts(b, cc);
      RepeatCounts(Code(b, cc), cc, Captures(b), min, max, greedy);
    case _ => LeafCounts(r, cc);
  }

  lemma LeafCounts(r: Node, cc: nat)
    requires Parsed(r) && RangesFit(r) && (IsCharNode(r) || IsAssertNode(r) || r.Empty?)
    ensures CountsFit(Code(r, cc))
  {
    hide Narrow;
  }
}
