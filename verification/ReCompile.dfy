/** The code generation of the regular expression compiler: byte code is appended, shifted, patched and copied in
    place, and always ends up as the encoding of the code of the pattern. */
module ReCompile {
  import opened ReBytes
  import opened ReClass
  import opened ReCode
  import opened ReSemantics
  import opened ReProgress
  import opened ReDepth
  import opened ReLayout

  const CAPTURE_COUNT_MAX: int := 255

  datatype Status = Done | TooManyCaptures | TooManyRanges

  /** The parts of REParseState that code generation updates. */
  class ParseState {
    var byteCode: seq<byte>
    var captureCount: nat

    constructor ()
      ensures byteCode == [] && captureCount == 1
    {
      byteCode := [];
      captureCount := 1;
    }

    // ----- the byte buffer -----

    method PutByte(v: int)
      modifies this`byteCode
      ensures byteCode == old(byteCode) + [v % 256]
    {
      byteCode := byteCode + [v % 256];
    }

    /** dbuf_put_u16 and dbuf_put_u32. */
    method Put(w: seq<byte>)
      modifies this`byteCode
      ensures byteCode == old(byteCode) + w
    {
      byteCode := byteCode + w;
    }

    /** dbuf_insert: the bytes from pos on move up; what the gap holds is left open. */
    method Insert(pos: nat, len: nat) returns (ghost gap: seq<byte>)
      requires pos <= |byteCode|
      modifies this`byteCode
      ensures |gap| == len && byteCode == old(byteCode)[..pos] + gap + old(byteCode)[pos..]
    {
      var junk: seq<byte> := seq(len, _ => 0);
      if len <= |byteCode| - pos { junk := byteCode[pos..pos + len]; }
      byteCode := byteCode[..pos] + junk + byteCode[pos..];
      gap := junk;
    }

    /** Overwriting the bytes at pos. */
    method Patch(pos: nat, w: seq<byte>)
      requires pos + |w| <= |byteCode|
      modifies this`byteCode
      ensures byteCode == old(byteCode)[..pos] + w + old(byteCode)[pos + |w|..]
    {
      byteCode := byteCode[..pos] + w + byteCode[pos + |w|..];
    }

    /** The next bytes of a gap opened by Insert, of which x is already written. */
    method Fill(pos: nat, w: seq<byte>, ghost pre: seq<byte>, ghost x: seq<byte>, ghost gap: seq<byte>, ghost rest: seq<byte>) returns (ghost left: seq<byte>)
      requires byteCode == pre + x + gap + rest && pos == |pre| + |x| && |w| <= |gap|
      modifies this`byteCode
      ensures |left| == |gap| - |w| && byteCode == pre + (x + w) + left + rest
    {
      left := gap[|w|..];
      ghost var a := pre + x;
      assert byteCode == a + (gap + rest);
      Patch(pos, w);
      assert (a + (gap + rest))[pos + |w|..] == left + rest;
      assert byteCode == a + w + (left + rest);
      assert a + w == pre + (x + w);
    }

    /** dbuf_put_self. */
    method PutSelf(offset: nat, len: nat)
      requires offset + len <= |byteCode|
      modifies this`byteCode
      ensures byteCode == old(byteCode) + old(byteCode)[offset..offset + len]
    {
      byteCode := byteCode + byteCode[offset..offset + len];
    }

    /** re_emit_op_u32: returns the position of the operand. */
    method EmitOpU32(op: byte, v: int) returns (pos: nat)
      modifies this`byteCode
      ensures byteCode == old(byteCode) + ([op] + Put32(v)) && pos == |old(byteCode)| + 1
    {
      PutByte(op);
      pos := |byteCode|;
      Put(Put32(v));
    }

    method EmitOpU16(op: byte, v: int)
      modifies this`byteCode
      ensures byteCode == old(byteCode) + ([op] + Put16(v))
    {
      PutByte(op);
      Put(Put16(v));
    }

    method EmitOpU8(op: byte, v: int)
      modifies this`byteCode
      ensures byteCode == old(byteCode) + [op, v % 256]
    {
      PutByte(op);
      PutByte(v);
    }

    /** re_emit_goto: a jump to the absolute position target. */
    method EmitGoto(op: byte, target: nat)
      modifies this`byteCode
      ensures byteCode == old(byteCode) + ([op] + Put32(target - (|old(byteCode)| + 5)))
    {
      PutByte(op);
      var pos := |byteCode|;
      Put(Put32(target - (pos + 4)));
    }

    /** An instruction with a 32-bit operand in front of the bytes from pos on. */
    method InsertOpU32(pos: nat, op: byte, v: int)
      requires pos <= |byteCode|
      modifies this`byteCode
      ensures byteCode == old(byteCode)[..pos] + ([op] + Put32(v)) + old(byteCode)[pos..]
    {
      ghost var a, b := byteCode[..pos], byteCode[pos..];
      ghost var gap := Insert(pos, 5);
      Patch(pos, [op]);
      assert byteCode == a + [op] + gap[1..] + b;
      Patch(pos + 1, Put32(v));
    }

    // ----- classes -----

    /** re_emit_range. */
    method EmitRange(points: seq<nat>) returns (e: Status)
      requires Sorted(points)
      modifies this`byteCode
      ensures e == if |points| / 2 < 65535 then Done else TooManyRanges
      ensures e.Done? ==> byteCode == old(byteCode) + Encode(RangeInstr(points))
    {
      hide Put16, Put32, PairBytes, Encode, RangeInstr, Sorted;
      var len := |points| / 2;
      OddPositive(points);
      if len >= 65535 { return TooManyRanges; }
      e := Done;
      RangeBytes(points);
      if len == 0 {
        var _ := EmitOpU32(2, -1);
      } else {
        var high := points[|points| - 1];
        if high == UINT32_MAX { high := points[|points| - 2]; }
        if high <= 0xFFFF {
          EmitOpU16(21, len);
          EmitPairs(points, true);
        } else {
          EmitOpU16(22, len);
          EmitPairs(points, false);
        }
      }
    }

    /** The bounds, in 16 or in 32 bits. */
    method EmitPairs(points: seq<nat>, narrow: bool)
      requires OddOk(points) && |points| % 2 == 0
      modifies this`byteCode
      ensures byteCode == old(byteCode) + PairBytes(points, narrow, 0)
    {
      hide Put16, Put32, PairBytes, OddOk;
      ghost var start := byteCode;
      var i := 0;
      while i < |points|
        invariant 0 <= i <= |points| && i % 2 == 0
        invariant byteCode + PairBytes(points, narrow, i) == start + PairBytes(points, narrow, 0)
      {
        ghost var b := byteCode;
        PairStep(points, narrow, i);
        var low, high: int := points[i], points[i + 1] - 1;
        if narrow {
          if high == UINT32_MAX - 1 { high := 0xFFFF; }
          Put(Put16(low));
          Put(Put16(high));
        } else {
          Put(Put32(low));
          Put(Put32(high));
        }
        ghost var x := if narrow then Put16(low) + Put16(high) else Put32(low) + Put32(high);
        assert byteCode == b + x;
        assert (b + x) + PairBytes(points, narrow, i + 2) == b + (x + PairBytes(points, narrow, i + 2));
        i := i + 2;
      }
      NoPairs(points, narrow);
    }

    // ----- quantifiers: the bytes f of the atom lie from start to the end of the buffer -----

    /** A greedy quantifier on an atom of len characters: the simple quantifier instruction in front of it. */
    method SimpleQuantifier(start: nat, min: nat, max: nat, len: nat, ghost pre: seq<byte>, ghost f: seq<Instr>)
      requires start == |pre| && byteCode == pre + Bytes(f) && len == SimpleCount(f)
      modifies this`byteCode
      ensures byteCode == pre + Bytes(SimpleLoop(f, min, max))
    {
      hide Bytes, Put32, SimpleCount, Total;
      ghost var w := Bytes(f);
      PutByte(10);
      ghost var gap := Insert(start, 17);
      ghost var rest := w + [10];
      Opened(pre, w, [10], gap);
      gap := Fill(start, [28], pre, [], gap, rest);
      gap := Fill(start + 1, Put32(|byteCode| - start - 17), pre, [28], gap, rest);
      ghost var x := [28] + Put32(|w| + 1);
      gap := Fill(start + 5, Put32(min), pre, x, gap, rest);
      gap := Fill(start + 9, Put32(max), pre, x + Put32(min), gap, rest);
      gap := Fill(start + 13, Put32(len), pre, x + Put32(min) + Put32(max), gap, rest);
      Filled(pre, x + Put32(min) + Put32(max) + Put32(len), gap, rest);
      SimpleBytes(f, min, max);
    }

    /** The instruction that unsets the captures of an atom that may be skipped; returns the new start of the atom. */
    method ResetCaptures(start0: nat, lastCaptures: nat, ghost pre: seq<byte>, ghost w: seq<byte>) returns (start: nat)
      requires start0 == |pre| && byteCode == pre + w && lastCaptures <= captureCount
      modifies this`byteCode
      ensures byteCode == pre + Bytes(ResetCode(lastCaptures, captureCount - lastCaptures)) + w
      ensures start == |pre + Bytes(ResetCode(lastCaptures, captureCount - lastCaptures))|
    {
      start := start0;
      if lastCaptures != captureCount {
        ghost var gap := Insert(start, 3);
        Opened(pre, w, [], gap);
        gap := Fill(start, [13], pre, [], gap, w);
        gap := Fill(start + 1, [lastCaptures % 256], pre, [13], gap, w);
        gap := Fill(start + 2, [(captureCount - 1) % 256], pre, [13] + [lastCaptures % 256], gap, w);
        start := start + 3;
        ghost var x := [13] + [lastCaptures % 256] + [(captureCount - 1) % 256];
        BytesOne(SaveReset(lastCaptures, captureCount - 1));
        assert x == Bytes(ResetCode(lastCaptures, captureCount - lastCaptures));
        Filled(pre, x, gap, w);
      }
    }

    /** No mandatory copy. */
    method Optional(start0: nat, lastCaptures: nat, max: nat, greedy: bool, check: bool, ghost pre: seq<byte>, ghost f: seq<Instr>)
      requires start0 == |pre| && byteCode == pre + Bytes(f) && lastCaptures <= captureCount
      modifies this`byteCode
      ensures byteCode == pre + Bytes(ResetCode(lastCaptures, captureCount - lastCaptures)
                                      + (if max == 0 then [] else if max == 1 then [Split(greedy, Total(f))] + f
                                         else RepeatTail(f, max, max == INT32_MAX, greedy, check)))
    {
      hide Bytes, Put32, Total, ResetCode, StarLoop, CountedOption;
      var len := |byteCode| - start0;
      ghost var w := Bytes(f);
      var start := ResetCaptures(start0, lastCaptures, pre, w);
      ghost var reset := ResetCode(lastCaptures, captureCount - lastCaptures);
      ghost var pre1 := pre + Bytes(reset);
      var op := if greedy then 9 else 8;
      if max == 0 {
        assert byteCode[..start] == pre1 && reset + [] == reset;
        byteCode := byteCode[..start];
      } else {
        BytesAppend(reset, if max == 1 then [Split(greedy, Total(f))] + f else RepeatTail(f, max, max == INT32_MAX, greedy, check));
        if max == 1 {
          InsertOpU32(start, op, len);
          OptionalBytes(f, greedy);
          assert byteCode == pre1 + Bytes([Split(greedy, Total(f))] + f);
        } else if max == INT32_MAX {
          LoopForever(start, len, greedy, check, pre1, f);
        } else {
          LoopAtMost(start, len, max, greedy, pre1, f);
        }
      }
    }

    /** An unbounded loop around the atom, with or without the zero-advance check. */
    method LoopForever(start: nat, len: nat, greedy: bool, check: bool, ghost pre: seq<byte>, ghost f: seq<Instr>)
      requires start == |pre| && byteCode == pre + Bytes(f) && len == Total(f)
      modifies this`byteCode
      ensures byteCode == pre + Bytes(StarLoop(f, greedy, check))
    {
      hide Bytes, Put32, Total;
      var z := Bit(check);
      ghost var w := Bytes(f);
      ghost var gap := Insert(start, 5 + z);
      Opened(pre, w, [], gap);
      var op := if greedy then 9 else 8;
      gap := Fill(start, [op], pre, [], gap, w);
      gap := Fill(start + 1, Put32(len + 5 + z), pre, [op], gap, w);
      ghost var x := [op] + Put32(len + 5 + z);
      if check {
        gap := Fill(start + 5, [25], pre, x, gap, w);
        x := x + [25];
      }
      Filled(pre, x, gap, w);
      EmitGoto(if check then 26 else 7, start);
      StarBytes(f, greedy, check);
      Regroup(pre, x, w, [if check then 26 else 7] + Put32(-(5 + z + len + 5)));
    }

    /** A loop around the atom with a counter on the stack. */
    method LoopAtMost(start: nat, len: nat, max: nat, greedy: bool, ghost pre: seq<byte>, ghost f: seq<Instr>)
      requires start == |pre| && byteCode == pre + Bytes(f) && len == Total(f) && max > 0
      modifies this`byteCode
      ensures byteCode == pre + Bytes(CountedOption(f, max, greedy))
    {
      hide Bytes, Put32, Total;
      ghost var w := Bytes(f);
      ghost var gap := Insert(start, 10);
      Opened(pre, w, [], gap);
      var op := if greedy then 9 else 8;
      gap := Fill(start, [15], pre, [], gap, w);
      gap := Fill(start + 1, Put32(max), pre, [15], gap, w);
      ghost var x := [15] + Put32(max);
      gap := Fill(start + 5, [op], pre, x, gap, w);
      gap := Fill(start + 6, Put32(len + 5), pre, x + [op], gap, w);
      x := x + [op] + Put32(len + 5);
      Filled(pre, x, gap, w);
      EmitGoto(14, start + 5);
      PutByte(16);
      CountedOptionBytes(f, max, greedy);
      Regroup(pre, x, w, [14] + Put32(-(5 + len + 5)));
      Regroup(pre, x + w, [14] + Put32(-(5 + len + 5)), [16]);
    }

    /** At least one mandatory copy: the atom once or in a counted loop, then a copy of it in the loop for the rest. */
    method AtLeast(start0: nat, min: nat, max: nat, greedy: bool, check: bool, ghost pre: seq<byte>, ghost f: seq<Instr>)
      requires start0 == |pre| && byteCode == pre + Bytes(f) && 1 <= min <= max
      modifies this`byteCode
      ensures byteCode == pre + Bytes((if min == 1 then f else CountedLoop(f, min)) + RepeatTail(f, max - min, max == INT32_MAX, greedy, check))
    {
      hide Bytes, Put32, Total, CountedLoop, RepeatTail;
      var start := start0;
      var len := |byteCode| - start;
      ghost var w := Bytes(f);
      if min != 1 {
        InsertOpU32(start, 15, min);
        ghost var x := [15] + Put32(min);
        assert byteCode == pre + x + w;
        start := start + 5;
        EmitGoto(14, start);
        PutByte(16);
        CountedLoopBytes(f, min);
        ghost var y := [14] + Put32(-(len + 5)) + [16];
        assert byteCode == pre + (x + w + y);
      }
      ghost var first, tail := if min == 1 then f else CountedLoop(f, min), RepeatTail(f, max - min, max == INT32_MAX, greedy, check);
      BytesAppend(first, tail);
      assert byteCode == pre + Bytes(first) && start + len <= |byteCode| && byteCode[start..start + len] == w;
      MoreCopies(start, len, max - min, max == INT32_MAX, greedy, check, f);
      assert byteCode == pre + (Bytes(first) + Bytes(tail));
    }

    /** The loop for the copies beyond the mandatory ones, around a copy of the atom. */
    method MoreCopies(start: nat, len: nat, extra: nat, unbounded: bool, greedy: bool, check: bool, ghost f: seq<Instr>)
      requires start + len <= |byteCode| && byteCode[start..start + len] == Bytes(f)
      modifies this`byteCode
      ensures byteCode == old(byteCode) + Bytes(RepeatTail(f, extra, unbounded, greedy, check))
    {
      hide Bytes, StarLoop, CountedOption;
      if unbounded {
        CopyForever(start, len, greedy, check, f);
      } else if extra > 0 {
        CopyAtMost(start, len, extra, greedy, f);
      } else {
        NoBytesNone();
      }
    }

    method CopyForever(start: nat, len: nat, greedy: bool, check: bool, ghost f: seq<Instr>)
      requires start + len <= |byteCode| && byteCode[start..start + len] == Bytes(f)
      modifies this`byteCode
      ensures byteCode == old(byteCode) + Bytes(StarLoop(f, greedy, check))
    {
      hide Bytes, Put32, Total;
      ghost var b, w := byteCode, Bytes(f);
      var op, z := if greedy then 9 else 8, Bit(check);
      var pos := |byteCode|;
      var _ := EmitOpU32(op, len + 5 + z);
      ghost var x := [op] + Put32(len + 5 + z);
      if check {
        PutByte(25);
        x := x + [25];
        assert byteCode == b + x;
      }
      Inside(b, x, start, len);
      PutSelf(start, len);
      EmitGoto(if check then 26 else 7, pos);
      StarBytes(f, greedy, check);
      Regroup(b, x, w, [if check then 26 else 7] + Put32(-(5 + z + len + 5)));
    }

    method CopyAtMost(start: nat, len: nat, extra: nat, greedy: bool, ghost f: seq<Instr>)
      requires start + len <= |byteCode| && byteCode[start..start + len] == Bytes(f)
      modifies this`byteCode
      ensures byteCode == old(byteCode) + Bytes(CountedOption(f, extra, greedy))
    {
      hide Bytes, Put32, Total;
      ghost var b, w := byteCode, Bytes(f);
      var op := if greedy then 9 else 8;
      var _ := EmitOpU32(15, extra);
      var pos := |byteCode|;
      var _ := EmitOpU32(op, len + 5);
      ghost var x := [15] + Put32(extra) + [op] + Put32(len + 5);
      Regroup(b, [15] + Put32(extra), [op], Put32(len + 5));
      assert byteCode == b + x by { assert b + ([15] + Put32(extra)) + ([op] + Put32(len + 5)) == b + x; }
      Inside(b, x, start, len);
      PutSelf(start, len);
      EmitGoto(14, pos);
      PutByte(16);
      CountedOptionBytes(f, extra, greedy);
      Regroup(b, x, w, [14] + Put32(-(5 + len + 5)));
      Regroup(b, x + w, [14] + Put32(-(5 + len + 5)), [16]);
    }

    /** The quantifier part of re_parse_term. */
    method Quantifier(start: nat, lastCaptures: nat, min: nat, max: nat, greedy: bool, ghost pre: seq<byte>, ghost f: seq<Instr>)
      requires start == |pre| && byteCode == pre + Bytes(f) && CountsFit(f) && lastCaptures <= captureCount && min <= max
      modifies this`byteCode
      ensures byteCode == pre + Bytes(RepeatCode(f, lastCaptures, captureCount - lastCaptures, min, max, greedy))
    {
      hide Bytes, Total, SimpleCount, AdvanceScan, CountedLoop, RepeatTail, SimpleLoop, ResetCode, CountsFit;
      assert byteCode[start..] == Bytes(f);
      var check := false;
      if greedy {
        if max > 0 {
          var len := IsSimpleQuantifier(byteCode, start, f);
          if len > 0 {
            SimpleQuantifier(start, min, max, len, pre, f);
            return;
          }
        }
        var adv := CheckAdvance(byteCode, start, f);
        check := adv == 0;
      }
      if min == 0 {
        Optional(start, lastCaptures, max, greedy, check, pre, f);
      } else if min == 1 && max == INT32_MAX && !check {
        EmitGoto(if greedy then 8 else 9, start);
        PlusBytes(f, greedy);
        assert byteCode == pre + Bytes(f + [Split(!greedy, -(Total(f) + 5))]);
      } else {
        AtLeast(start, min, max, greedy, check, pre, f);
      }
    }

    // ----- patterns -----

    /** What one call appends, and when it fails instead. */
    twostate predicate Emitted(r: Node, e: Status)
      requires Parsed(r)
      reads this
    {
      && (e.Done? <==> old(captureCount) + Captures(r) <= CAPTURE_COUNT_MAX && RangesFit(r))
      && (e.TooManyCaptures? ==> old(captureCount) + Captures(r) > CAPTURE_COUNT_MAX)
      && (e.TooManyRanges? ==> !RangesFit(r))
      && (e.Done? ==> captureCount == old(captureCount) + Captures(r) && byteCode == old(byteCode) + Bytes(Code(r, old(captureCount))))
    }

    /** re_parse_disjunction, re_parse_alternative and re_parse_term on a parsed pattern. */
    method Emit(r: Node) returns (e: Status)
      requires Parsed(r) && captureCount <= CAPTURE_COUNT_MAX
      modifies this
      ensures Emitted(r, e)
      decreases r, 1
    {
      hide Bytes, Code, Put32, Put16, Encode;
      match r
      case Capture(_) => e := EmitCapture(r);
      case Look(_, _) => e := EmitLook(r);
      case Then(_, _) => e := EmitThen(r);
      case Or(_, _) => e := EmitOr(r);
      case Repeat(_, _, _, _) => e := EmitRepeat(r);
      case _ => e := EmitLeaf(r);
    }

    method EmitLeaf(r: Node) returns (e: Status)
      requires Parsed(r) && captureCount <= CAPTURE_COUNT_MAX && (IsCharNode(r) || IsAssertNode(r) || r.Empty?)
      modifies this
      ensures Emitted(r, e)
    {
      hide Bytes, Put32, Put16, RangeInstr;
      e := Done;
      ghost var f := Code(r, captureCount);
      if r.Empty? { NoBytesNone(); } else { BytesOne(f[0]); assert f == [f[0]]; }
      match r
      case Empty =>
      case Literal(c) =>
        if c <= 0xFFFF { EmitOpU16(1, c); } else { var _ := EmitOpU32(2, c); }
      case AnyButLine => PutByte(3);
      case AnyChar => PutByte(4);
      case Bol => PutByte(5);
      case Eol => PutByte(6);
      case Word(negated) => PutByte(if negated then 18 else 17);
      case Class(points) => e := EmitRange(points);
    }

    method EmitCapture(r: Node) returns (e: Status)
      requires r.Capture? && Parsed(r) && captureCount <= CAPTURE_COUNT_MAX
      modifies this
      ensures Emitted(r, e)
      decreases r, 0
    {
      hide Bytes, Code;
      if captureCount >= CAPTURE_COUNT_MAX { return TooManyCaptures; }
      var index := captureCount;
      ghost var b := byteCode;
      captureCount := captureCount + 1;
      EmitOpU8(11, index);
      e := Emit(r.body);
      if !e.Done? { return; }
      EmitOpU8(12, index);
      CaptureBytes(r, index);
      assert byteCode == b + [11, index % 256] + Bytes(Code(r.body, index + 1)) + [12, index % 256];
    }

    method EmitLook(r: Node) returns (e: Status)
      requires r.Look? && Parsed(r) && captureCount <= CAPTURE_COUNT_MAX
      modifies this
      ensures Emitted(r, e)
      decreases r, 0
    {
      hide Bytes, Code, Put32, Total;
      ghost var b, cc := byteCode, captureCount;
      var op := if r.negated then 24 else 23;
      var pos := EmitOpU32(op, 0);
      e := Emit(r.body);
      if !e.Done? { return; }
      ghost var w := Bytes(Code(r.body, cc));
      PutByte(10);
      Patched(b, op, Put32(0), w + [10], pos, Put32(|byteCode| - (pos + 4)));
      Patch(pos, Put32(|byteCode| - (pos + 4)));
      LookBytes(r, cc);
    }

    method EmitThen(r: Node) returns (e: Status)
      requires r.Then? && Parsed(r) && captureCount <= CAPTURE_COUNT_MAX
      modifies this
      ensures Emitted(r, e)
      decreases r, 0
    {
      hide Bytes, Code;
      ghost var b, cc := byteCode, captureCount;
      e := Emit(r.first);
      if !e.Done? { return; }
      e := Emit(r.second);
      ThenCode(r, cc);
      BytesAppend(Code(r.first, cc), Code(r.second, cc + Captures(r.first)));
    }

    /** One more alternative: a split in front of what is there, a jump over the new part, patched afterwards. */
    method EmitOr(r: Node) returns (e: Status)
      requires r.Or? && Parsed(r) && captureCount <= CAPTURE_COUNT_MAX
      modifies this
      ensures Emitted(r, e)
      decreases r, 0
    {
      hide Bytes, Code, Put32, Total;
      ghost var b, cc := byteCode, captureCount;
      var start := |byteCode|;
      e := Emit(r.left);
      if !e.Done? { return; }
      ghost var v := Bytes(Code(r.left, cc));
      var len := |byteCode| - start;
      assert byteCode[..start] == b && byteCode[start..] == v;
      InsertOpU32(start, 9, len + 5);
      ghost var x := [9] + Put32(len + 5);
      var pos := EmitOpU32(7, 0);
      ghost var a := b + x + v;
      e := Emit(r.right);
      if !e.Done? { return; }
      ghost var w := Bytes(Code(r.right, cc + Captures(r.left)));
      len := |byteCode| - (pos + 4);
      Patched(a, 7, Put32(0), w, pos, Put32(len));
      Patch(pos, Put32(len));
      OrCode(r, cc);
      OrBytes(Code(r.left, cc), Code(r.right, cc + Captures(r.left)));
      Regroup5(b, x, v, [7] + Put32(len), w);
    }

    method EmitRepeat(r: Node) returns (e: Status)
      requires r.Repeat? && Parsed(r) && captureCount <= CAPTURE_COUNT_MAX
      modifies this
      ensures Emitted(r, e)
      decreases r, 0
    {
      hide Bytes, Code, RepeatCode;
      ghost var b := byteCode;
      var start, last := |byteCode|, captureCount;
      e := Emit(r.body);
      if !e.Done? { return; }
      CodeCounts(r.body, last);
      RepeatIs(r, last);
      Quantifier(start, last, r.min, r.max, r.greedy, b, Code(r.body, last));
    }
  }

  /** Layout after a patch of the operand at pos. */
  lemma Patched(b: seq<byte>, op: byte, u: seq<byte>, rest: seq<byte>, pos: nat, v: seq<byte>)
    requires pos == |b| + 1 && |u| == |v|
    ensures var a := b + ([op] + u) + rest; pos + |v| <= |a| && a[..pos] + v + a[pos + |v|..] == b + ([op] + v + rest)
    ensures b + ([op] + v + rest) == b + ([op] + v) + rest
  {
    var a := b + ([op] + u) + rest;
    assert a[..pos] == b + [op] && a[pos + |v|..] == rest;
  }

  lemma CaptureBytes(r: Node, cc: nat)
    requires r.Capture? && Parsed(r)
    ensures Bytes(Code(r, cc)) == [11, cc % 256] + Bytes(Code(r.body, cc + 1)) + [12, cc % 256]
  {
    hide Bytes, Code;
    CaptureCode(r, cc);
    BytesAppend([SaveStart(cc)] + Code(r.body, cc + 1), [SaveEnd(cc)]);
    BytesAppend([SaveStart(cc)], Code(r.body, cc + 1));
    BytesOne(SaveStart(cc));
    BytesOne(SaveEnd(cc));
  }

  lemma LookBytes(r: Node, cc: nat)
    requires r.Look? && Parsed(r)
    ensures var w := Bytes(Code(r.body, cc)); Bytes(Code(r, cc)) == [if r.negated then 24 else 23] + Put32(|w| + 1) + (w + [10])
  {
    hide Bytes, Code, Put32;
    LookCode(r, cc);
    var i := Lookahead(r.negated, Total(Code(r.body, cc)) + 1);
    BytesAppend([i] + Code(r.body, cc), [Match]);
    BytesAppend([i], Code(r.body, cc));
    BytesOne(i);
    BytesOne(Match);
  }

  lemma OrBytes(f: seq<Instr>, g: seq<Instr>)
    ensures Bytes([Split(true, Total(f) + 5)] + f + [Goto(Total(g))] + g) ==
            [9] + Put32(|Bytes(f)| + 5) + Bytes(f) + ([7] + Put32(|Bytes(g)|)) + Bytes(g)
  {
    hide Bytes, Put32, Total;
    var i, j := Split(true, Total(f) + 5), Goto(Total(g));
    assert Encode(i) == [9] + Put32(|Bytes(f)| + 5) && Encode(j) == [7] + Put32(|Bytes(g)|);
    BetweenBytes(i, f, j, g);
  }

  lemma BetweenBytes(i: Instr, f: seq<Instr>, j: Instr, g: seq<Instr>)
    ensures Bytes([i] + f + [j] + g) == Encode(i) + Bytes(f) + Encode(j) + Bytes(g)
  {
    hide Bytes, Encode, Total;
    BytesAppend([i] + f + [j], g);
    BytesAppend([i] + f, [j]);
    BytesAppend([i], f);
    BytesOne(i);
    BytesOne(j);
  }

  /** Layout after Insert, and when the gap is full. */
  lemma Opened(pre: seq<byte>, w: seq<byte>, v: seq<byte>, gap: seq<byte>)
    ensures var b := pre + w + v; b[..|pre|] + gap + b[|pre|..] == pre + [] + gap + (w + v)
  {
    var b := pre + w + v;
    assert b[..|pre|] == pre && b[|pre|..] == w + v && pre + [] == pre;
  }

  lemma Filled(pre: seq<byte>, x: seq<byte>, gap: seq<byte>, rest: seq<byte>)
    requires gap == []
    ensures pre + x + gap + rest == pre + x + rest && pre + x + rest == pre + (x + rest)
  {
    assert pre + x + gap == pre + x;
  }

  lemma Inside(b: seq<byte>, x: seq<byte>, start: nat, len: nat)
    requires start + len <= |b|
    ensures (b + x)[start..start + len] == b[start..start + len]
  {}

  lemma Regroup5(a: seq<byte>, b: seq<byte>, c: seq<byte>, d: seq<byte>, e: seq<byte>)
    ensures a + b + c + d + e == a + (b + c + d + e)
  {}

  lemma Regroup(a: seq<byte>, b: seq<byte>, c: seq<byte>, d: seq<byte>)
    ensures a + b + c + d == a + (b + c + d)
  {}

  predicate OddOk(points: seq<nat>) { |points| % 2 == 0 && forall i :: 0 <= i < |points| && i % 2 == 1 ==> points[i] >= 1 }

  /** The bounds from index i on as bytes. */
  function PairBytes(points: seq<nat>, narrow: bool, i: nat): seq<byte>
    requires OddOk(points) && i <= |points| && i % 2 == 0
  {
    if narrow then PutPairs16(Pairs(points[i..], true)) else PutPairs32(Pairs(points[i..], false))
  }

  lemma PairStep(points: seq<nat>, narrow: bool, i: nat)
    requires OddOk(points) && i + 2 <= |points| && i % 2 == 0
    ensures points[i + 1] >= 1
    ensures var high := if narrow then High16(points[i + 1]) else points[i + 1] - 1;
            PairBytes(points, narrow, i) == (if narrow then Put16(points[i]) + Put16(high) else Put32(points[i]) + Put32(high)) + PairBytes(points, narrow, i + 2)
  {
    hide Put16, Put32;
    var t := points[i..];
    assert t[0] == points[i] && t[1] == points[i + 1] && t[2..] == points[i + 2..];
    var ps := Pairs(t, narrow);
    assert ps[1..] == Pairs(t[2..], narrow);
  }

  lemma NoPairs(points: seq<nat>, narrow: bool)
    requires OddOk(points)
    ensures PairBytes(points, narrow, |points|) == []
  {
    assert points[|points|..] == [];
  }

  /** The bytes of the instruction for a class. */
  lemma RangeBytes(points: seq<nat>)
    requires Sorted(points)
    ensures OddOk(points)
    ensures var w := Encode(RangeInstr(points));
            if |points| == 0 then w == [2] + Put32(-1)
            else w == [if Narrow(points) then 21 else 22] + Put16(|points| / 2) + PairBytes(points, Narrow(points), 0)
  {
    hide Put16, PutPairs16, PutPairs32, Pairs;
    OddPositive(points);
    MinusOne();
    assert points[0..] == points;
  }

  /** The operand -1 is UINT32_MAX. */
  lemma MinusOne()
    ensures Put32(-1) == Put32(UINT32_MAX)
  {}

  // ----- the bytes of the fragments of a repetition -----

  lemma SimpleBytes(f: seq<Instr>, min: nat, max: nat)
    requires SimpleCount(f) >= 0
    ensures Bytes(SimpleLoop(f, min, max)) == [28] + Put32(|Bytes(f)| + 1) + Put32(min) + Put32(max) + Put32(SimpleCount(f)) + (Bytes(f) + [10])
  {
    hide Bytes, Total, Put32, SimpleCount;
    var i := SimpleGreedy(Total(f) + 1, min, max, SimpleCount(f));
    BytesAppend([i] + f, [Match]);
    BytesAppend([i], f);
    BytesOne(i);
    BytesOne(Match);
  }

  lemma OptionalBytes(f: seq<Instr>, greedy: bool)
    ensures Bytes([Split(greedy, Total(f))] + f) == [if greedy then 9 else 8] + Put32(Total(f)) + Bytes(f)
  {
    hide Bytes, Total, Put32;
    BytesAppend([Split(greedy, Total(f))], f);
    BytesOne(Split(greedy, Total(f)));
  }

  lemma PlusBytes(f: seq<Instr>, greedy: bool)
    ensures Bytes(f + [Split(!greedy, -(Total(f) + 5))]) == Bytes(f) + ([if greedy then 8 else 9] + Put32(-(Total(f) + 5)))
  {
    hide Bytes, Total, Put32;
    BytesAppend(f, [Split(!greedy, -(Total(f) + 5))]);
    BytesOne(Split(!greedy, -(Total(f) + 5)));
  }

  lemma StarBytes(f: seq<Instr>, greedy: bool, check: bool)
    ensures var n: int, z: int := Total(f), Bit(check);
            Bytes(StarLoop(f, greedy, check)) == [if greedy then 9 else 8] + Put32(n + 5 + z) + (if check then [25] else []) + Bytes(f)
                                                 + ([if check then 26 else 7] + Put32(-(5 + z + n + 5)))
  {
    hide Bytes, Total, Put32;
    var n: int, z: int := Total(f), Bit(check);
    var i := Split(greedy, n + 5 + z);
    var g := if check then [PushCharPos] else [];
    var j := if check then BneCharPos(-(5 + z + n + 5)) else Goto(-(5 + z + n + 5));
    BytesAppend([i] + g + f, [j]);
    BytesAppend([i] + g, f);
    BytesAppend([i], g);
    BytesOne(i);
    BytesOne(j);
    BytesOne(PushCharPos);
    NoBytesNone();
  }

  lemma NoBytesNone()
    ensures Bytes([]) == []
  {}

  lemma CountedOptionBytes(f: seq<Instr>, max: nat, greedy: bool)
    ensures var n: int := Total(f);
            Bytes(CountedOption(f, max, greedy)) == [15] + Put32(max) + [if greedy then 9 else 8] + Put32(n + 5) + Bytes(f)
                                                    + ([14] + Put32(-(5 + n + 5)) + [16])
  {
    hide Bytes, Total, Put32;
    var n: int := Total(f);
    var i, j, k := PushI32(max), Split(greedy, n + 5), Loop(-(5 + n + 5));
    assert Encode(i) + Encode(j) == [15] + Put32(max) + [if greedy then 9 else 8] + Put32(n + 5);
    assert Encode(k) + Encode(Drop) == [14] + Put32(k.off) + [16];
    hide Encode;
    BytesAppend([i, j] + f, [k, Drop]);
    BytesAppend([i, j], f);
    BytesTwo(i, j);
    BytesTwo(k, Drop);
  }

  lemma CountedLoopBytes(f: seq<Instr>, min: nat)
    ensures Bytes(CountedLoop(f, min)) == [15] + Put32(min) + Bytes(f) + ([14] + Put32(-(Total(f) + 5)) + [16])
  {
    hide Bytes, Total, Put32;
    var i, k := PushI32(min), Loop(-(Total(f) + 5));
    assert Encode(i) == [15] + Put32(min) && Encode(k) + Encode(Drop) == [14] + Put32(k.off) + [16];
    hide Encode;
    BytesAppend([i] + f, [k, Drop]);
    BytesAppend([i], f);
    BytesOne(i);
    BytesTwo(k, Drop);
  }
}
