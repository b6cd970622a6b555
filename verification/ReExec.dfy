/** lre_exec_backtrack and lre_exec: the machine as a loop over in-place registers and a stack of saved states. */
module ReExec {
  import opened ReBytes
  import opened ReChars
  import opened ReClass
  import opened ReCode
  import opened ReSemantics
  import opened ReProgress
  import opened ReMachine
  import opened ReProgram

  datatype Signal = Continue | Failed | Accepted

  method TestChar(i: Instr, c: nat) returns (ok: bool)
    requires IsChar(i) && !RangeBad(i)
    ensures ok <==> Takes(i, c)
  {
    match i
    case Char(v) => ok := c == v;
    case Char32(v) => ok := c == v;
    case Dot => ok := !LineTerminator(c);
    case Any => ok := true;
    case Range(pairs) => ok := TestRange(pairs, true, c);
    case Range32(pairs) => ok := TestRange(pairs, false, c);
  }

  /** The run with no_recurse set: the body of a simple quantifier up to its match instruction, -1 on failure. */
  method RunAtom(m: Machine, pc0: nat, p0: nat) returns (e: int)
    requires p0 <= |m.s.units| && Atom(m, pc0, p0) != -2
    ensures e == Atom(m, pc0, p0)
  {
    hide Decode, Takes, InstrHolds;
    var pc: nat, p: nat := pc0, p0;
    while true
      invariant p <= |m.s.units| && Atom(m, pc, p) == Atom(m, pc0, p0)
      decreases |m.code| - pc
    {
      var i := Decode(m.code, pc).value;
      DecodeSize(m.code, pc);
      if i.Match? { return p; }
      if IsChar(i) {
        if p >= |m.s.units| { return -1; }
        var ok := TestChar(i, CharAt(m.s.units, m.s.mode, p));
        if !ok { return -1; }
        p := NextPos(m.s.units, m.s.mode, p);
      } else {
        if !InstrHolds(i, m.s, p) { return -1; }
      }
      pc := pc + Size(i);
    }
  }

  /** The counting loop of a simple quantifier. */
  method CountAtoms(m: Machine, pc: nat, max: nat, p0: nat) returns (q: nat, p: nat)
    requires p0 <= |m.s.units| && Iterations(m, pc, max, 0, p0).Some?
    ensures Iterations(m, pc, max, 0, p0) == Some((q, p))
  {
    hide Atom;
    q, p := 0, p0;
    while true
      invariant p <= |m.s.units| && Iterations(m, pc, max, q, p) == Iterations(m, pc, max, 0, p0)
      decreases |m.s.units| - p
    {
      var e := RunAtom(m, pc, p);
      if e == -1 { return; }
      p := e;
      q := q + 1;
      if q >= max && max != INT32_MAX { return; }
    }
  }

  /** n times PREV_CHAR. */
  method GoBack(s: Subject, p0: nat, n: nat) returns (p: nat)
    requires p0 <= |s.units| && Back(s.units, s.mode, p0, n) >= 0
    ensures p == Back(s.units, s.mode, p0, n)
  {
    p := p0;
    var i := 0;
    while i < n
      invariant 0 <= i <= n && p <= |s.units| && Back(s.units, s.mode, p, n - i) == Back(s.units, s.mode, p0, n)
    {
      p := PrevPos(s.units, s.mode, p);
      i := i + 1;
    }
  }

  class ExecContext {
    const m: Machine
    /** The saved states, the most recent last. */
    var states: seq<State>

    constructor (m: Machine)
      ensures this.m == m && states == []
    {
      this.m := m;
      states := [];
    }

    /** push_state: the registers are copied into a new saved state. */
    method PushState(capture: array<int>, stack: array<nat>, stackLen: nat, pc: nat, cptr: nat, around: bool, negated: bool, count: nat)
      requires stackLen <= stack.Length
      modifies this
      ensures states == old(states) +
        [if around then Around(negated, pc, Res(cptr, capture[..]), stack[..stackLen])
         else if count > 0 then Quant(pc, Res(cptr, capture[..]), stack[..stackLen], count)
         else Choice(pc, Res(cptr, capture[..]), stack[..stackLen])]
    {
      var x, stk := Res(cptr, capture[..]), stack[..stackLen];
      var st := if around then Around(negated, pc, x, stk) else if count > 0 then Quant(pc, x, stk, count) else Choice(pc, x, stk);
      states := states + [st];
    }

    /** The configuration the registers stand for. */
    ghost function Here(pc: nat, cptr: nat, capture: array<int>, stack: array<nat>, stackLen: nat): Config
      requires stackLen <= stack.Length
      reads this, capture, stack
    {
      Run(pc, Res(cptr, capture[..]), stack[..stackLen], states)
    }

    /** The instructions that write the stack. */
    method StackInstr(i: Instr, capture: array<int>, stack: array<nat>, stackLen0: nat, pc0: nat, cptr: nat) returns (pc: nat, stackLen: nat)
      requires Decode(m.code, pc0) == Some(i) && (i.PushI32? || i.PushCharPos? || i.Drop? || i.Loop? || i.BneCharPos?)
      requires stack.Length == m.room && stackLen0 <= stack.Length
      requires Step(m, Here(pc0, cptr, capture, stack, stackLen0)) != Stuck
      modifies stack
      ensures stackLen <= stack.Length
      ensures Step(m, old(Here(pc0, cptr, capture, stack, stackLen0))) == Here(pc, cptr, capture, stack, stackLen)
    {
      hide Decode;
      ghost var s0 := stack[..stackLen0];
      pc, stackLen := pc0 + Size(i), stackLen0;
      match i
      case PushI32(v) =>
        stack[stackLen] := v;
        stackLen := stackLen + 1;
        assert stack[..stackLen] == s0 + [v];
      case PushCharPos =>
        stack[stackLen] := cptr;
        stackLen := stackLen + 1;
        assert stack[..stackLen] == s0 + [cptr];
      case Drop =>
        stackLen := stackLen - 1;
        assert stack[..stackLen] == s0[..|s0| - 1];
      case Loop(off) =>
        assert s0[|s0| - 1] == stack[stackLen - 1];
        stack[stackLen - 1] := stack[stackLen - 1] - 1;
        assert stack[..stackLen] == s0[|s0| - 1 := s0[|s0| - 1] - 1];
        if stack[stackLen - 1] != 0 { pc := pc + off; }
      case BneCharPos(off) =>
        assert s0[|s0| - 1] == stack[stackLen - 1];
        stackLen := stackLen - 1;
        assert stack[..stackLen] == s0[..|s0| - 1];
        if stack[stackLen] != cptr { pc := pc + off; }
    }

    /** The instructions that write the capture array. */
    method SaveInstr(i: Instr, capture: array<int>, stack: array<nat>, stackLen: nat, pc0: nat, cptr: nat) returns (pc: nat)
      requires Decode(m.code, pc0) == Some(i) && (i.SaveStart? || i.SaveEnd? || i.SaveReset?)
      requires capture.Length == 2 * m.captures && stackLen <= stack.Length
      requires Step(m, Here(pc0, cptr, capture, stack, stackLen)) != Stuck
      modifies capture
      ensures Step(m, old(Here(pc0, cptr, capture, stack, stackLen))) == Here(pc, cptr, capture, stack, stackLen)
    {
      hide Decode;
      ghost var c0 := capture[..];
      pc := pc0 + Size(i);
      match i
      case SaveStart(k) =>
        capture[2 * k] := cptr;
        assert capture[..] == SetCap(c0, 2 * k, cptr);
      case SaveEnd(k) =>
        capture[2 * k + 1] := cptr;
        assert capture[..] == SetCap(c0, 2 * k + 1, cptr);
      case SaveReset(first, last) =>
        var v := first;
        while v <= last
          invariant ResetCaps(capture[..], v, last) == ResetCaps(c0, first, last)
          decreases last - v
        {
          ghost var before := capture[..];
          capture[2 * v] := -1;
          capture[2 * v + 1] := -1;
          assert capture[..] == SetCap(SetCap(before, 2 * v, -1), 2 * v + 1, -1);
          v := v + 1;
        }
    }

    /** The instructions that test the subject: on failure nothing changes. */
    method TestInstr(i: Instr, capture: array<int>, stack: array<nat>, stackLen: nat, pc0: nat, cptr0: nat) returns (ok: bool, pc: nat, cptr: nat)
      requires Decode(m.code, pc0) == Some(i) && (IsChar(i) || IsAssertion(i)) && stackLen <= stack.Length
      requires Step(m, Here(pc0, cptr0, capture, stack, stackLen)) != Stuck
      ensures Step(m, Here(pc0, cptr0, capture, stack, stackLen)) == if ok then Here(pc, cptr, capture, stack, stackLen) else Fail(states)
    {
      hide Decode, Takes, InstrHolds;
      pc, cptr := pc0 + Size(i), cptr0;
      if IsChar(i) {
        if cptr >= |m.s.units| {
          ok := false;
        } else {
          ok := TestChar(i, CharAt(m.s.units, m.s.mode, cptr));
          cptr := NextPos(m.s.units, m.s.mode, cptr);
        }
      } else {
        ok := InstrHolds(i, m.s, cptr);
      }
    }

    /** REOP_simple_greedy_quant. */
    method SimpleInstr(i: Instr, capture: array<int>, stack: array<nat>, stackLen: nat, pc0: nat, cptr0: nat) returns (ok: bool, pc: nat, cptr: nat)
      requires Decode(m.code, pc0) == Some(i) && i.SimpleGreedy? && stackLen <= stack.Length
      requires Step(m, Here(pc0, cptr0, capture, stack, stackLen)) != Stuck
      modifies this
      ensures Step(m, old(Here(pc0, cptr0, capture, stack, stackLen))) == if ok then Here(pc, cptr, capture, stack, stackLen) else Fail(states)
    {
      hide Decode, Iterations;
      var q: nat;
      q, cptr := CountAtoms(m, pc0 + 17, i.max, cptr0);
      pc := pc0 + 17 + i.next;
      ok := q >= i.min;
      if q > i.min {
        PushState(capture, stack, stackLen, pc0, cptr, false, false, q - i.min);
      }
    }

    /** One instruction of the switch. */
    method Instruction(capture: array<int>, stack: array<nat>, stackLen0: nat, pc0: nat, cptr0: nat)
      returns (o: Signal, pc: nat, cptr: nat, stackLen: nat)
      requires capture.Length == 2 * m.captures && stack.Length == m.room && stackLen0 <= stack.Length
      requires Step(m, Here(pc0, cptr0, capture, stack, stackLen0)) != Stuck
      modifies this, capture, stack
      ensures stackLen <= stack.Length
      ensures var d := Step(m, old(Here(pc0, cptr0, capture, stack, stackLen0)));
              match o
              case Continue => d == Here(pc, cptr, capture, stack, stackLen)
              case Failed => d == Fail(states)
              case Accepted => d == Succeed(Res(cptr, capture[..]), states)
    {
      hide Decode;
      var i := Decode(m.code, pc0).value;
      pc, cptr, stackLen, o := pc0 + Size(i), cptr0, stackLen0, Continue;
      if IsChar(i) || IsAssertion(i) {
        var ok;
        ok, pc, cptr := TestInstr(i, capture, stack, stackLen, pc0, cptr0);
        if !ok { o := Failed; }
      } else if i.PushI32? || i.PushCharPos? || i.Drop? || i.Loop? || i.BneCharPos? {
        pc, stackLen := StackInstr(i, capture, stack, stackLen, pc0, cptr);
      } else if i.SaveStart? || i.SaveEnd? || i.SaveReset? {
        pc := SaveInstr(i, capture, stack, stackLen, pc0, cptr);
      } else {
        match i
        case Match => o := Accepted;
        case Goto(off) => pc := pc + off;
        case Split(nextFirst, off) =>
          var other := pc + off;
          if nextFirst {
            PushState(capture, stack, stackLen, other, cptr, false, false, 0);
          } else {
            PushState(capture, stack, stackLen, pc, cptr, false, false, 0);
            pc := other;
          }
        case Lookahead(negated, off) => PushState(capture, stack, stackLen, pc + off, cptr, true, negated, 0);
        case SimpleGreedy(_, _, _, _) =>
          var ok;
          ok, pc, cptr := SimpleInstr(i, capture, stack, stackLen, pc0, cptr);
          if !ok { o := Failed; }
      }
    }

    /** memcpy of a saved stack. */
    method RestoreStack(stack: array<nat>, saved: seq<nat>) returns (stackLen: nat)
      requires |saved| <= stack.Length
      modifies stack
      ensures stackLen == |saved| && stack[..stackLen] == saved
    {
      stackLen := 0;
      while stackLen < |saved|
        invariant 0 <= stackLen <= |saved| && stack[..stackLen] == saved[..stackLen]
      {
        stack[stackLen] := saved[stackLen];
        stackLen := stackLen + 1;
      }
    }

    /** memcpy of saved captures. */
    method RestoreCaptures(capture: array<int>, saved: seq<int>)
      requires |saved| == capture.Length
      modifies capture
      ensures capture[..] == saved
    {
      var i := 0;
      while i < |saved|
        invariant 0 <= i <= |saved| && capture[..i] == saved[..i]
      {
        capture[i] := saved[i];
        i := i + 1;
      }
    }

    /** The verdict a failed or successful run hands to the saved states. */
    ghost function Verdict(success: bool, cptr: nat, capture: array<int>): Config
      reads this, capture
    {
      if success then Succeed(Res(cptr, capture[..]), states) else Fail(states)
    }

    /** The most recent saved state: it resumes the run, or is dropped and the verdict passes on, negated by a negative lookahead. */
    method PopState(capture: array<int>, stack: array<nat>, cptr0: nat, success0: bool)
      returns (resumed: bool, success: bool, pc: nat, cptr: nat, stackLen: nat)
      requires capture.Length == 2 * m.captures && stack.Length == m.room && StatesOk(states, m) && |states| > 0
      requires Step(m, Verdict(success0, cptr0, capture)) != Stuck
      modifies this, capture, stack
      ensures StatesOk(states, m) && stackLen <= stack.Length
      ensures Step(m, old(Verdict(success0, cptr0, capture))) ==
              if resumed then Here(pc, cptr, capture, stack, stackLen) else Verdict(success, cptr, capture)
    {
      hide Decode;
      resumed, success, pc, cptr, stackLen := false, success0, 0, cptr0, 0;
      var rs := states[|states| - 1];
      assert StateOk(rs, m);
      ghost var rest := states[..|states| - 1];
      match rs
      case Choice(rpc, x, stk) =>
        states := states[..|states| - 1];
        if !success {
          RestoreCaptures(capture, x.caps);
          stackLen := RestoreStack(stack, stk);
          pc, cptr, resumed := rpc, x.pos, true;
        }
      case Quant(rpc, x, stk, count) =>
        if success {
          states := states[..|states| - 1];
        } else {
          RestoreCaptures(capture, x.caps);
          stackLen := RestoreStack(stack, stk);
          var i := Decode(m.code, rpc).value;
          cptr := GoBack(m.s, x.pos, i.len);
          pc, resumed := rpc + 17 + i.next, true;
          states := states[..|states| - 1] + (if count == 1 then [] else [Quant(rpc, Res(cptr, x.caps), stk, count - 1)]);
          assert states == if count == 1 then rest else rest + [Quant(rpc, Res(cptr, x.caps), stk, count - 1)];
        }
      case Around(negated, rpc, x, stk) =>
        states := states[..|states| - 1];
        success := success != negated;
        if success {
          if negated { RestoreCaptures(capture, x.caps); }
          stackLen := RestoreStack(stack, stk);
          pc, cptr, resumed := rpc, x.pos, true;
        }
    }

    /** The inner loop after a failure or a success: saved states are popped until one of them resumes the
        run, or none is left and the verdict stands. The ghost counter bounds the steps still to come. */
    method Recover(capture: array<int>, stack: array<nat>, cptr0: nat, success0: bool, ghost n0: nat, ghost final: Config)
      returns (resumed: bool, success: bool, pc: nat, cptr: nat, stackLen: nat, ghost n: nat)
      requires capture.Length == 2 * m.captures && stack.Length == m.room && StatesOk(states, m) && IsFinal(final)
      requires Steps(m, Verdict(success0, cptr0, capture), n0) == final
      modifies this, capture, stack
      ensures StatesOk(states, m) && stackLen <= stack.Length && n <= n0
      ensures resumed ==> n < n0 && Steps(m, Here(pc, cptr, capture, stack, stackLen), n) == final
      ensures !resumed ==> (success <==> final.Matched?) && (success ==> final == Matched(Res(cptr, capture[..])))
    {
      hide Step;
      resumed, success, pc, cptr, stackLen, n := false, success0, 0, cptr0, 0, n0;
      while |states| > 0
        invariant StatesOk(states, m) && stackLen <= stack.Length && n <= n0
        invariant Steps(m, Verdict(success, cptr, capture), n) == final
        decreases n
      {
        NotFinal(m, Verdict(success, cptr, capture), n, final);
        resumed, success, pc, cptr, stackLen := PopState(capture, stack, cptr, success);
        n := n - 1;
        if resumed { return; }
      }
      LastStep(m, Verdict(success, cptr, capture), n, final);
    }

    /** lre_exec_backtrack: the loop over instructions. A run known to reach its end in n0 steps returns that end. */
    method Backtrack(capture: array<int>, stack: array<nat>, pc0: nat, cptr0: nat, ghost n0: nat, ghost final: Config) returns (ret: bool)
      requires capture.Length == 2 * m.captures && stack.Length == m.room && states == [] && IsFinal(final)
      requires Steps(m, Here(pc0, cptr0, capture, stack, 0), n0) == final
      modifies this, capture, stack
      ensures ret <==> final.Matched?
      ensures ret ==> final.x.caps == capture[..]
    {
      hide Step;
      var pc: nat, cptr: nat, stackLen: nat := pc0, cptr0, 0;
      ghost var n := n0;
      while true
        invariant stackLen <= stack.Length && StatesOk(states, m)
        invariant Steps(m, Here(pc, cptr, capture, stack, stackLen), n) == final
        decreases n
      {
        NotFinal(m, Here(pc, cptr, capture, stack, stackLen), n, final);
        ghost var c := Here(pc, cptr, capture, stack, stackLen);
        var o: Signal;
        o, pc, cptr, stackLen := Instruction(capture, stack, stackLen, pc, cptr);
        n := n - 1;
        StepKeepsStates(m, c, StatesOf(Step(m, c)));
        if !o.Continue? {
          var resumed, success;
          resumed, success, pc, cptr, stackLen, n := Recover(capture, stack, cptr, o.Accepted?, n, final);
          if !resumed { return success; }
        }
      }
    }
  }

  ghost predicate IsFinal(c: Config) { c.NoMatch? || c.Matched? }

  /** Saved stacks and captures fit the arrays they are copied back to. */
  ghost predicate StateOk(st: State, m: Machine) { |st.stk| <= m.room && |st.x.caps| == 2 * m.captures }

  ghost predicate StatesOk(ss: seq<State>, m: Machine) { forall k :: 0 <= k < |ss| ==> StateOk(ss[k], m) }

  function StatesOf(c: Config): seq<State> {
    match c
    case Run(_, _, _, ss) => ss
    case Fail(ss) => ss
    case Succeed(_, ss) => ss
    case _ => []
  }

  lemma {:induction false} Absorbing(m: Machine, c: Config, n: nat)
    requires c == Stuck || IsFinal(c)
    ensures Steps(m, c, n) == c
    decreases n
  {
    if n > 0 { Absorbing(m, c, n - 1); }
  }

  /** A configuration that is not final takes a step, and not to Stuck. */
  lemma NotFinal(m: Machine, c: Config, n: nat, final: Config)
    requires Steps(m, c, n) == final && IsFinal(final) && (c.Run? || c.Fail? || c.Succeed?)
    ensures n > 0 && Step(m, c) != Stuck && Steps(m, Step(m, c), n - 1) == final
  {
    hide Step;
    if n > 0 && Step(m, c) == Stuck { Absorbing(m, Stuck, n - 1); }
  }

  lemma LastStep(m: Machine, c: Config, n: nat, final: Config)
    requires Steps(m, c, n) == final && IsFinal(final) && (c == Fail([]) || (c.Succeed? && c.ss == []))
    ensures final == if c.Fail? then NoMatch else Matched(c.x)
  {
    NotFinal(m, c, n, final);
    Absorbing(m, Step(m, c), n - 1);
  }

  lemma StepKeepsStates(m: Machine, c: Config, ss: seq<State>)
    requires c.Run? && StatesOk(c.ss, m) && |c.stk| <= m.room && |c.x.caps| == 2 * m.captures && Step(m, c) != Stuck && ss == StatesOf(Step(m, c))
    ensures StatesOk(ss, m)
  {
    hide Decode, Iterations, Takes, InstrHolds;
  }
}
