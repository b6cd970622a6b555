/** The backtracking machine of lre_exec_backtrack, one step at a time, and how its runs compose. */
module ReMachine {
  import opened ReBytes
  import opened ReChars
  import opened ReClass
  import opened ReCode
  import opened ReSemantics
  import opened ReProgress
  import opened ReSimple

  // ----- the machine -----

  /** code is the byte code without its header; room is the stack size announced in the header. */
  datatype Machine = Machine(code: seq<byte>, s: Subject, captures: nat, room: nat)

  /** A saved state: an untried alternative, a lookahead in progress, or a simple quantifier that can still give back. */
  datatype State =
    | Choice(pc: nat, x: Res, stk: seq<nat>)
    | Around(negated: bool, pc: nat, x: Res, stk: seq<nat>)
    | Quant(pc: nat, x: Res, stk: seq<nat>, count: nat)

  /** Running at pc, falling back to the saved states after a failure, handing a success to them, or done. Stuck
      stands for what the source never expects: bad code, a failed assertion, an access outside a buffer. */
  datatype Config =
    | Run(pc: nat, x: Res, stk: seq<nat>, ss: seq<State>)
    | Fail(ss: seq<State>)
    | Succeed(x: Res, ss: seq<State>)
    | NoMatch
    | Matched(x: Res)
    | Stuck

  /** The no_recurse run of the body of a simple quantifier: its end, -1 for no match, -2 for stuck. */
  function Atom(m: Machine, pc: nat, p: nat): (e: int)
    requires p <= |m.s.units|
    ensures -2 <= e <= |m.s.units|
    decreases |m.code| - pc
  {
    var d := Decode(m.code, pc);
    if d.None? then -2
    else
      var i := d.value;
      DecodeSize(m.code, pc);
      if i.Match? then p
      else if IsChar(i) then
        if RangeBad(i) then -2
        else if p < |m.s.units| && Takes(i, CharAt(m.s.units, m.s.mode, p)) then Atom(m, pc + Size(i), NextPos(m.s.units, m.s.mode, p))
        else -1
      else if IsAssertion(i) then if InstrHolds(i, m.s, p) then Atom(m, pc + Size(i), p) else -1
      else -2
  }

  predicate RangeBad(i: Instr) { (i.Range? || i.Range32?) && !SortedPairs(i.pairs) }

  predicate ReadsSubject(i: Instr) { IsChar(i) || IsAssertion(i) || i.SimpleGreedy? }

  /** The counting loop of a simple quantifier. */
  function Iterations(m: Machine, pc: nat, max: nat, q: nat, p: nat): (r: Option<(nat, nat)>)
    requires p <= |m.s.units|
    ensures r.Some? ==> r.value.1 <= |m.s.units|
    decreases |m.s.units| - p
  {
    var e := Atom(m, pc, p);
    if e == -2 then None
    else if e == -1 then Some((q, p))
    else if e <= p then None
    else if q + 1 >= max && max != INT32_MAX then Some((q + 1, e))
    else Iterations(m, pc, max, q + 1, e)
  }

  function Jump(target: int, x: Res, stk: seq<nat>, ss: seq<State>): Config {
    if target < 0 then Stuck else Run(target, x, stk, ss)
  }

  /** Saved states are pushed on the right. */
  function StepRun(m: Machine, pc: nat, x: Res, stk: seq<nat>, ss: seq<State>): Config {
    var d := Decode(m.code, pc);
    if d.None? then Stuck
    else
      var i, next, n := d.value, pc + Size(d.value), |stk|;
      if RangeBad(i) || (ReadsSubject(i) && x.pos > |m.s.units|) then Stuck
      else if IsChar(i) then
        if x.pos < |m.s.units| && Takes(i, CharAt(m.s.units, m.s.mode, x.pos))
        then Run(next, Res(NextPos(m.s.units, m.s.mode, x.pos), x.caps), stk, ss) else Fail(ss)
      else if IsAssertion(i) then if InstrHolds(i, m.s, x.pos) then Run(next, x, stk, ss) else Fail(ss)
      else match i
        case Match => Succeed(x, ss)
        case Goto(off) => Jump(next + off, x, stk, ss)
        case Split(nextFirst, off) =>
          if next + off < 0 then Stuck
          else if nextFirst then Run(next, x, stk, ss + [Choice(next + off, x, stk)])
          else Run(next + off, x, stk, ss + [Choice(next, x, stk)])
        case Lookahead(negated, off) =>
          if next + off < 0 then Stuck else Run(next, x, stk, ss + [Around(negated, next + off, x, stk)])
        case SaveStart(k) => if k < m.captures then Run(next, Res(x.pos, SetCap(x.caps, 2 * k, x.pos)), stk, ss) else Stuck
        case SaveEnd(k) => if k < m.captures then Run(next, Res(x.pos, SetCap(x.caps, 2 * k + 1, x.pos)), stk, ss) else Stuck
        case SaveReset(a, b) => if b < m.captures then Run(next, Res(x.pos, ResetCaps(x.caps, a, b)), stk, ss) else Stuck
        case PushI32(v) => if n < m.room then Run(next, x, stk + [v], ss) else Stuck
        case PushCharPos => if n < m.room then Run(next, x, stk + [x.pos], ss) else Stuck
        case Drop => if n > 0 then Run(next, x, stk[..n - 1], ss) else Stuck
        case Loop(off) =>
          if n == 0 || stk[n - 1] == 0 then Stuck
          else Jump(if stk[n - 1] != 1 then next + off else next, x, stk[n - 1 := stk[n - 1] - 1], ss)
        case BneCharPos(off) =>
          if n == 0 then Stuck else Jump(if stk[n - 1] != x.pos then next + off else next, x, stk[..n - 1], ss)
        case SimpleGreedy(skip, min, max, _) =>
          var r := Iterations(m, next, max, 0, x.pos);
          if r.None? || next + skip < 0 then Stuck
          else
            var q, y := r.value.0, Res(r.value.1, x.caps);
            if q < min then Fail(ss)
            else Run(next + skip, y, stk, if q > min then ss + [Quant(pc, y, stk, q - min)] else ss)
        case _ => Stuck
  }

  /** After a failure: the most recent saved state decides. */
  function StepFail(m: Machine, ss: seq<State>): Config {
    if ss == [] then NoMatch
    else
      var rest, st := ss[..|ss| - 1], ss[|ss| - 1];
      match st
      case Choice(pc, x, stk) => Run(pc, x, stk, rest)
      case Around(negated, pc, x, stk) => if negated then Run(pc, x, stk, rest) else Fail(rest)
      case Quant(pc, x, stk, count) =>
        var d := Decode(m.code, pc);
        if d.None? || !d.value.SimpleGreedy? || x.pos > |m.s.units| || count == 0 then Stuck
        else
          var p := Back(m.s.units, m.s.mode, x.pos, d.value.len);
          var target := pc + 17 + d.value.next;
          if p < 0 || target < 0 then Stuck
          else
            var y := Res(p, x.caps);
            Run(target, y, stk, if count == 1 then rest else rest + [Quant(pc, y, stk, count - 1)])
  }

  /** After a success: alternatives are dropped until a lookahead, if any, takes the verdict. */
  function StepSucceed(x: Res, ss: seq<State>): Config {
    if ss == [] then Matched(x)
    else
      var rest, st := ss[..|ss| - 1], ss[|ss| - 1];
      if st.Around? then
        if st.negated then Fail(rest) else Run(st.pc, Res(st.x.pos, x.caps), st.stk, rest)
      else Succeed(x, rest)
  }

  function Step(m: Machine, c: Config): Config {
    match c
    case Run(pc, x, stk, ss) => StepRun(m, pc, x, stk, ss)
    case Fail(ss) => StepFail(m, ss)
    case Succeed(x, ss) => StepSucceed(x, ss)
    case _ => c
  }

  function Steps(m: Machine, c: Config, n: nat): Config
    decreases n
  {
    if n == 0 then c else Steps(m, Step(m, c), n - 1)
  }

  // ----- runs -----

  ghost predicate Reaches(m: Machine, c: Config, d: Config) { exists n: nat :: Steps(m, c, n) == d }

  lemma {:induction false} StepsAdd(m: Machine, c: Config, a: nat, b: nat)
    ensures Steps(m, c, a + b) == Steps(m, Steps(m, c, a), b)
    decreases a
  {
    if a > 0 { StepsAdd(m, Step(m, c), a - 1, b); }
  }

  lemma ReachesSelf(m: Machine, c: Config)
    ensures Reaches(m, c, c)
  {
    assert Steps(m, c, 0) == c;
  }

  lemma ReachesTrans(m: Machine, c: Config, d: Config, e: Config)
    requires Reaches(m, c, d) && Reaches(m, d, e)
    ensures Reaches(m, c, e)
  {
    var a: nat :| Steps(m, c, a) == d;
    var b: nat :| Steps(m, d, b) == e;
    StepsAdd(m, c, a, b);
  }

  lemma ReachesStep(m: Machine, c: Config)
    ensures Reaches(m, c, Step(m, c))
  {
    assert Steps(m, c, 1) == Steps(m, Step(m, c), 0);
  }

  lemma StepThen(m: Machine, c: Config, d: Config)
    requires Reaches(m, Step(m, c), d)
    ensures Reaches(m, c, d)
  {
    ReachesStep(m, c);
    ReachesTrans(m, c, Step(m, c), d);
  }

  /** Only choices that a later success discards. */
  predicate Plain(ss: seq<State>) { forall k :: 0 <= k < |ss| ==> !ss[k].Around? }

  /** From c the machine arrives at pc q with stack stk and the results ys one after the other, the next each time
      after a failure, and finally fails down to the saved states base. */
  ghost predicate Yields(m: Machine, c: Config, base: seq<State>, q: nat, stk: seq<nat>, ys: seq<Res>)
    decreases |ys|
  {
    if ys == [] then Reaches(m, c, Fail(base))
    else exists xs: seq<State> :: YieldsFirst(m, c, base, xs, q, stk, ys)
  }

  ghost predicate YieldsFirst(m: Machine, c: Config, base: seq<State>, xs: seq<State>, q: nat, stk: seq<nat>, ys: seq<Res>)
    requires ys != []
    decreases |ys|, 0
  {
    Plain(xs) && Reaches(m, c, Run(q, ys[0], stk, base + xs)) && Yields(m, Fail(base + xs), base, q, stk, ys[1..])
  }

  lemma FirstOf(m: Machine, c: Config, base: seq<State>, q: nat, stk: seq<nat>, ys: seq<Res>) returns (xs: seq<State>)
    requires ys != [] && Yields(m, c, base, q, stk, ys)
    ensures Plain(xs) && Reaches(m, c, Run(q, ys[0], stk, base + xs)) && Yields(m, Fail(base + xs), base, q, stk, ys[1..])
  {
    xs :| YieldsFirst(m, c, base, xs, q, stk, ys);
  }

  lemma ByFirst(m: Machine, c: Config, base: seq<State>, xs: seq<State>, q: nat, stk: seq<nat>, ys: seq<Res>)
    requires ys != [] && Plain(xs) && Reaches(m, c, Run(q, ys[0], stk, base + xs)) && Yields(m, Fail(base + xs), base, q, stk, ys[1..])
    ensures Yields(m, c, base, q, stk, ys)
  {
    assert YieldsFirst(m, c, base, xs, q, stk, ys);
  }

  lemma YieldsNone(m: Machine, c: Config, base: seq<State>, q: nat, stk: seq<nat>)
    ensures Yields(m, c, base, q, stk, []) <==> Reaches(m, c, Fail(base))
  {}

  lemma YieldsOne(m: Machine, c: Config, base: seq<State>, q: nat, stk: seq<nat>, y: Res)
    requires Reaches(m, c, Run(q, y, stk, base))
    ensures Yields(m, c, base, q, stk, [y])
  {
    assert base + [] == base && [y][1..] == [];
    ReachesSelf(m, Fail(base));
    YieldsNone(m, Fail(base), base, q, stk);
    ByFirst(m, c, base, [], q, stk, [y]);
  }

  lemma YieldsFrom(m: Machine, c: Config, d: Config, base: seq<State>, q: nat, stk: seq<nat>, ys: seq<Res>)
    requires Reaches(m, c, d) && Yields(m, d, base, q, stk, ys)
    ensures Yields(m, c, base, q, stk, ys)
  {
    hide Reaches;
    if ys == [] {
      YieldsNone(m, d, base, q, stk);
      ReachesTrans(m, c, d, Fail(base));
      YieldsNone(m, c, base, q, stk);
    } else {
      var xs := FirstOf(m, d, base, q, stk, ys);
      ReachesTrans(m, c, d, Run(q, ys[0], stk, base + xs));
      ByFirst(m, c, base, xs, q, stk, ys);
    }
  }

  lemma PlainAppend(a: seq<State>, b: seq<State>)
    requires Plain(a) && Plain(b)
    ensures Plain(a + b)
  {}

  /** First the results over base + xs, then, when those are exhausted, the ones over base. */
  lemma {:induction false} YieldsAppend(m: Machine, c: Config, base: seq<State>, xs: seq<State>, q: nat, stk: seq<nat>,
                                       ys: seq<Res>, zs: seq<Res>)
    requires Plain(xs) && Yields(m, c, base + xs, q, stk, ys) && Yields(m, Fail(base + xs), base, q, stk, zs)
    ensures Yields(m, c, base, q, stk, ys + zs)
    decreases |ys|, 0
  {
    hide Reaches, Yields;
    if ys == [] {
      assert ys + zs == zs;
      YieldsNone(m, c, base + xs, q, stk);
      YieldsFrom(m, c, Fail(base + xs), base, q, stk, zs);
    } else {
      var vs := FirstOf(m, c, base + xs, q, stk, ys);
      assert (base + xs) + vs == base + (xs + vs);
      PlainAppend(xs, vs);
      YieldsLift(m, base, xs, vs, q, stk, ys[1..], zs);
      assert (ys + zs)[1..] == ys[1..] + zs && (ys + zs)[0] == ys[0];
      ByFirst(m, c, base, xs + vs, q, stk, ys + zs);
    }
  }

  /** The inductive step of YieldsAppend, after the first result. */
  lemma {:induction false} YieldsLift(m: Machine, base: seq<State>, xs: seq<State>, vs: seq<State>, q: nat, stk: seq<nat>,
                                     ys: seq<Res>, zs: seq<Res>)
    requires Plain(xs) && Yields(m, Fail((base + xs) + vs), base + xs, q, stk, ys) && Yields(m, Fail(base + xs), base, q, stk, zs)
    ensures Yields(m, Fail(base + (xs + vs)), base, q, stk, ys + zs)
    decreases |ys|, 1
  {
    hide Reaches, Yields;
    assert (base + xs) + vs == base + (xs + vs);
    YieldsAppend(m, Fail((base + xs) + vs), base, xs, q, stk, ys, zs);
  }

  /** One result of a first part, continued by the results fs of what follows it; rest comes after. */
  lemma YieldsBind(m: Machine, c: Config, d: Config, base: seq<State>, xs: seq<State>, q: nat, stk: seq<nat>, fs: seq<Res>, rest: seq<Res>)
    requires Plain(xs) && Reaches(m, c, d) && Yields(m, d, base + xs, q, stk, fs) && Yields(m, Fail(base + xs), base, q, stk, rest)
    ensures Yields(m, c, base, q, stk, fs + rest)
  {
    hide Reaches, Yields;
    YieldsFrom(m, c, d, base + xs, q, stk, fs);
    YieldsAppend(m, c, base, xs, q, stk, fs, rest);
  }

  /** Deterministic steps after every result: only pc and stack change. */
  lemma {:induction false} YieldsVia(m: Machine, c: Config, base: seq<State>, q1: nat, stk1: seq<nat>, q2: nat, stk2: seq<nat>, ys: seq<Res>)
    requires Yields(m, c, base, q1, stk1, ys)
    requires forall y, ss :: Reaches(m, Run(q1, y, stk1, ss), Run(q2, y, stk2, ss))
    ensures Yields(m, c, base, q2, stk2, ys)
    decreases |ys|
  {
    hide Reaches, Yields;
    if ys == [] {
      YieldsNone(m, c, base, q1, stk1);
      YieldsNone(m, c, base, q2, stk2);
    } else {
      var xs := FirstOf(m, c, base, q1, stk1, ys);
      YieldsVia(m, Fail(base + xs), base, q1, stk1, q2, stk2, ys[1..]);
      assert Reaches(m, Run(q1, ys[0], stk1, base + xs), Run(q2, ys[0], stk2, base + xs));
      ReachesTrans(m, c, Run(q1, ys[0], stk1, base + xs), Run(q2, ys[0], stk2, base + xs));
      ByFirst(m, c, base, xs, q2, stk2, ys);
    }
  }

  /** A success discards plain saved states. */
  lemma {:induction false} SuccessDrops(m: Machine, x: Res, base: seq<State>, xs: seq<State>)
    requires Plain(xs)
    ensures Reaches(m, Succeed(x, base + xs), Succeed(x, base))
    decreases |xs|
  {
    hide Reaches;
    if xs == [] {
      assert base + xs == base;
      ReachesSelf(m, Succeed(x, base));
    } else {
      var k := |xs| - 1;
      var ss := base + xs;
      assert ss[|ss| - 1] == xs[k] && ss[..|ss| - 1] == base + xs[..k];
      SuccessDrops(m, x, base, xs[..k]);
      StepThen(m, Succeed(x, ss), Succeed(x, base));
    }
  }

  // ----- code in memory -----

  /** The instructions f lie in the code from p on. */
  predicate Holds(b: seq<byte>, p: nat, f: seq<Instr>)
    decreases |f|
  {
    f == [] || (Decode(b, p) == Some(f[0]) && Holds(b, p + Size(f[0]), f[1..]))
  }

  lemma {:induction false} HoldsParts(b: seq<byte>, p: nat, f: seq<Instr>, g: seq<Instr>)
    requires Holds(b, p, f + g)
    ensures Holds(b, p, f) && Holds(b, p + Total(f), g)
    decreases |f|
  {
    hide Decode, Size;
    if f == [] {
      assert f + g == g;
    } else {
      assert (f + g)[1..] == f[1..] + g && (f + g)[0] == f[0];
      HoldsParts(b, p + Size(f[0]), f[1..], g);
    }
  }

  lemma HoldsOne(b: seq<byte>, p: nat, i: Instr)
    requires Holds(b, p, [i])
    ensures Decode(b, p) == Some(i) && Total([i]) == Size(i)
  {
    assert [i][1..] == [];
  }

  lemma HoldsTwo(b: seq<byte>, p: nat, i: Instr, j: Instr)
    requires Holds(b, p, [i, j])
    ensures Decode(b, p) == Some(i) && Decode(b, p + Size(i)) == Some(j) && Total([i, j]) == Size(i) + Size(j)
  {
    assert [i, j][1..] == [j] && [j][1..] == [];
    assert Total([j]) == Size(j);
  }
}
