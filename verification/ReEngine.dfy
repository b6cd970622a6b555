/** lre_compile and lre_exec: compiling a pattern to a program with its header, and running it on a subject. */
module ReEngine {
  import opened ReBytes
  import opened ReChars
  import opened ReClass
  import opened ReCode
  import opened ReSemantics
  import opened ReProgress
  import opened ReMachine
  import opened ReDepth
  import opened ReCorrect
  import opened ReProgram
  import opened ReLayout
  import opened ReCompile
  import opened ReExec
  import opened ReShape
  import opened ReSafety

  const RE_HEADER_LEN: int := 7

  predicate IgnoreCase(flags: byte) { flags / 2 % 2 == 1 }

  predicate MultiLine(flags: byte) { flags / 4 % 2 == 1 }

  predicate Unicode(flags: byte) { flags / 16 % 2 == 1 }

  predicate Sticky(flags: byte) { flags / 32 % 2 == 1 }

  /** A compiled pattern: header and code. */
  ghost predicate Image(bc: seq<byte>, r: Node) {
    && Parsed(r) && RangesFit(r) && Captures(r) <= 254 && |bc| >= RE_HEADER_LEN
    && (var f := ProgramCode(r, Sticky(bc[0]));
        && bc[1] == 1 + Captures(r) && bc[2] == MaxDepth(f) && bc[3..7] == Put32(|bc| - RE_HEADER_LEN)
        && bc[7..] == Bytes(f))
  }

  datatype Compilation = Program(bc: seq<byte>) | Error(message: string)

  /** The prefix of a non-sticky program. */
  method EmitSearch(s: ParseState, sticky: bool)
    modifies s
    ensures s.captureCount == old(s.captureCount) && s.byteCode == old(s.byteCode) + Bytes(if sticky then [] else SEARCH)
  {
    hide Bytes, Put32;
    ghost var h := s.byteCode;
    NoBytesNone();
    if !sticky {
      var _ := s.EmitOpU32(8, 6);
      s.PutByte(4);
      var _ := s.EmitOpU32(7, -11);
      SearchBytes();
      Regroup(h, [8] + Put32(6), [4], [7] + Put32(-11));
    }
  }

  /** The pattern as group 0, up to the final match instruction. */
  method EmitWhole(s: ParseState, r: Node) returns (e: Status)
    requires Parsed(r) && s.captureCount == 1
    modifies s
    ensures e.Done? <==> Captures(r) <= 254 && RangesFit(r)
    ensures e.TooManyCaptures? ==> Captures(r) > 254
    ensures e.TooManyRanges? ==> !RangesFit(r)
    ensures e.Done? ==> s.captureCount == 1 + Captures(r) && s.byteCode == old(s.byteCode) + Bytes(WholeMatch(r))
  {
    hide Bytes, Code;
    ghost var h := s.byteCode;
    s.EmitOpU8(11, 0);
    e := s.Emit(r);
    if e.Done? {
      s.EmitOpU8(12, 0);
      s.PutByte(10);
      WholeBytes(Code(r, 1));
      Regroup5(h, [11, 0], Bytes(Code(r, 1)), [12, 0], [10]);
    }
  }

  /** The header is filled in when the code is complete. */
  method FillHeader(s: ParseState, size: byte, ghost flags: byte, ghost w: seq<byte>)
    requires s.byteCode == ([flags, 0, 0] + Put32(0)) + w && s.captureCount < 256
    modifies s
    ensures |s.byteCode| == 7 + |w| && s.byteCode[7..] == w
    ensures s.byteCode[0] == flags && s.byteCode[1] == old(s.captureCount) && s.byteCode[2] == size && s.byteCode[3..7] == Put32(|w|)
  {
    hide Put32;
    var n := |s.byteCode| - RE_HEADER_LEN;
    s.Patch(1, [s.captureCount]);
    s.Patch(2, [size]);
    s.Patch(3, Put32(n));
  }

  /** Header, prefix and pattern. */
  method EmitProgram(r: Node, flags: byte) returns (s: ParseState, e: Status)
    requires Parsed(r)
    ensures fresh(s)
    ensures e.Done? <==> Captures(r) <= 254 && RangesFit(r)
    ensures e.TooManyCaptures? ==> Captures(r) > 254
    ensures e.TooManyRanges? ==> !RangesFit(r)
    ensures e.Done? ==> s.captureCount == 1 + Captures(r) && s.byteCode == ([flags, 0, 0] + Put32(0)) + Bytes(ProgramCode(r, Sticky(flags)))
  {
    hide Bytes, WholeMatch, Put32;
    s := new ParseState();
    s.PutByte(flags);
    s.PutByte(0);
    s.PutByte(0);
    s.Put(Put32(0));
    assert s.byteCode == [flags, 0, 0] + Put32(0);
    var sticky := Sticky(flags);
    EmitSearch(s, sticky);
    e := EmitWhole(s, r);
    BytesAppend(if sticky then [] else SEARCH, WholeMatch(r));
  }

  /** lre_compile on a parsed pattern: it fails exactly for too many captures, too many ranges in a class, or too deep
      nesting of counted or checked loops. */
  method LreCompile(r: Node, flags: byte) returns (c: Compilation)
    requires Parsed(r)
    ensures c.Program? <==> Captures(r) <= 254 && RangesFit(r) && MaxDepth(ProgramCode(r, Sticky(flags))) <= 255
    ensures c.Program? ==> Image(c.bc, r) && c.bc[0] == flags
    ensures c.Error? ==> (c.message == "too many captures" && Captures(r) > 254)
                         || (c.message == "too many ranges" && !RangesFit(r))
                         || (c.message == "too many imbricated quantifiers" && MaxDepth(ProgramCode(r, Sticky(flags))) > 255)
  {
    hide Bytes, ProgramCode, Put32, MaxDepth, MinDepth, CountsFit;
    var s, e := EmitProgram(r, flags);
    if e.TooManyCaptures? { return Error("too many captures"); }
    if e.TooManyRanges? { return Error("too many ranges"); }
    ghost var f := ProgramCode(r, Sticky(flags));
    AfterHeader([flags, 0, 0] + Put32(0), Bytes(f));
    ProgramScans(r, Sticky(flags));
    var size := ComputeStackSize(s.byteCode, RE_HEADER_LEN, f);
    if size < 0 { return Error("too many imbricated quantifiers"); }
    FillHeader(s, size, flags, Bytes(f));
    c := Program(s.byteCode);
  }

  lemma AfterHeader(h: seq<byte>, w: seq<byte>)
    requires |h| == RE_HEADER_LEN
    ensures (h + w)[RE_HEADER_LEN..] == w
  {}

  lemma WholeBytes(f: seq<Instr>)
    ensures Bytes([SaveStart(0)] + f + [SaveEnd(0), Match]) == [11, 0] + Bytes(f) + [12, 0] + [10]
  {
    hide Bytes;
    BytesAppend([SaveStart(0)] + f, [SaveEnd(0), Match]);
    BytesAppend([SaveStart(0)], f);
    BytesOne(SaveStart(0));
    BytesTwo(SaveEnd(0), Match);
  }

  lemma SearchBytes()
    ensures Bytes(SEARCH) == [8] + Put32(6) + [4] + ([7] + Put32(-11))
  {
    hide Bytes, Put32;
    assert SEARCH == [Split(false, 6), Any] + [Goto(-11)];
    BytesAppend([Split(false, 6), Any], [Goto(-11)]);
    BytesTwo(Split(false, 6), Any);
    BytesOne(Goto(-11));
  }

  /** The whole program can be scanned, and never takes more from the stack than it has put there. */
  lemma ProgramScans(r: Node, sticky: bool)
    requires Parsed(r) && RangesFit(r)
    ensures CountsFit(ProgramCode(r, sticky)) && MinDepth(ProgramCode(r, sticky)) == 0
  {
    hide Code, MinDepth, NetDepth, MaxDepth, CountsFit;
    CodeCounts(r, 1);
    NoNet(r, 1);
    WholeScans(Code(r, 1));
    SearchScans();
    CountsAppend(if sticky then [] else SEARCH, WholeMatch(r));
    DepthAppend(if sticky then [] else SEARCH, WholeMatch(r));
  }

  lemma WholeScans(f: seq<Instr>)
    requires CountsFit(f) && NetDepth(f) == MinDepth(f) == 0
    ensures var g := [SaveStart(0)] + f + [SaveEnd(0), Match]; CountsFit(g) && NetDepth(g) == MinDepth(g) == 0
  {
    hide MinDepth, NetDepth, MaxDepth, CountsFit;
    EdgeCounts();
    CountsAppend([SaveStart(0)], f);
    CountsAppend([SaveStart(0)] + f, [SaveEnd(0), Match]);
    DepthAppend([SaveStart(0)] + f, [SaveEnd(0), Match]);
    DepthAppend([SaveStart(0)], f);
    OneNet(SaveStart(0));
    TwoNet(SaveEnd(0), Match);
  }

  lemma SearchScans()
    ensures CountsFit(SEARCH) && NetDepth(SEARCH) == MinDepth(SEARCH) == 0
    ensures CountsFit([]) && NetDepth([]) == MinDepth([]) == 0
  {
    hide MinDepth, NetDepth, MaxDepth, CountsFit;
    EdgeCounts();
    NoDepth();
    var a, b := [Split(false, 6), Any], [Goto(-11)];
    assert SEARCH == a + b;
    DepthAppend(a, b);
    TwoNet(Split(false, 6), Any);
    OneNet(Goto(-11));
  }

  lemma EdgeCounts()
    ensures CountsFit([]) && CountsFit(SEARCH) && CountsFit([SaveStart(0)]) && CountsFit([SaveEnd(0), Match])
  {}

  // ----- execution -----

  /** The subject lre_exec reads: 8-bit units, or 16-bit units, paired when the program is a Unicode one. */
  function SubjectOf(bc: seq<byte>, units: seq<nat>, wide: bool): Subject
    requires |bc| > 0
  {
    Subject(units, if !wide then Latin1 else if Unicode(bc[0]) then Utf16 else Ucs2, MultiLine(bc[0]))
  }

  function CaptureCount(bc: seq<byte>): nat
    requires |bc| >= RE_HEADER_LEN
  {
    bc[1]
  }

  function MachineOf(bc: seq<byte>, s: Subject): Machine
    requires |bc| >= RE_HEADER_LEN
  {
    Machine(bc[7..], s, CaptureCount(bc), bc[2])
  }

  /** The machine of a compiled program shorter than 2^31 bytes holds its code. */
  lemma ImageHolds(bc: seq<byte>, r: Node, s: Subject)
    requires Image(bc, r) && |bc| < SIZE_LIMIT
    ensures Programmed(MachineOf(bc, s), r, Sticky(bc[0]))
  {
    hide Bytes, Code, Holds, MaxDepth, Parsed, RangesFit, AllFit, Sticky;
    var f := Code(r, 1);
    var g := ProgramCode(r, Sticky(bc[0]));
    ProgramTotal(r, Sticky(bc[0]));
    CodeFits(r, 1);
    EdgeFits();
    AllFitAppend([SaveStart(0)], f);
    AllFitAppend([SaveStart(0)] + f, [SaveEnd(0), Match]);
    AllFitAppend(if Sticky(bc[0]) then [] else SEARCH, WholeMatch(r));
    var code := bc[7..];
    assert code[0..0 + |Bytes(g)|] == Bytes(g);
    BytesHold(code, 0, g);
  }

  /** Running a compiled program is safe at every step, from any start position of any subject. */
  lemma ImageSafe(bc: seq<byte>, r: Node, s: Subject, x: Res, n: nat)
    requires Image(bc, r) && |bc| < SIZE_LIMIT && x.pos <= |s.units| && |x.caps| == 2 * CaptureCount(bc)
    ensures Safe(MachineOf(bc, s), Before(r, Sticky(bc[0])), Steps(MachineOf(bc, s), Run(0, x, [], []), n))
  {
    hide Safe, Before, Step, Programmed, ProgramCode, Bytes, MaxDepth, Sticky;
    ImageHolds(bc, r, s);
    RunsSafely(MachineOf(bc, s), r, Sticky(bc[0]), x, n);
  }

  lemma EdgeFits()
    ensures AllFit([]) && AllFit(SEARCH) && AllFit([SaveStart(0)]) && AllFit([SaveEnd(0), Match])
  {}

  lemma ProgramTotal(r: Node, sticky: bool)
    requires Parsed(r)
    ensures Total(Code(r, 1)) <= Total(ProgramCode(r, sticky))
  {
    hide Code, Total;
    var f := Code(r, 1);
    TotalAppend(if sticky then [] else SEARCH, WholeMatch(r));
    TotalAppend([SaveStart(0)] + f, [SaveEnd(0), Match]);
    TotalAppend([SaveStart(0)], f);
  }

  /** lre_exec on a compiled pattern: it always returns, and returns 1 exactly when the pattern matches at cindex (sticky)
      or at some later start position; group 0 is then a match from the first such position. */
  method LreExec(capture: array<int>, bc: seq<byte>, units: seq<nat>, wide: bool, cindex: nat, ghost r: Node) returns (ret: bool)
    requires Image(bc, r) && WellFormed(r) && |bc| < SIZE_LIMIT && !IgnoreCase(bc[0]) && capture.Length == 2 * CaptureCount(bc)
    requires SubjectOk(SubjectOf(bc, units, wide)) && Boundary(units, SubjectOf(bc, units, wide).mode, cindex)
    modifies capture
    ensures ret <==> MatchExists(r, SubjectOf(bc, units, wide), Sticky(bc[0]), cindex)
    ensures ret ==> MatchFound(r, SubjectOf(bc, units, wide), Sticky(bc[0]), cindex, capture[..])
  {
    hide MatchExists, MatchFound, Expected, Reaches, ProgramCode, Bytes, MaxDepth, Sticky;
    var s := SubjectOf(bc, units, wide);
    var count, room: nat := CaptureCount(bc), bc[2];
    var m := MachineOf(bc, s);
    ImageHolds(bc, r, s);
    for i := 0 to 2 * count
      invariant forall k :: 0 <= k < i ==> capture[k] == -1
    {
      capture[i] := -1;
    }
    assert Unset(capture[..]);
    var context := new ExecContext(m);
    var stack := new nat[room];
    ghost var x := Res(cindex, capture[..]);
    ProgramRuns(m, r, Sticky(bc[0]), x);
    ghost var final := Outcome(Expected(r, s, Sticky(bc[0]), cindex, capture[..]));
    ghost var n := StepsTo(m, Run(0, x, [], []), final);
    ExpectedMeans(r, s, Sticky(bc[0]), cindex, capture[..]);
    assert stack[..0] == [];
    ret := context.Backtrack(capture, stack, 0, cindex, n, final);
  }

  lemma StepsTo(m: Machine, c: Config, d: Config) returns (n: nat)
    requires Reaches(m, c, d)
    ensures Steps(m, c, n) == d
  {
    n :| Steps(m, c, n) == d;
  }
}
