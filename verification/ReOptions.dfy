/** The flag byte of a program, told by the named options it is made of. */
module ReOptions {
  import opened Arith
  import opened ReBytes
  import opened ReChars
  import opened ReCode
  import opened ReSemantics
  import opened ReProgram
  import opened ReLayout
  import opened ReEngine

  datatype Options = Options(global: bool, ignoreCase: bool, multiLine: bool, dotAll: bool, utf16: bool, sticky: bool)

  /** The flags of libregexp.h; high stands for the two upper bits. */
  function FlagByte(o: Options, high: nat): byte
    requires high < 4
  {
    1 * Bit(o.global) + 2 * Bit(o.ignoreCase) + 4 * Bit(o.multiLine) + 8 * Bit(o.dotAll) + 16 * Bit(o.utf16) + 32 * Bit(o.sticky) + 64 * high
  }

  /** Each flag is read from its own bit. */
  lemma FlagsRead(o: Options, high: nat)
    requires high < 4
    ensures var f := FlagByte(o, high);
            && (IgnoreCase(f) <==> o.ignoreCase) && (MultiLine(f) <==> o.multiLine) && (Unicode(f) <==> o.utf16) && (Sticky(f) <==> o.sticky)
  {
    var g: int, i: int, m: int, d: int := Bit(o.global), Bit(o.ignoreCase), Bit(o.multiLine), Bit(o.dotAll);
    var u: int, y: int, h: int := Bit(o.utf16), Bit(o.sticky), high;
    var v: int := FlagByte(o, high);
    BitRead(v, 2, g, i, m + 2 * d + 4 * u + 8 * y + 16 * h);
    BitRead(v, 4, g + 2 * i, m, d + 2 * u + 4 * y + 8 * h);
    BitRead(v, 16, g + 2 * i + 4 * m + 8 * d, u, y + 2 * h);
    BitRead(v, 32, g + 2 * i + 4 * m + 8 * d + 16 * u, y, h);
  }

  lemma BitRead(v: int, w: int, low: int, b: int, rest: int)
    requires 0 <= low < w && 0 <= b <= 1 && v == w * (b + 2 * rest) + low
    ensures v / w % 2 == b
  {
    DivModUnique(v, w, b + 2 * rest, low);
  }

  /** The eleven bytes that try every start position. */
  const PREFIX: seq<byte> := [8, 6, 0, 0, 0, 4, 7, 0xF5, 0xFF, 0xFF, 0xFF]

  /** A compiled program begins with the search prefix exactly without the sticky option, and with group 0 otherwise. */
  lemma PrefixIff(bc: seq<byte>, r: Node, o: Options, high: nat)
    requires Image(bc, r) && high < 4 && bc[0] == FlagByte(o, high)
    ensures |bc| >= 18 || o.sticky
    ensures o.sticky ==> |bc| >= 8 && bc[7] == 11
    ensures !o.sticky <==> |bc| >= 18 && bc[7..18] == PREFIX
  {
    hide Bytes, Code, FlagByte, Put32;
    FlagsRead(o, high);
    var code := bc[7..];
    BytesAppend(if o.sticky then [] else SEARCH, WholeMatch(r));
    if o.sticky {
      WholeBytes(Code(r, 1));
      NothingBefore(WholeMatch(r));
      assert bc[7] == code[0];
    } else {
      SearchPrefix();
      assert bc[7..18] == code[..11];
    }
  }

  lemma NothingBefore(f: seq<Instr>)
    ensures [] + f == f && Bytes([]) == []
  {}

  lemma SearchPrefix()
    ensures Bytes(SEARCH) == PREFIX
  {
    hide Bytes;
    SearchBytes();
    assert Put32(6) == [6, 0, 0, 0] && Put32(-11) == [0xF5, 0xFF, 0xFF, 0xFF];
  }

  /** How the subject is read: halves are paired with the utf16 option only, on 16-bit units only, and lines count with the
      multiLine option only. */
  lemma SubjectRead(bc: seq<byte>, units: seq<nat>, wide: bool, o: Options, high: nat)
    requires |bc| > 0 && high < 4 && bc[0] == FlagByte(o, high)
    ensures var s := SubjectOf(bc, units, wide);
            && s.units == units && (s.multiLine <==> o.multiLine)
            && (s.mode.Latin1? <==> !wide) && (s.mode.Utf16? <==> wide && o.utf16)
  {
    hide FlagByte;
    FlagsRead(o, high);
  }

  /** What lre_exec decides, told by the options. */
  lemma VerdictRead(bc: seq<byte>, r: Node, units: seq<nat>, wide: bool, cindex: nat, o: Options, high: nat)
    requires |bc| > 0 && high < 4 && bc[0] == FlagByte(o, high)
    ensures var s := Subject(units, if !wide then Latin1 else if o.utf16 then Utf16 else Ucs2, o.multiLine);
            MatchExists(r, SubjectOf(bc, units, wide), Sticky(bc[0]), cindex) <==>
            if o.sticky then MatchesFrom(r, s, cindex) else exists p: nat :: StartOf(s, cindex, p) && MatchesFrom(r, s, p)
  {
    hide FlagByte, MatchesFrom, StartOf;
    FlagsRead(o, high);
    var s := Subject(units, if !wide then Latin1 else if o.utf16 then Utf16 else Ucs2, o.multiLine);
    assert SubjectOf(bc, units, wide) == s;
    SomeStart(r, s, cindex);
  }

  lemma SomeStart(r: Node, s: Subject, p: nat)
    ensures !NoStart(r, s, p) <==> exists q: nat :: StartOf(s, p, q) && MatchesFrom(r, s, q)
  {
    hide MatchesFrom, StartOf;
  }
}
