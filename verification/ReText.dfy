/** What the character tests accept, told by the units of the subject: word characters, line terminators, and how
    surrogate pairs are read. */
module ReText {
  import opened ReBytes
  import opened ReChars
  import opened ReClass
  import opened ReCode
  import opened ReSemantics

  const DIGITS: string := "0123456789"
  const CAPITALS: string := "ABCDEFGHIJKLMNOPQRSTUVWXYZ"
  const SMALL: string := "abcdefghijklmnopqrstuvwxyz"

  /** The 63 characters of \w. */
  const WORD: string := DIGITS + CAPITALS + SMALL + "_"

  /** c is the code of a character of t. */
  ghost predicate Among(t: string, c: int) { exists k :: 0 <= k < |t| && t[k] as int == c }

  lemma AmongAppend(t: string, u: string, c: int)
    ensures Among(t + u, c) <==> Among(t, c) || Among(u, c)
  {
    if Among(t, c) {
      var k :| 0 <= k < |t| && t[k] as int == c;
      assert (t + u)[k] == t[k];
    }
    if Among(u, c) {
      var k :| 0 <= k < |u| && u[k] as int == c;
      assert (t + u)[|t| + k] == u[k];
    }
    if Among(t + u, c) {
      var k :| 0 <= k < |t + u| && (t + u)[k] as int == c;
      if k < |t| { assert t[k] as int == c; } else { assert u[k - |t|] as int == c; }
    }
  }

  /** t lists consecutive codes from lo on. */
  predicate Consecutive(t: string, lo: int) { forall k :: 0 <= k < |t| ==> t[k] as int == lo + k }

  lemma RunAmong(t: string, lo: int, c: int)
    requires Consecutive(t, lo)
    ensures Among(t, c) <==> lo <= c < lo + |t|
  {
    if lo <= c < lo + |t| { assert t[c - lo] as int == c; }
  }

  lemma Runs()
    ensures Consecutive(DIGITS, 0x30) && Consecutive(CAPITALS, 0x41) && Consecutive(SMALL, 0x61)
    ensures |DIGITS| == 10 && |CAPITALS| == 26 && |SMALL| == 26
  {}

  /** The word test accepts exactly these characters. */
  lemma WordIs(c: nat)
    ensures WordChar(c) <==> Among(WORD, c)
  {
    hide Among, Consecutive;
    Runs();
    AmongAppend(DIGITS + CAPITALS + SMALL, "_", c);
    AmongAppend(DIGITS + CAPITALS, SMALL, c);
    AmongAppend(DIGITS, CAPITALS, c);
    RunAmong(DIGITS, 0x30, c);
    RunAmong(CAPITALS, 0x41, c);
    RunAmong(SMALL, 0x61, c);
    UnderscoreIs(c);
  }

  lemma UnderscoreIs(c: nat)
    ensures Among("_", c) <==> c == 0x5F
  {
    assert "_"[0] as int == 0x5F;
  }

  /** The units that end a line. */
  const LINE_ENDS: set<int> := {0x0A, 0x0D, 0x2028, 0x2029}

  lemma LineIs(c: nat)
    ensures LineTerminator(c) <==> c in LINE_ENDS
  {}

  // ----- surrogate pairs -----

  /** Every code point above 0xFFFF is read back from its two units, forwards and backwards. */
  lemma PairReads(u: seq<nat>, i: nat, c: nat)
    requires i + 1 < |u| && 0x10000 <= c <= MAX_CODE_POINT
    requires u[i] == 0xD800 + (c - 0x10000) / 0x400 && u[i + 1] == 0xDC00 + (c - 0x10000) % 0x400
    ensures CharAt(u, Utf16, i) == c && NextPos(u, Utf16, i) == i + 2
    ensures CharBefore(u, Utf16, i + 2) == c && PrevPos(u, Utf16, i + 2) == i
  {
    var d := c - 0x10000;
    assert d == 0x400 * (d / 0x400) + d % 0x400 && d / 0x400 < 0x400;
  }

  /** Two units are one character exactly when they are a high and a low half in UTF-16 mode; any other unit stands for itself. */
  lemma UnitReads(u: seq<nat>, mode: CharMode, i: nat)
    requires i < |u|
    ensures var pair := mode.Utf16? && i + 1 < |u| && u[i] / 0x400 == 0x36 && u[i + 1] / 0x400 == 0x37;
            && NextPos(u, mode, i) == (if pair then i + 2 else i + 1)
            && (!pair ==> CharAt(u, mode, i) == u[i])
            && (pair ==> CharAt(u, mode, i) == 0x10000 + 0x400 * (u[i] % 0x400) + u[i + 1] % 0x400)
  {}

  /** Neither half of a pair, nor what they make together, is a word character or ends a line. */
  lemma PairPlain(high: nat, low: nat)
    requires IsHigh(high) && IsLow(low)
    ensures !WordChar(Combine(high, low)) && !WordChar(high) && !WordChar(low)
    ensures !LineTerminator(Combine(high, low)) && !LineTerminator(high) && !LineTerminator(low)
  {}

  /** So the character at i, and the one before i, can be told by one unit. */
  lemma ByUnit(u: seq<nat>, mode: CharMode, i: nat)
    requires i <= |u|
    ensures i < |u| ==> (WordChar(CharAt(u, mode, i)) <==> WordChar(u[i])) && (LineTerminator(CharAt(u, mode, i)) <==> LineTerminator(u[i]))
    ensures i > 0 ==> (WordChar(CharBefore(u, mode, i)) <==> WordChar(u[i - 1]))
    ensures i > 0 ==> (LineTerminator(CharBefore(u, mode, i)) <==> LineTerminator(u[i - 1]))
  {
    if ReChars.PairAt(u, mode, i) { PairPlain(u[i], u[i + 1]); }
    if ReChars.PairAt(u, mode, i - 2) { PairPlain(u[i - 2], u[i - 1]); }
  }

  // ----- what the patterns match -----

  /** \b matches where exactly one of the two neighbouring units is one of the 63 characters, \B where both or none are. */
  lemma WordBoundaryIs(s: Subject, negated: bool, i: nat)
    requires i <= |s.units|
    ensures Matches(Word(negated), s, i, i) <==>
            ((i > 0 && Among(WORD, s.units[i - 1])) != (i < |s.units| && Among(WORD, s.units[i]))) != negated
  {
    hide Among, WordChar, LineTerminator;
    ByUnit(s.units, s.mode, i);
    if i > 0 { WordIs(s.units[i - 1]); }
    if i < |s.units| { WordIs(s.units[i]); }
  }

  /** The dot matches one character, unless it is at the end or in front of a unit that ends a line. */
  lemma DotIs(s: Subject, i: nat)
    ensures (exists j: nat :: Matches(AnyButLine, s, i, j)) <==> i < |s.units| && s.units[i] !in LINE_ENDS
  {
    if i < |s.units| {
      ByUnit(s.units, s.mode, i);
      LineIs(s.units[i]);
      if s.units[i] !in LINE_ENDS { assert Matches(AnyButLine, s, i, NextPos(s.units, s.mode, i)); }
    }
  }

  /** ^ matches at the start and, with the multiline flag, just after a unit that ends a line. */
  lemma BolIs(s: Subject, i: nat)
    requires i <= |s.units|
    ensures Matches(Bol, s, i, i) <==> i == 0 || (s.multiLine && s.units[i - 1] in LINE_ENDS)
  {
    ByUnit(s.units, s.mode, i);
    if i > 0 { LineIs(s.units[i - 1]); }
  }

  /** $ matches at the end and, with the multiline flag, just before such a unit. */
  lemma EolIs(s: Subject, i: nat)
    requires i <= |s.units|
    ensures Matches(Eol, s, i, i) <==> i == |s.units| || (s.multiLine && s.units[i] in LINE_ENDS)
  {
    ByUnit(s.units, s.mode, i);
    if i < |s.units| { LineIs(s.units[i]); }
  }

  /** The dot with the dotAll flag matches one character wherever there is one. */
  lemma AnyIs(s: Subject, i: nat)
    ensures (exists j: nat :: Matches(AnyChar, s, i, j)) <==> i < |s.units|
  {
    if i < |s.units| { assert Matches(AnyChar, s, i, NextPos(s.units, s.mode, i)); }
  }

  /** A literal below the surrogates matches exactly its own unit. */
  lemma LiteralIs(s: Subject, c: nat, i: nat, j: nat)
    requires c < 0xD800
    ensures Matches(Literal(c), s, i, j) <==> i < |s.units| && s.units[i] == c && j == i + 1
  {
    if i < |s.units| { UnitReads(s.units, s.mode, i); }
  }

  /** A class matches exactly the characters of one of its intervals. */
  lemma ClassIs(s: Subject, points: seq<nat>, i: nat, j: nat)
    requires |points| % 2 == 0
    ensures Matches(Class(points), s, i, j) <==>
            i < |s.units| && j == NextPos(s.units, s.mode, i) && exists k :: InPair(points, k, CharAt(s.units, s.mode, i))
  {
    if i < |s.units| { InClassAt(points, CharAt(s.units, s.mode, i)); }
  }
}
