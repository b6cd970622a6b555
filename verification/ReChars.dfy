/** Reading characters of the subject string: GET_CHAR, PEEK_CHAR, PEEK_PREV_CHAR and PREV_CHAR. */
module ReChars {

  /** How the units of the subject are read: 8-bit units, 16-bit units, or 16-bit units paired as UTF-16. */
  datatype CharMode = Latin1 | Ucs2 | Utf16

  predicate IsHigh(u: nat) { 0xD800 <= u < 0xDC00 }

  predicate IsLow(u: nat) { 0xDC00 <= u < 0xE000 }

  /** The code point of a surrogate pair. */
  function Combine(high: nat, low: nat): nat
    requires IsHigh(high) && IsLow(low)
  {
    (high - 0xD800) * 0x400 + (low - 0xDC00) + 0x10000
  }

  /** Whether a surrogate pair starts at unit i. */
  predicate PairAt(s: seq<nat>, mode: CharMode, i: int) {
    mode.Utf16? && 0 <= i && i + 1 < |s| && IsHigh(s[i]) && IsLow(s[i + 1])
  }

  function CharAt(s: seq<nat>, mode: CharMode, i: nat): nat
    requires i < |s|
  {
    if PairAt(s, mode, i) then Combine(s[i], s[i + 1]) else s[i]
  }

  /** The position after the character at i. */
  function NextPos(s: seq<nat>, mode: CharMode, i: nat): (r: nat)
    requires i < |s|
    ensures i < r <= |s|
  {
    if PairAt(s, mode, i) then i + 2 else i + 1
  }

  /** The character before i, as PEEK_PREV_CHAR reads it. */
  function CharBefore(s: seq<nat>, mode: CharMode, i: nat): nat
    requires 0 < i <= |s|
  {
    if PairAt(s, mode, i - 2) then Combine(s[i - 2], s[i - 1]) else s[i - 1]
  }

  /** PREV_CHAR. */
  function PrevPos(s: seq<nat>, mode: CharMode, i: nat): (r: nat)
    requires 0 < i <= |s|
    ensures r < i
  {
    if PairAt(s, mode, i - 2) then i - 2 else i - 1
  }

  /** i does not split a surrogate pair. */
  predicate Boundary(s: seq<nat>, mode: CharMode, i: int) {
    0 <= i <= |s| && !PairAt(s, mode, i - 1)
  }

  lemma NextIsBoundary(s: seq<nat>, mode: CharMode, i: nat)
    requires i < |s|
    ensures Boundary(s, mode, NextPos(s, mode, i))
  {}

  /** PREV_CHAR undoes GET_CHAR exactly at the positions that do not split a pair. */
  lemma PrevUndoesNext(s: seq<nat>, mode: CharMode, i: nat)
    requires i < |s|
    ensures PrevPos(s, mode, NextPos(s, mode, i)) == i <==> Boundary(s, mode, i)
    ensures Boundary(s, mode, i) ==> CharBefore(s, mode, NextPos(s, mode, i)) == CharAt(s, mode, i)
  {}

  /** n characters forward. */
  function Skip(s: seq<nat>, mode: CharMode, i: nat, n: nat): (r: int)
    requires i <= |s|
    ensures -1 <= r <= |s|
    decreases n
  {
    if n == 0 then i else if i == |s| then -1 else Skip(s, mode, NextPos(s, mode, i), n - 1)
  }

  /** n times PREV_CHAR; -1 when that would leave the buffer. */
  function Back(s: seq<nat>, mode: CharMode, i: nat, n: nat): (r: int)
    requires i <= |s|
    ensures -1 <= r <= |s|
    decreases n
  {
    if n == 0 then i else if i == 0 then -1 else Back(s, mode, PrevPos(s, mode, i), n - 1)
  }

  lemma {:induction false} BackStep(s: seq<nat>, mode: CharMode, i: nat, n: nat)
    requires i <= |s| && Back(s, mode, i, n) > 0
    ensures Back(s, mode, i, n + 1) == PrevPos(s, mode, Back(s, mode, i, n))
    decreases n
  {
    if n > 0 { BackStep(s, mode, PrevPos(s, mode, i), n - 1); }
  }

  /** Going back as many characters as were read returns to the start, from any unsplit position. */
  lemma {:induction false} BackUndoesSkip(s: seq<nat>, mode: CharMode, i: nat, n: nat)
    requires Boundary(s, mode, i) && Skip(s, mode, i, n) >= 0
    ensures Back(s, mode, Skip(s, mode, i, n), n) == i && Boundary(s, mode, Skip(s, mode, i, n))
    decreases n
  {
    if n > 0 {
      var j := NextPos(s, mode, i);
      NextIsBoundary(s, mode, i);
      BackUndoesSkip(s, mode, j, n - 1);
      BackStep(s, mode, Skip(s, mode, j, n - 1), n - 1);
      PrevUndoesNext(s, mode, i);
    }
  }

  predicate LineTerminator(c: nat) {
    c == 0x0A || c == 0x0D || c == 0x2028 || c == 0x2029
  }

  predicate WordChar(c: nat) {
    0x30 <= c <= 0x39 || 0x61 <= c <= 0x7A || 0x41 <= c <= 0x5A || c == 0x5F
  }

  predicate AtLineStart(s: seq<nat>, mode: CharMode, multiLine: bool, i: nat)
    requires i <= |s|
  {
    i == 0 || (multiLine && LineTerminator(CharBefore(s, mode, i)))
  }

  predicate AtLineEnd(s: seq<nat>, mode: CharMode, multiLine: bool, i: nat)
    requires i <= |s|
  {
    i == |s| || (multiLine && LineTerminator(CharAt(s, mode, i)))
  }

  predicate AtWordBoundary(s: seq<nat>, mode: CharMode, i: nat)
    requires i <= |s|
  {
    (i > 0 && WordChar(CharBefore(s, mode, i))) != (i < |s| && WordChar(CharAt(s, mode, i)))
  }
}
