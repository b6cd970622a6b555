/** The regular expression byte code: instructions, their encoding and decoding (libregexp-opcode.h). */
module ReBytes {

  type byte = x: int | 0 <= x < 256

  const U16: int := 0x1_0000
  const U32: int := 0x1_0000_0000
  const INT32_MAX: int := 0x7FFF_FFFF

  datatype Option<T> = None | Some(value: T)

  /** One instruction; jump offsets are relative to the end of the instruction. */
  datatype Instr =
    | Char(c: nat) | Char32(c: nat) | Dot | Any | LineStart | LineEnd
    | Goto(off: int) | Split(nextFirst: bool, off: int) | Match
    | SaveStart(index: nat) | SaveEnd(index: nat) | SaveReset(first: nat, last: nat)
    | Loop(off: int) | PushI32(value: nat) | Drop
    | WordBoundary(negated: bool)
    | Range(pairs: seq<(nat, nat)>) | Range32(pairs: seq<(nat, nat)>)
    | Lookahead(negated: bool, off: int)
    | PushCharPos | BneCharPos(off: int)
    | SimpleGreedy(next: int, min: nat, max: nat, len: nat)

  predicate Offset(off: int) { -0x8000_0000 <= off < 0x8000_0000 }

  predicate PairsBelow(pairs: seq<(nat, nat)>, c: int) {
    forall p :: p in pairs ==> p.0 < c && p.1 < c
  }

  /** The operands fit their fields. */
  predicate Fits(i: Instr) {
    match i
    case Char(c) => c < U16
    case Char32(c) => c < U32
    case Goto(off) => Offset(off)
    case Split(_, off) => Offset(off)
    case SaveStart(k) => k < 256
    case SaveEnd(k) => k < 256
    case SaveReset(a, b) => a < 256 && b < 256
    case Loop(off) => Offset(off)
    case PushI32(v) => v < U32
    case Range(pairs) => |pairs| < U16 && PairsBelow(pairs, U16)
    case Range32(pairs) => |pairs| < U16 && PairsBelow(pairs, U32)
    case Lookahead(_, off) => Offset(off)
    case BneCharPos(off) => Offset(off)
    case SimpleGreedy(next, min, max, len) => Offset(next) && min < U32 && max < U32 && len < U32
    case _ => true
  }

  function Size(i: Instr): (n: nat)
    ensures n >= 1
  {
    match i
    case Char(_) => 3
    case Char32(_) => 5
    case Goto(_) => 5
    case Split(_, _) => 5
    case SaveStart(_) => 2
    case SaveEnd(_) => 2
    case SaveReset(_, _) => 3
    case Loop(_) => 5
    case PushI32(_) => 5
    case Range(pairs) => 3 + 4 * |pairs|
    case Range32(pairs) => 3 + 8 * |pairs|
    case Lookahead(_, _) => 5
    case BneCharPos(_) => 5
    case SimpleGreedy(_, _, _, _) => 17
    case _ => 1
  }

  // ----- little-endian fields -----

  function Put16(v: int): (r: seq<byte>)
    ensures |r| == 2
  {
    [v % 256, v / 256 % 256]
  }

  function Put32(v: int): (r: seq<byte>)
    ensures |r| == 4
  {
    [v % 256, v / 256 % 256, v / 0x1_0000 % 256, v / 0x100_0000 % 256]
  }

  function Get16(b: seq<byte>, p: nat): (v: nat)
    requires p + 2 <= |b|
    ensures v < U16
  {
    b[p] as int + 256 * b[p + 1] as int
  }

  function Get32(b: seq<byte>, p: nat): (v: nat)
    requires p + 4 <= |b|
    ensures v < U32
  {
    b[p] as int + 256 * b[p + 1] as int + 0x1_0000 * b[p + 2] as int + 0x100_0000 * b[p + 3] as int
  }

  /** A 32-bit field read as a signed number. */
  function GetInt(b: seq<byte>, p: nat): int
    requires p + 4 <= |b|
  {
    var v := Get32(b, p);
    if v <= INT32_MAX then v else v - U32
  }

  lemma Read16(b: seq<byte>, p: nat, v: int)
    requires p + 2 <= |b| && b[p..p + 2] == Put16(v) && 0 <= v < U16
    ensures Get16(b, p) == v
  {
    assert b[p] == b[p..p + 2][0] && b[p + 1] == b[p..p + 2][1];
  }

  lemma FourBytes(v: int)
    ensures v % U32 == v % 256 + 256 * (v / 256 % 256) + 0x1_0000 * (v / 0x1_0000 % 256) + 0x100_0000 * (v / 0x100_0000 % 256)
  {
    var a := v / 256;
    var b := a / 256;
    var c := b / 256;
    assert v / 0x1_0000 == b && v / 0x100_0000 == c;
  }

  lemma Read32(b: seq<byte>, p: nat, v: int)
    requires p + 4 <= |b| && b[p..p + 4] == Put32(v)
    ensures Get32(b, p) == v % U32
    ensures 0 <= v < U32 ==> Get32(b, p) == v
    ensures Offset(v) ==> GetInt(b, p) == v
  {
    FourBytes(v);
    var w := b[p..p + 4];
    assert b[p] == w[0] && b[p + 1] == w[1] && b[p + 2] == w[2] && b[p + 3] == w[3];
  }

  function PutPairs16(pairs: seq<(nat, nat)>): (r: seq<byte>)
    ensures |r| == 4 * |pairs|
  {
    if pairs == [] then [] else Put16(pairs[0].0) + Put16(pairs[0].1) + PutPairs16(pairs[1..])
  }

  function PutPairs32(pairs: seq<(nat, nat)>): (r: seq<byte>)
    ensures |r| == 8 * |pairs|
  {
    if pairs == [] then [] else Put32(pairs[0].0) + Put32(pairs[0].1) + PutPairs32(pairs[1..])
  }

  function GetPairs16(b: seq<byte>, p: nat, n: nat): (r: seq<(nat, nat)>)
    requires p + 4 * n <= |b|
    ensures |r| == n
    decreases n
  {
    if n == 0 then [] else [(Get16(b, p), Get16(b, p + 2))] + GetPairs16(b, p + 4, n - 1)
  }

  function GetPairs32(b: seq<byte>, p: nat, n: nat): (r: seq<(nat, nat)>)
    requires p + 8 * n <= |b|
    ensures |r| == n
    decreases n
  {
    if n == 0 then [] else [(Get32(b, p), Get32(b, p + 4))] + GetPairs32(b, p + 8, n - 1)
  }

  /** b holds w at position p. */
  predicate Has(b: seq<byte>, p: nat, w: seq<byte>) {
    p + |w| <= |b| && b[p..p + |w|] == w
  }

  lemma HasParts(b: seq<byte>, p: nat, v: seq<byte>, w: seq<byte>)
    requires Has(b, p, v + w)
    ensures Has(b, p, v) && Has(b, p + |v|, w)
  {
    var x := b[p..p + |v + w|];
    assert x[..|v|] == b[p..p + |v|] && x[..|v|] == v;
    assert x[|v|..] == b[p + |v|..p + |v| + |w|] && x[|v|..] == w;
  }

  lemma {:induction false} ReadPairs16(b: seq<byte>, p: nat, pairs: seq<(nat, nat)>)
    requires Has(b, p, PutPairs16(pairs)) && PairsBelow(pairs, U16)
    ensures GetPairs16(b, p, |pairs|) == pairs
    decreases |pairs|
  {
    if pairs != [] {
      var rest := PutPairs16(pairs[1..]);
      assert PutPairs16(pairs) == Put16(pairs[0].0) + (Put16(pairs[0].1) + rest);
      HasParts(b, p, Put16(pairs[0].0), Put16(pairs[0].1) + rest);
      HasParts(b, p + 2, Put16(pairs[0].1), rest);
      assert pairs[0] in pairs;
      Read16(b, p, pairs[0].0);
      Read16(b, p + 2, pairs[0].1);
      ReadPairs16(b, p + 4, pairs[1..]);
    }
  }

  lemma {:induction false} ReadPairs32(b: seq<byte>, p: nat, pairs: seq<(nat, nat)>)
    requires Has(b, p, PutPairs32(pairs)) && PairsBelow(pairs, U32)
    ensures GetPairs32(b, p, |pairs|) == pairs
    decreases |pairs|
  {
    if pairs != [] {
      var rest := PutPairs32(pairs[1..]);
      assert PutPairs32(pairs) == Put32(pairs[0].0) + (Put32(pairs[0].1) + rest);
      HasParts(b, p, Put32(pairs[0].0), Put32(pairs[0].1) + rest);
      HasParts(b, p + 4, Put32(pairs[0].1), rest);
      assert pairs[0] in pairs;
      Read32(b, p, pairs[0].0);
      Read32(b, p + 4, pairs[0].1);
      ReadPairs32(b, p + 8, pairs[1..]);
    }
  }

  // ----- instructions -----

  /** Operands that do not fit their field are cut to its width. */
  function Encode(i: Instr): (r: seq<byte>)
    ensures |r| == Size(i)
  {
    match i
    case Char(c) => [1] + Put16(c)
    case Char32(c) => [2] + Put32(c)
    case Dot => [3]
    case Any => [4]
    case LineStart => [5]
    case LineEnd => [6]
    case Goto(off) => [7] + Put32(off)
    case Split(nextFirst, off) => [if nextFirst then 9 else 8] + Put32(off)
    case Match => [10]
    case SaveStart(k) => [11, k % 256]
    case SaveEnd(k) => [12, k % 256]
    case SaveReset(a, b) => [13, a % 256, b % 256]
    case Loop(off) => [14] + Put32(off)
    case PushI32(v) => [15] + Put32(v)
    case Drop => [16]
    case WordBoundary(negated) => [if negated then 18 else 17]
    case Range(pairs) => [21] + Put16(|pairs|) + PutPairs16(pairs)
    case Range32(pairs) => [22] + Put16(|pairs|) + PutPairs32(pairs)
    case Lookahead(negated, off) => [if negated then 24 else 23] + Put32(off)
    case PushCharPos => [25]
    case BneCharPos(off) => [26] + Put32(off)
    case SimpleGreedy(next, min, max, len) => [28] + Put32(next) + Put32(min) + Put32(max) + Put32(len)
  }

  /** The instruction at p, when its bytes lie inside the buffer. The three opcodes left out
      (back references and prev) are not part of this model. */
  function Decode(b: seq<byte>, p: nat): Option<Instr> {
    if p >= |b| then None
    else
      var op := b[p];
      if op == 3 then Some(Dot)
      else if op == 4 then Some(Any)
      else if op == 5 then Some(LineStart)
      else if op == 6 then Some(LineEnd)
      else if op == 10 then Some(Match)
      else if op == 16 then Some(Drop)
      else if op == 17 || op == 18 then Some(WordBoundary(op == 18))
      else if op == 25 then Some(PushCharPos)
      else if op == 11 || op == 12 then
        if p + 2 > |b| then None else Some(if op == 11 then SaveStart(b[p + 1]) else SaveEnd(b[p + 1]))
      else if op == 13 then
        if p + 3 > |b| then None else Some(SaveReset(b[p + 1], b[p + 2]))
      else if op == 1 then
        if p + 3 > |b| then None else Some(Char(Get16(b, p + 1)))
      else if op == 2 || op == 15 then
        if p + 5 > |b| then None else Some(if op == 2 then Char32(Get32(b, p + 1)) else PushI32(Get32(b, p + 1)))
      else if op == 21 || op == 22 then DecodeRanges(b, p, op == 21)
      else if op == 28 then
        if p + 17 > |b| then None
        else Some(SimpleGreedy(GetInt(b, p + 1), Get32(b, p + 5), Get32(b, p + 9), Get32(b, p + 13)))
      else DecodeJump(b, p)
  }

  function DecodeRanges(b: seq<byte>, p: nat, narrow: bool): Option<Instr> {
    if p + 3 > |b| then None
    else
      var n := Get16(b, p + 1);
      if p + 3 + (if narrow then 4 else 8) * n > |b| then None
      else if narrow then Some(Range(GetPairs16(b, p + 3, n)))
      else Some(Range32(GetPairs32(b, p + 3, n)))
  }

  function DecodeJump(b: seq<byte>, p: nat): Option<Instr>
    requires p < |b|
  {
    if p + 5 > |b| then None
    else
      var op, off := b[p], GetInt(b, p + 1);
      if op == 7 then Some(Goto(off))
      else if op == 8 || op == 9 then Some(Split(op == 9, off))
      else if op == 14 then Some(Loop(off))
      else if op == 23 || op == 24 then Some(Lookahead(op == 24, off))
      else if op == 26 then Some(BneCharPos(off))
      else None
  }

  lemma DecodeSize(b: seq<byte>, p: nat)
    requires Decode(b, p).Some?
    ensures p + Size(Decode(b, p).value) <= |b|
  {}

  lemma DecodeRange(b: seq<byte>, p: nat, i: Instr)
    requires Fits(i) && Has(b, p, Encode(i)) && i.Range?
    ensures Decode(b, p) == Some(i)
  {
    hide Put16, Get16, PutPairs16, PutPairs32, GetPairs16, GetPairs32;
    var w := PutPairs16(i.pairs);
    assert Encode(i) == [21] + (Put16(|i.pairs|) + w);
    HasParts(b, p, [21], Put16(|i.pairs|) + w);
    assert b[p] == b[p..p + 1][0];
    HasParts(b, p + 1, Put16(|i.pairs|), w);
    Read16(b, p + 1, |i.pairs|);
    ReadPairs16(b, p + 3, i.pairs);
  }

  lemma DecodeRange32(b: seq<byte>, p: nat, i: Instr)
    requires Fits(i) && Has(b, p, Encode(i)) && i.Range32?
    ensures Decode(b, p) == Some(i)
  {
    hide Put16, Get16, PutPairs16, PutPairs32, GetPairs16, GetPairs32;
    var w := PutPairs32(i.pairs);
    assert Encode(i) == [22] + (Put16(|i.pairs|) + w);
    HasParts(b, p, [22], Put16(|i.pairs|) + w);
    assert b[p] == b[p..p + 1][0];
    HasParts(b, p + 1, Put16(|i.pairs|), w);
    Read16(b, p + 1, |i.pairs|);
    ReadPairs32(b, p + 3, i.pairs);
  }

  lemma DecodeGreedy(b: seq<byte>, p: nat, i: Instr)
    requires Fits(i) && Has(b, p, Encode(i)) && i.SimpleGreedy?
    ensures Decode(b, p) == Some(i)
  {
    hide Put32, GetInt, Get32;
    var a, c, d, e := Put32(i.next), Put32(i.min), Put32(i.max), Put32(i.len);
    assert Encode(i) == [28] + (a + (c + (d + e)));
    HasParts(b, p, [28], a + (c + (d + e)));
    assert b[p] == b[p..p + 1][0];
    HasParts(b, p + 1, a, c + (d + e));
    HasParts(b, p + 5, c, d + e);
    HasParts(b, p + 9, d, e);
    Read32(b, p + 1, i.next);
    Read32(b, p + 5, i.min);
    Read32(b, p + 9, i.max);
    Read32(b, p + 13, i.len);
  }

  lemma DecodeWord(b: seq<byte>, p: nat, i: Instr)
    requires Fits(i) && Has(b, p, Encode(i))
    requires i.Char32? || i.PushI32? || i.Goto? || i.Split? || i.Loop? || i.BneCharPos? || i.Lookahead?
    ensures Decode(b, p) == Some(i)
  {
    hide Put32, GetInt, Get32;
    var v := match i case Char32(c) => c case PushI32(c) => c case Goto(o) => o case Split(_, o) => o
                     case Loop(o) => o case BneCharPos(o) => o case Lookahead(_, o) => o case _ => 0;
    var op := Encode(i)[0];
    assert Encode(i) == [op] + Put32(v);
    HasParts(b, p, [op], Put32(v));
    assert b[p] == b[p..p + 1][0];
    Read32(b, p + 1, v);
  }

  /** Decoding gives back the encoded instruction. */
  lemma DecodeEncode(b: seq<byte>, p: nat, i: Instr)
    requires Fits(i) && Has(b, p, Encode(i))
    ensures Decode(b, p) == Some(i)
  {
    hide Put16, Put32, GetInt, Get32, Get16;
    if i.Range? {
      DecodeRange(b, p, i);
    } else if i.Range32? {
      DecodeRange32(b, p, i);
    } else if i.SimpleGreedy? {
      DecodeGreedy(b, p, i);
    } else if i.Char32? || i.PushI32? || i.Goto? || i.Split? || i.Loop? || i.BneCharPos? || i.Lookahead? {
      DecodeWord(b, p, i);
    } else {
      var w := b[p..p + Size(i)];
      assert w == Encode(i) && b[p] == w[0];
      if i.SaveStart? || i.SaveEnd? || i.SaveReset? { assert b[p + 1] == w[1]; }
      if i.SaveReset? { assert b[p + 2] == w[2]; }
      if i.Char? {
        HasParts(b, p, [1], Put16(i.c));
        Read16(b, p + 1, i.c);
      }
    }
  }
}
