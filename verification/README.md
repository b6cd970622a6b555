# Exact arithmetic and regular expressions of QuickJS

A Dafny model of two C libraries of QuickJS, with proofs that they compute what they are for.

**libbf, the limb layer (`cxx/quickjs/libbf.c`).** Numbers are arrays of 64-bit limbs, updated in place. The model follows
the scalar number-theoretic transform from modular reduction without division, through the Stockham passes, the
four-step split for long vectors and the mixed-radix Chinese remaindering, up to `fft_mul`, which returns exactly the
product. On top of it come multiplication, Knuth division, the Newton reciprocal and the division built on it, and the
Karatsuba square root. Every routine is a method on arrays whose contract is an equation between integers (`Val` of a
window of limbs), and says what it leaves alone. The five moduli are the source's; that their table roots have the stated
order and that the remaindering constants are inverses is computed, not assumed; primality is never needed.

**libregexp (`cxx/quickjs/libregexp.c`).** A parsed pattern is compiled by code that appends, shifts, patches and copies
bytes; the result runs on a backtracking machine with an explicit stack of saved states. The model has four layers: what a
pattern means (`ReSemantics.Matches`), the ordered results of backtracking, the code of a pattern as a list of
instructions run by a step function (`ReCode`, `ReMachine`), and the imperative compiler and machine (`ReCompile`,
`ReExec`). Each layer is proved to refine the one above it, so that `LreExec` on the output of `LreCompile` decides
whether a match exists, and reports the preferred one with its groups. Safety is a separate invariant that needs no termination: it covers patterns and start positions
for which the answer may be wrong or the run endless.

How the files build on each other: `Arith`, `Sums`, `Word`, `Limbs`, `Bits` (numbers); `ModMul`, `Fourier`, `Stockham`,
`FourStep` (mathematics of the transform); `Ntt*`, `Digits`, `LimbNtt`, `FftMul` (the transform product); `MpBase`,
`MpMul`, `MpDiv1`, `MpDivBase`, `MpRecip`, `MpDiv`, `MpSqrt1`, `MpSqrt` (limb arithmetic); `ReChars`, `ReBytes`,
`ReClass`, `ReText`, `ReCode`, `ReChoice`, `ReSemantics`, `ReProgress`, `ReSimple`, `ReGroups`, `RePrefer` (patterns, captures and
code); `ReMachine`, `ReDepth`, `ReCorrect`,
`ReProgram` (correctness of code); `ReLayout`, `ReCompile`, `ReExec`, `ReEngine`, `ReOptions` (the imperative code); `ReShape`,
`ReSafety` (safety); `ReStart`, `ReLazy` (exact conditions).

`dafny verify dfyconfig.toml` checks everything.

## Model

| member | source | states |
|---|---|---|
| ModMul.ModFast | cxx/quickjs/libbf.c:7390-7406 | For every double limb below 2^125 and every modulus strictly between 2^61 and 2^62, the wrap-around code without division returns the residue itself, below m. |
| ModMul.MulModFast2 | cxx/quickjs/libbf.c:7429-7439 | For every limb a and constant b < m with its scaled inverse, the result is the residue of ab, below m. |
| ModMul.MulModFast3 | cxx/quickjs/libbf.c:7444-7452 | Without the last correction the result is congruent to ab and below 2m. |
| ModMul.InitModFastExact | cxx/quickjs/libbf.c:7418-7425 | Over the asserted range 2^61 <= m < 2^62 the inverse fits a limb if and only if m > 2^61. |
| Fourier.ConvTheorem | cxx/quickjs/libbf.c:7938-7970 | With a root of unity of order 2^k, the transform of a cyclic convolution is the pointwise product of the transforms, modulo any m. |
| Fourier.Inversion | cxx/quickjs/libbf.c:7938-7970 | Transforming back with the inverse root multiplies every entry by 2^k. |
| Stockham.StageStep | cxx/quickjs/libbf.c:7721-7778 | One butterfly pass halves the stride of the partly transformed array: the invariant that makes the last pass the transform. |
| NttFft.Pass | cxx/quickjs/libbf.c:7735-7765 | One pass of the loop, with lazily reduced values: the butterflies of every block are right modulo m, every value stays below 2m, nothing else changes. |
| NttConv.Fft | cxx/quickjs/libbf.c:7721-7778 | The window becomes its discrete Fourier transform modulo m, all values below 2m, for every order and both directions. |
| FourStep.SplitConv | cxx/quickjs/libbf.c:7882-7970 | Convolving row by row in the split domain and undoing the split is the cyclic convolution of the whole vectors: the recursive split for long transforms is sound. |
| NttPartial.FftPartial | cxx/quickjs/libbf.c:7882-7936 | Column transforms and twiddle factors through a strip buffer of 16 columns: the array becomes the split form (or is taken back from it), values below 2m. |
| NttConvolve.Convolve | cxx/quickjs/libbf.c:7940-7970 | The first window becomes 2^k / 2^k_tot times the cyclic convolution of the two windows modulo m, with every value below 2m, for every k up to 51, split or not; nothing outside the windows changes. |
| NttMods.ProotsValid | cxx/quickjs/libbf.c:7294-7303 | The table roots of all five moduli have order exactly 2^51 and the forward and inverse tables are mutually inverse: squared out, not assumed. |
| NttMods.CrValid | cxx/quickjs/libbf.c:7304-7316 | Every remaindering constant is the inverse of the smaller modulus modulo the larger one. |
| NttState.Init | cxx/quickjs/libbf.c:8259-8285 | From a root of order 2^top the fill loops build tables whose entries are roots of unity of every stated order, with the inverses of 2^i, for any odd modulus in range. |
| Bits.GetBitsExact | cxx/quickjs/libbf.c:318-339 | Reading a limb at any bit position gives (value / 2^pos) mod 2^64. |
| LimbNtt.LimbToNtt | cxx/quickjs/libbf.c:7973-8031 | For digit widths up to 188 bits, row j holds the base-2^dpl digits of the number modulo the modulus of row j, zero-padded. |
| NttLimb.MixedRadix | cxx/quickjs/libbf.c:8174-8191 | Chinese remaindering: from the residues of any C below the product of the moduli to its mixed-radix digits. |
| NttCarry.Recompose | cxx/quickjs/libbf.c:8193-8214 | The mixed-radix digits plus the incoming carry as limbs: exactly C plus the carry, without overflow. |
| NttCarry.PutBits | cxx/quickjs/libbf.c:7241-7256 | Writing a limb above all bits written so far adds it at that bit position, modulo the size of the array. |
| NttToLimb.NttToLimb | cxx/quickjs/libbf.c:8146-8243 | From the residues of coefficients C below the product of the moduli: the limbs of the sum of C[i] 2^(i dpl), modulo 2^(64 len). |
| NttSize.FftSize | cxx/quickjs/libbf.c:8308-8355 | Parameters are found if and only if the length is at most 2^52 limbs. They are the cheapest candidate over three to five moduli, with the fewest moduli among equals, where the candidate of each is the widest digit that fits; the width is cut to 125 exactly when it is larger and 125 bits still cover the operands. No coefficient reaches the product of the moduli and nothing wraps around. |
| NttSize.WidestDigit | cxx/quickjs/libbf.c:8319-8346 | The largest digit width, from the start width down, whose transform exists and whose coefficients stay below the product of the moduli; or there is none. |
| Digits.ConvEval | cxx/quickjs/libbf.c:8358-8457 | When the supports are short enough not to wrap around, the cyclic convolution of the digits evaluates to the product of the numbers. |
| FftMul.Convolutions | cxx/quickjs/libbf.c:8398-8436 | For both memory strategies the buffer holds, modulo each modulus, the convolution of the digit vectors of the two operands. |
| FftMul.FftMul | cxx/quickjs/libbf.c:8358-8457 | For any two operands with three to 2^52 limbs in all, the result is exactly the product of the two integers. |
| MpBase.Add | cxx/quickjs/libbf.c:1024-1040 | In place: new value + carry-out B^n = old value + operand + carry-in; nothing else changes. |
| MpBase.Sub | cxx/quickjs/libbf.c:1058-1074 | The same for subtraction and borrow. |
| MpBase.SubMul1 | cxx/quickjs/libbf.c:1198-1211 | In place: new value - returned limb B^n = old value - a b, through the signed double-limb arithmetic. |
| MpMul.MulBaseCase | cxx/quickjs/libbf.c:1161-1172 | Schoolbook product: exactly the product of the integers. |
| MpMul.Multiply | cxx/quickjs/libbf.c:1176-1194 | The same contract on both sides of the 100-limb threshold: the fast product refines the simple one. |
| MpMul.Compare | cxx/quickjs/libbf.c:1415-1427 | The sign returned is that of the comparison of the two integers. |
| MpDiv1.Udiv1Norm | cxx/quickjs/libbf.c:1224-1242 | For every normalized d and a1 < d, the true quotient and remainder of a1 B + a0, despite wrap-around and branch-free fix-ups. |
| MpDiv1.Div1Norm | cxx/quickjs/libbf.c:1245-1265 | Division by one limb in place, with either algorithm for a digit. |
| MpDivBase.DigitEstimate | cxx/quickjs/libbf.c:1311-1321 | The quotient digit estimated from the two top limbs is never too small and at most two too large. |
| MpDivBase.DivDigit | cxx/quickjs/libbf.c:1321-1341 | From such an estimate: the true digit, the window reduced to its remainder, at most two add-backs. |
| MpDivBase.DivNormBase | cxx/quickjs/libbf.c:1275-1344 | Long division in place: quotient limbs a / b, remainder limbs a mod b, for every normalized divisor of at least two limbs. |
| MpRecip.NewtonUpper | cxx/quickjs/libbf.c:1375-1402 | The Newton step never overshoots: the new a r stays below B^(2n). |
| MpRecip.NewtonLower | cxx/quickjs/libbf.c:1375-1402 | Nor does it fall short by two: B^(2n) < a (r + 2). |
| MpDiv.Recip | cxx/quickjs/libbf.c:1351-1412 | For every normalized a of n limbs: a r < B^(2n) < a (r + 2), r with n + 1 limbs and top limb 1. |
| MpDiv.LargeQuotient | cxx/quickjs/libbf.c:1433-1490 | The quotient by multiplication with the reciprocal, of a padded or truncated divisor, is never too large and at most three too small. |
| MpDiv.Correct | cxx/quickjs/libbf.c:1502-1510 | The correction loop ends after at most three steps with a remainder below the divisor. |
| MpDiv.DivNormLarge | cxx/quickjs/libbf.c:1433-1522 | Same contract as the base case: exact quotient and remainder, at most three corrections. |
| MpDiv.DivNorm | cxx/quickjs/libbf.c:1275-1344 | Exact quotient and remainder for every normalized divisor, whichever of the three algorithms runs, recursion included. |
| MpSqrt1.SqrtRem1 | cxx/quickjs/libbf.c:1887-1928 | Table lookup and two refinements give the exact root and remainder of every limb of at least B / 4. |
| MpSqrt1.SqrtRem2 | cxx/quickjs/libbf.c:1944-1970 | The exact root and remainder of every normalized pair of limbs. |
| MpSqrt.RootQuotient | cxx/quickjs/libbf.c:1997-2016 | The halved-divisor step: quotient and remainder of the division by twice the upper root, high bits included. |
| MpSqrt.KaratsubaStep | cxx/quickjs/libbf.c:1976-2042 | The root estimate from the upper root and the quotient is right, or one too large exactly when the remainder is negative. |
| MpSqrt.SqrtRem | cxx/quickjs/libbf.c:2050-2068 | For every 2n-limb a with top limb at least B / 4: s^2 <= a < (s + 1)^2 and the remainder limbs hold a - s^2. |
| ReChars.PrevUndoesNext | cxx/quickjs/libregexp.c:1924-2018 | PREV_CHAR undoes GET_CHAR from position i if and only if i does not split a surrogate pair. |
| ReChars.BackUndoesSkip | cxx/quickjs/libregexp.c:2137-2159 | From an unsplit position, going back as many characters as were read returns to it. |
| ReText.PairReads | cxx/quickjs/libregexp.c:1924-2018 | Every code point from 0x10000 to 0x10FFFF is read back from its two units, forwards and backwards. |
| ReText.UnitReads | cxx/quickjs/libregexp.c:1924-1941 | Two units are one character exactly when they are a high and a low half in UTF-16 mode; any other unit stands for itself. |
| ReText.WordIs | cxx/quickjs/libregexp.c:1916-1922 | The word test accepts exactly the 63 characters of the listed string. |
| ReText.WordBoundaryIs | cxx/quickjs/libregexp.c:2302-2326 | A word boundary is where exactly one of the two neighbouring units is one of the 63 characters, its negation where both or none are. |
| ReText.DotIs | cxx/quickjs/libregexp.c:2245-2251 | The dot matches one character except at the end and in front of \n, \r, U+2028 and U+2029. |
| ReText.BolIs | cxx/quickjs/libregexp.c:2227-2235 | The start anchor holds at the start and, with the multiline flag, just after one of these four units. |
| ReText.EolIs | cxx/quickjs/libregexp.c:2236-2244 | The end anchor holds at the end and, with the multiline flag, just before one of these four units. |
| ReText.ClassIs | cxx/quickjs/libregexp.c:821-857 | A class matches exactly the characters in one of its intervals. |
| ReBytes.DecodeEncode | cxx/quickjs/libregexp-opcode.h:25-57 | Every instruction with fitting operands is decoded again from its bytes, wherever they lie. |
| ReLayout.OpcodeTable | cxx/quickjs/libregexp-opcode.h:27-55 | The first byte of every instruction is its position in the list of opcodes, and its size the one listed there. |
| ReClass.ClassAccepted | cxx/quickjs/libregexp.c:821-857 | For every sorted point list with fewer than 65535 ranges and every code point: the emitted instruction, in 16-bit form with 0xffff as infinity or in 32-bit form, takes exactly the members. |
| ReClass.TestRange | cxx/quickjs/libregexp.c:2367-2443 | The two quick rejections and the binary search decide membership in the ranges. |
| ReSemantics.ResultsMatch | cxx/quickjs/libregexp.c:2089-2494 | The positions at which ordered backtracking stops are exactly those the declarative match relation allows, although empty iterations leave the loop and captures are reset once. |
| ReGroups.ResultsLead | cxx/quickjs/libregexp.c:2257-2278 | Every result of backtracking is one the capture relation allows: a group stores the position where its body is entered and the one where it is left, a repetition without mandatory copies unsets its groups on entry, nothing else changes an entry. |
| ReGroups.GroupEnds | cxx/quickjs/libregexp.c:2257-2262 | In every result of a group its two entries are the start and the end of what it matched. |
| ReGroups.SkippedUnsets | cxx/quickjs/libregexp.c:1603-1612 | A repetition that may be skipped has the result that skips it, with all its groups unset and every other entry kept. |
| ReGroups.ResultsRecorded | cxx/quickjs/libregexp.c:2257-2278 | In every result each group is unset or the two ends of a match of its own body, and set if no alternative, optional part or negative lookahead can bypass it. |
| RePrefer.LeftFirst | cxx/quickjs/libregexp.c:1738-1770 | An alternative that matches is preferred to those after it. |
| RePrefer.FirstThenSecond | cxx/quickjs/libregexp.c:1704-1736 | The preferred match of the first part is kept if the rest matches behind it. |
| RePrefer.LazyStops | cxx/quickjs/libregexp.c:1627-1653 | A non-greedy repetition without mandatory copies prefers to match nothing. |
| RePrefer.GreedyGoesOn | cxx/quickjs/libregexp.c:1627-1653 | A greedy one whose body matches and always consumes prefers to iterate. |
| RePrefer.LongestRun | cxx/quickjs/libregexp.c:2450-2489 | A starred character, class or dot takes the longest run there is. |
| ReProgress.ProgressWithin | cxx/quickjs/libregexp.c:950-1030 | If the zero-advance scan says a body advances (or its minimal length is positive), every result lies beyond the start. |
| ReSimple.SimpleRefines | cxx/quickjs/libregexp.c:2450-2489 | The simple greedy quantifier has the same results in the same order as the general greedy loop: count forward, then give back len characters at a time down to quant_min. |
| ReCorrect.NodeYields | cxx/quickjs/libregexp.c:1215-1770 | Compiler correctness: from any stack and saved states, the code of a pattern arrives behind itself with each result of the pattern in order, and then fails back to the saved states; never stuck. |
| ReProgram.ProgramRuns | cxx/quickjs/libregexp.c:1821-1872 | Every run of a compiled program (lazy unbounded bodies consuming) from an unsplit position ends, with the outcome the pattern's results determine. |
| ReProgram.SearchMeans | cxx/quickjs/libregexp.c:1850-1858 | The non-sticky prefix finds the first start position with a match and records the preferred match there, or shows there is none. |
| ReLayout.IsSimpleQuantifier | cxx/quickjs/libregexp.c:1034-1071 | The byte scan gives the number of character instructions of a straight-line atom, -1 for any other. |
| ReLayout.CheckAdvance | cxx/quickjs/libregexp.c:950-1030 | The byte scan says 1 exactly when the first effective instruction is a character. |
| ReLayout.ComputeStackSize | cxx/quickjs/libregexp.c:1773-1815 | The linear pass gives the largest depth in code order, or -1 if it exceeds 255; its assertion that nothing is popped from an empty stack holds. |
| ReLayout.CodeFits | cxx/quickjs/libregexp.c:1215-1770 | In code shorter than 2^31 bytes every operand fits its field. |
| ReChoice.RepeatForm | cxx/quickjs/libregexp.c:1554-1691 | Which form a repetition is compiled to, told on the pattern: the simple quantifier for greedy repetitions of choice-free patterns that take characters, the zero-advance check in greedy loops whose body need not begin with a character, the rest by the bounds. |
| ReChoice.CharsIs | cxx/quickjs/libregexp.c:1034-1071 | The straight-line scan accepts exactly the patterns without groups, alternatives, lookaheads and loops, and counts their characters. |
| ReChoice.FirstIs | cxx/quickjs/libregexp.c:950-1030 | The zero-advance scan finds whether a character, a choice or neither comes first in the pattern. |
| ReCompile.ParseState.Quantifier | cxx/quickjs/libregexp.c:1554-1691 | All quantifier forms, inserting, patching and copying in place, leave the encoding of the repetition's code, whatever the inserted gaps contained. |
| ReCompile.ParseState.Emit | cxx/quickjs/libregexp.c:1215-1770 | Appends exactly the encoding of the pattern's code; fails exactly for too many captures or too many ranges. |
| ReEngine.LreCompile | cxx/quickjs/libregexp.c:1821-1909 | Succeeds if and only if captures, ranges and stack depth are within their limits, and then returns header and code of the pattern. |
| ReOptions.FlagsRead | cxx/quickjs/libregexp.h:33-39 | For every flag byte, put together from named options with weights 1 to 32, each flag is read from its own bit. |
| ReOptions.PrefixIff | cxx/quickjs/libregexp.c:1850-1860 | A compiled program starts with the eleven bytes of the search prefix if and only if the sticky option is off. |
| ReOptions.SubjectRead | cxx/quickjs/libregexp.c:2507-2518 | Halves are paired exactly with the utf16 option on 16-bit units, and lines count exactly with the multiLine option. |
| ReOptions.VerdictRead | cxx/quickjs/libregexp.c:2499-2535 | What the engine decides, told by the options alone. |
| ReExec.ExecContext.Instruction | cxx/quickjs/libregexp.c:2101-2494 | One pass through the switch, on registers, arrays and saved states updated in place, is one step of the machine. |
| ReExec.ExecContext.Backtrack | cxx/quickjs/libregexp.c:2089-2494 | The loop over instructions returns the verdict, and the captures, of the run. |
| ReEngine.LreExec | cxx/quickjs/libregexp.c:2499-2535 | On the output of the compiler, from an unsplit cindex and with lazy unbounded bodies that consume: always returns; returns 1 if and only if a match exists at cindex (sticky) or at some later start. The captures are then those of the first result from the first such start: group 0 is a match, every other group is unset or a match of its body, and set if nothing can bypass it. |
| ReShape.CodeSound | cxx/quickjs/libregexp.c:1215-1770 | At every instruction of the code of any pattern the stack has one shape whatever was executed before; jumps lead to instructions where it fits, and operands are within bounds. |
| ReSafety.RunsSafely | cxx/quickjs/libregexp.c:1772-1815 | At every step of every run of every program the compiler accepts, from any start position and whether or not the run ends: an instruction of the program comes next, no pop underflows, stack and saved stacks stay within the computed size, give-backs stay in the subject, nothing is stuck. |
| ReEngine.ImageSafe | cxx/quickjs/libregexp.c:2499-2535 | The same for the bytes that the compiler returned. |
| ReStart.RightIffBoundary | cxx/quickjs/libregexp.c:2137-2159 | The engine's answer from a start position is right for every pattern if and only if the position does not split a surrogate pair. |
| ReLazy.LazyLoopEnds | cxx/quickjs/libregexp.c:1597 | For every body b: the non-greedy loop around b, exhausted, ends if and only if no empty match of b is in reach of iterations of b. |
| ReLazy.EmptyBodyNeverEnds | cxx/quickjs/libregexp.c:1597 | Around any body with an empty match at the start position the loop never ends, although the pattern matches nothing. |

## Findings

- A start position inside a surrogate pair (`cxx/quickjs/libregexp.c:2137-2159`): after `simple_greedy_quant` has read the
  low half as one character, PREV_CHAR steps back over the whole pair, and the position it started from is never tried.
  `lre_exec` only asks for 0 <= cindex <= clen. `ReStart.RightIffBoundary` shows that unsplit positions are exactly the safe
  ones; the missed pattern is `.?` followed by the low half and as many characters as remain.
- Non-greedy loops get no zero-advance check (`cxx/quickjs/libregexp.c:1597`): `/(?:)*?[]/` runs forever on every subject.
  `ReLazy.LazyLoopEnds` gives the exact condition for a loop around any body.
- The assertion in `init_mul_mod_fast` (`cxx/quickjs/libbf.c:7418-7425`) admits m = 2^61, for which the inverse 2^64 does not
  fit a limb; it is right exactly above 2^61 (`ModMul.InitModFastExact`). The moduli in use are above.
- The comment above `mp_recip` (`cxx/quickjs/libbf.c:1346-1350`) is to be read as a r < B^(2n) < a (r + 2), which is what the
  code guarantees.

## Left out

- ReEngine.LreExec: asks that bodies of unbounded non-greedy loops have positive minimal length and that cindex does not
  split a surrogate pair; outside these conditions the answer can be wrong or never come, as the findings show. It also
  asks for a program without the ignore-case flag, since case folding tables are not modelled, and for fewer than 2^31
  bytes, since the source keeps sizes and jump offsets in 32-bit integers.
- ReGroups.ResultsLead: one direction only. Inside a positive lookahead the relation allows the captures of any match of its
  body, while the engine keeps those of the first; `ReProgram.MatchFound` pins the engine to the first result.
- ReStart.RightIffBoundary: subjects have at most 2^31 - 1 units, as the source's `int clen` does.
- ReLazy.LazyLoopEnds: the exact condition is proved for a loop followed by a class that never matches, where every
  iteration is tried; in other contexts an earlier success can hide an endless loop.
- MpMul.Multiply: operands of at most 2^52 limbs in all, beyond which the transform product of the source aborts.
- MpDiv.Recip: numbers of about 2^52 / 3 limbs at most, for the same reason.
- MpDiv.DivNormLarge: dividends of about 2^52 / 3 limbs at most, for the same reason.
- MpDiv.DivNorm: dividends of about 2^52 / 3 limbs at most, for the same reason.
- MpSqrt.SqrtRem: roots of about 2^52 / 3 limbs at most, for the same reason.
- NttSize.FftSize: lengths of 2^58 limbs and more, for which the bit count wraps around in the source, are outside the
  model.
- FftMul.FftMul: lengths of at most two limbs, for which the source would use a transform of order 1, are not covered by
  this member; `MpMul.Multiply` covers them by the schoolbook product, as the source's threshold does. Beyond 2^52 limbs
  the source aborts.
- Parsing of the pattern text, named groups, Unicode property classes, case folding, back references and lookbehind: the
  compiler model starts from a parsed pattern.
- The AVX2 path of the transform, the cache of twiddle tables, 32-bit limbs, allocation failure and status codes.
- Const operands are passed as sequences, and `fft_mul` returns a new array that the caller copies; overlap flags of
  `fft_mul` are not modelled.
- `put_bits` and the assembly of a digit or two disjoint bit fields, written with `|` in the source, are modelled as sums,
  the fields being disjoint.
- The signed reading of a double limb and arithmetic shifts are spelled out on unsigned values.
- Sizes and positions are unbounded integers; the machine's saved states are a sequence rather than a reallocated buffer,
  and subject positions are indices rather than pointers.
- Rounding, addition and division of `bf_t` numbers, radix conversion, decimal limbs and transcendental functions.
- `rqsort`, character-range set algebra, and the number theory of `qjscalc.js`.
