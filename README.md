# JJitter codec core in Dafny

This project models the codec layer of JJitter (`src/com/encoder/core/`).
The layer has three small, self-contained transducers, and each is modelled
in its own module:

- `LineEncoder` (`line_encoder.dfy`) turns a symbol string into a sequence of
  signal levels under one of five line codes: NRZ-L, NRZ-I, Manchester,
  Differential Manchester and AMI. AMI also accepts the forced-polarity
  markers `+` and `-` that the scramblers produce.
- `Scrambler` (`scrambler.dfy`) rewrites long zero runs before AMI. B8ZS
  replaces runs of eight zeros and HDB3 replaces runs of four.
- `PalindromeFinder` (`palindrome_finder.dfy`) finds the longest palindromic
  substring with Manacher's algorithm.
- `Bits` (`bits.dfy`) holds the shared symbol-string vocabulary: counts,
  zero strings, binary and scrambled alphabets, and zero runs.
- `Pipeline` (`pipeline.dfy`) relates the scramblers to the AMI encoder they
  feed.

Every Java loop is a Dafny method with a loop and its invariants. Each method
is proved to return a specification function:
- for the line codes and scramblers, a front-recursive function that
  threads the loop's state (`NrzIFrom`, `AmiFrom`, `B8zsFrom`, `Hdb3From`);
- for Manacher's algorithm, a declarative predicate (`IsLeftmostLongest`).

What the source promises is then proved about those functions as lemmas:
- closed forms of every line code, symbol by symbol;
- the AMI symbol rules, and that the AMI flag is the sign of the last pulse
  emitted, so a '1' is always opposite to the last non-zero level before it;
- that the backtracking scramblers agree with an independent definition by
  zero runs (`B8zsByRuns`, `Hdb3ByRuns`);
- that scrambled output has no `1`, keeps the input's length and never holds
  8 (B8ZS) or 4 (HDB3) consecutive zeros;
- that B8ZS pulses alternate across substitutions, because a substitution
  leaves the polarity unchanged;
- that every HDB3 '1' takes the polarity opposite to the last pulse emitted
  before it, the pulses of the substitutions included;
- that B8ZS and HDB3 followed by AMI give the same signal as plain AMI on
  bits without such runs;
- that Manacher's result is the leftmost longest palindrome.

Levels are Java `Double`s that only take the values -1.0, 0.0 and +1.0, so
they are modelled as `int`. `Encode` is specified by the function
`EncodedLevels`, so equal arguments always give equal levels: no state
carries over between calls.

Points where the code's behaviour might be unexpected are modelled as
written:
- The scramblers accept any symbol. Every symbol other than `1` is read as
  a zero (Scrambler.java:23, 66). Rejecting other symbols with an error is
  not part of the code, so it is not part of the model. A symbol here is a
  Dafny `char`; see "## Left out" for how that differs from a Java `char`.
- Manacher's algorithm needs no precondition that the separator `#` is
  absent from the input. The model proves the result correct for every
  input. The reason is that a radius check only compares two positions of
  the same parity: two separators, or two input symbols.
- B8ZS chooses its patterns the opposite way round from the textbook
  000VB0VB rule. After a negative pulse it emits `000+-0-+`
  (Scrambler.java:32-34). The model keeps the code's choice.

## Model

| member | source | states |
|---|---|---|
| LineEncoder.EncodeNrzL | src/com/encoder/core/LineEncoder.java:39-45 | the NRZ-L loop returns the NRZ-L levels of the input |
| LineEncoder.NrzLLevelsAt | src/com/encoder/core/LineEncoder.java:39-45 | one level per symbol: +1 for '0', -1 for any other symbol |
| LineEncoder.EncodeNrzI | src/com/encoder/core/LineEncoder.java:48-58 | the NRZ-I loop, with the level starting at +1 and inverted on each '1', returns the NRZ-I levels |
| LineEncoder.NrzIFromAt | src/com/encoder/core/LineEncoder.java:50-56 | from any start level, level i equals the start level exactly when data[..i+1] holds an even number of '1's, and is its negation otherwise |
| LineEncoder.NrzILevelsAt | src/com/encoder/core/LineEncoder.java:48-58 | one level per symbol, each ±1, and +1 exactly when data[..i+1] holds an even number of '1's |
| LineEncoder.EncodeManchester | src/com/encoder/core/LineEncoder.java:61-73 | the Manchester loop returns the Manchester levels |
| LineEncoder.ManchesterLevelsAt | src/com/encoder/core/LineEncoder.java:61-73 | two levels per symbol: (+1, -1) for '0' and (-1, +1) for any other symbol, so every pair has a mid-bit transition |
| LineEncoder.ManchesterLevelsSigned | src/com/encoder/core/LineEncoder.java:61-73 | every Manchester level is +1 or -1 |
| LineEncoder.EncodeDiffManchester | src/com/encoder/core/LineEncoder.java:77-94 | the Differential Manchester loop returns the Differential Manchester levels |
| LineEncoder.DiffManchesterFromShape | src/com/encoder/core/LineEncoder.java:79-91 | from a start level ±1: two levels per symbol, all ±1; the second level of each pair negates the first; the first level is the start level, negated for '0' |
| LineEncoder.DiffManchesterFromTransitions | src/com/encoder/core/LineEncoder.java:79-91 | from a start level ±1: for i > 0 the level changes at the start of symbol i exactly when it is '0' |
| LineEncoder.DiffManchesterLevelsAt | src/com/encoder/core/LineEncoder.java:77-94 | the same from the start level +1: the first pair is (-1, +1) for '0' and (+1, -1) otherwise |
| LineEncoder.EncodeAmi | src/com/encoder/core/LineEncoder.java:98-130 | the AMI loop with its switch over the symbol returns the AMI levels |
| LineEncoder.AmiFromAppend | src/com/encoder/core/LineEncoder.java:100-128 | AMI of a concatenation is AMI of the first part, then AMI of the second part from the flag the first part leaves |
| LineEncoder.AmiAt | src/com/encoder/core/LineEncoder.java:102-127 | the levels of a symbol at any position are its own emission from the flag left by everything before it |
| LineEncoder.AmiSymbolRules | src/com/encoder/core/LineEncoder.java:103-127 | at any position: '0' gives 0; '1' gives the level opposite to the flag and flips it; '+' gives +1 and sets the flag; '-' gives -1 and clears it; any other symbol gives nothing and keeps the flag |
| LineEncoder.LastPulseLevelAppend | src/com/encoder/core/LineEncoder.java:100-127 | the last non-zero level of a concatenation is the last one of its second part, counted from the last one of its first part |
| LineEncoder.AmiAfterIsLastPulse | src/com/encoder/core/LineEncoder.java:100-127 | the flag `isLastPulsePositive` after any input is exactly whether the last non-zero level emitted is +1 (the flag's own level when no pulse was emitted) |
| LineEncoder.AmiOneOppositeLastPulse | src/com/encoder/core/LineEncoder.java:100-116 | a '1' anywhere gives the pulse opposite to the last non-zero level before it (+1 when there is none), and the rest continues from that pulse |
| LineEncoder.AmiFromLength | src/com/encoder/core/LineEncoder.java:102-127 | at most one level per symbol, exactly one per symbol if and only if every symbol is in {0, 1, +, -}, and every level lies in [-1, 1] |
| LineEncoder.AmiFromBinaryAt | src/com/encoder/core/LineEncoder.java:100-116 | on a bit stream, from any flag: 0 for '0'; for '1', +1 exactly when the parity of earlier '1's matches the flag |
| LineEncoder.AmiLevelsBinaryAt | src/com/encoder/core/LineEncoder.java:98-116 | on a bit stream: one level per bit; '1's alternate, starting with +1 |
| LineEncoder.AmiFromSignedAt | src/com/encoder/core/LineEncoder.java:102-127 | on a stream over {0, +, -}, from any flag: one level per symbol, 0 for '0', +1 for '+', -1 for '-' |
| LineEncoder.Encode | src/com/encoder/core/LineEncoder.java:21-36 | the dispatch returns exactly the selected scheme's levels |
| LineEncoder.EncodedLevelsShape | src/com/encoder/core/LineEncoder.java:21-130 | for every scheme: empty input gives no levels; every level is in {-1, 0, +1}; every level is ±1 except for AMI; the length is the input's for NRZ-L and NRZ-I, twice it for both Manchester codes, and at most it for AMI |
| LineEncoder.EncodingExamples | src/com/encoder/core/LineEncoder.java:48-130 | NRZ-I of "1111" is [-1, +1, -1, +1] and AMI of "1011" is [+1, 0, -1, +1] |
| Scrambler.B8zsPattern | src/com/encoder/core/Scrambler.java:32-38 | the pattern is "000" followed by the opposite polarity, the last polarity, '0', the last polarity, the opposite polarity |
| Scrambler.B8zsPatternBalanced | src/com/encoder/core/Scrambler.java:32-38 | either pattern has exactly four non-'0' symbols, two '+' and two '-' |
| Scrambler.B8zsStep | src/com/encoder/core/Scrambler.java:17-42 | one loop turn keeps the invariant (fewer than 8 pending zeros, all at the end of the buffer) and grows the buffer by one; on the eighth zero the backtrack removes only '0's appended since the last '1' or substitution, and the polarity is unchanged with the zero count reset |
| Scrambler.B8zsFrom | src/com/encoder/core/Scrambler.java:16-43 | the scan keeps the invariant and appends exactly one symbol per input symbol |
| Scrambler.B8zsScrambled | src/com/encoder/core/Scrambler.java:11-45 | the output has the input's length |
| Scrambler.B8zs | src/com/encoder/core/Scrambler.java:11-45 | the Java loop, with its setLength backtrack, returns the scan's output |
| Scrambler.B8zsByRuns | src/com/encoder/core/Scrambler.java:19-42 | the definition by runs has the input's length |
| Scrambler.B8zsByRunsSigned | src/com/encoder/core/Scrambler.java:19-42 | the definition by runs emits only '0', '+' and '-' |
| Scrambler.B8zsByRunsShortRun | src/com/encoder/core/Scrambler.java:23-27 | fewer than eight zeros before a '1' or the end stay literal zeros |
| Scrambler.B8zsFromByRuns | src/com/encoder/core/Scrambler.java:16-43 | from any reachable state, the backtracking scan equals the settled buffer followed by the definition by runs of the pending zeros and the rest |
| Scrambler.B8zsScrambledByRuns | src/com/encoder/core/Scrambler.java:11-45 | b8zs equals the definition by runs from a negative last pulse |
| Scrambler.B8zsScrambledSigned | src/com/encoder/core/Scrambler.java:19-42 | the output holds no '1' |
| Scrambler.B8zsByRunsPulses | src/com/encoder/core/Scrambler.java:19-22 | every input '1' becomes a pulse |
| Scrambler.B8zsByRunsNoZeroRun | src/com/encoder/core/Scrambler.java:19-42 | the definition by runs never emits eight consecutive '0's |
| Scrambler.B8zsScrambledNoZeroRun | src/com/encoder/core/Scrambler.java:5-45 | b8zs output never holds eight consecutive '0's |
| Scrambler.B8zsByRunsUnsubstituted | src/com/encoder/core/Scrambler.java:19-25 | without an eight-zero run, '1' becomes the polarity after the last one when an even number of '1's precede it, the last polarity otherwise; every other symbol becomes '0' |
| Scrambler.B8zsScrambledUnsubstituted | src/com/encoder/core/Scrambler.java:13-25 | without an eight-zero run, b8zs turns the '1's into '+' and '-' alternately, starting with '+', and everything else into '0' |
| Scrambler.B8zsByRunsAlternates | src/com/encoder/core/Scrambler.java:19-40 | on every input, from any polarity: each '1' becomes the polarity after the last one when an even number of '1's precede it, the last polarity otherwise; substitutions do not disturb the alternation |
| Scrambler.B8zsScrambledAlternates | src/com/encoder/core/Scrambler.java:13-40 | on every input, runs or not, b8zs turns the j-th '1' into '+' when an even number of '1's precede it and '-' otherwise |
| Scrambler.B8zsFromAppend | src/com/encoder/core/Scrambler.java:16-43 | scanning a concatenation is scanning the second part from the state the first leaves |
| Scrambler.B8zsShortTail | src/com/encoder/core/Scrambler.java:23-27 | a trailing run of fewer than eight zeros, after a '1' or at the start, stays literal zeros |
| Scrambler.B8zsEightZeros | src/com/encoder/core/Scrambler.java:27-34 | "00000000" gives "000+-0-+" |
| Scrambler.B8zsByRunsRun | src/com/encoder/core/Scrambler.java:27-40 | eight leading zeros become the pattern, and the rest is read with the polarity unchanged |
| Scrambler.B8zsByRunsTwoRuns | src/com/encoder/core/Scrambler.java:27-40 | sixteen leading zeros become the pattern twice, and the rest is read with the polarity unchanged |
| Scrambler.B8zsSixteenZeros | src/com/encoder/core/Scrambler.java:11-45 | an input starting with sixteen zeros gives "000+-0-+000+-0-+" followed by the rest read from a negative last pulse |
| Scrambler.Hdb3Substitution | src/com/encoder/core/Scrambler.java:74-91 | after an odd count of '1's: "000V" with V the last polarity, polarity kept; after an even count: "B00V" with B = V = the opposite polarity, which becomes the new polarity |
| Scrambler.Hdb3Step | src/com/encoder/core/Scrambler.java:59-96 | one loop turn keeps the invariant (fewer than 4 pending zeros at the end of the buffer) and grows the buffer by one; on the fourth zero the backtrack removes only '0's, and both counters reset |
| Scrambler.Hdb3From | src/com/encoder/core/Scrambler.java:58-97 | the scan keeps the invariant and appends one symbol per input symbol |
| Scrambler.Hdb3Scrambled | src/com/encoder/core/Scrambler.java:52-99 | the output has the input's length |
| Scrambler.Hdb3 | src/com/encoder/core/Scrambler.java:52-99 | the Java loop, with its setLength backtrack, returns the scan's output |
| Scrambler.Hdb3ByRuns | src/com/encoder/core/Scrambler.java:61-95 | the definition by runs has the input's length |
| Scrambler.Hdb3ByRunsSigned | src/com/encoder/core/Scrambler.java:61-95 | the definition by runs emits only '0', '+' and '-' |
| Scrambler.Hdb3ByRunsShortRun | src/com/encoder/core/Scrambler.java:66-70 | fewer than four zeros before a '1' or the end stay literal zeros |
| Scrambler.Hdb3FromByRuns | src/com/encoder/core/Scrambler.java:58-97 | from any reachable state, the scan equals the settled buffer followed by the definition by runs of the pending zeros and the rest, with the parity of '1's since the last substitution |
| Scrambler.Hdb3ScrambledByRuns | src/com/encoder/core/Scrambler.java:52-99 | hdb3 equals the definition by runs from a negative last pulse and an even count |
| Scrambler.Hdb3ScrambledSigned | src/com/encoder/core/Scrambler.java:61-95 | the output holds no '1' |
| Scrambler.Hdb3ByRunsPulses | src/com/encoder/core/Scrambler.java:61-65 | every input '1' becomes a pulse |
| Scrambler.Hdb3ByRunsNoZeroRun | src/com/encoder/core/Scrambler.java:61-95 | the definition by runs never emits four consecutive '0's |
| Scrambler.Hdb3ScrambledNoZeroRun | src/com/encoder/core/Scrambler.java:47-99 | hdb3 output never holds four consecutive '0's |
| Scrambler.Hdb3ByRunsUnsubstituted | src/com/encoder/core/Scrambler.java:61-68 | without a four-zero run, '1's alternate from the polarity after the last one, every other symbol becomes '0' |
| Scrambler.Hdb3ScrambledUnsubstituted | src/com/encoder/core/Scrambler.java:54-68 | without a four-zero run, hdb3 turns the '1's into '+' and '-' alternately, starting with '+', and everything else into '0' |
| Scrambler.Hdb3ByRunsFollow | src/com/encoder/core/Scrambler.java:61-91 | on every input, from any polarity and parity: each '1' becomes the polarity opposite to the last pulse in the output before it, where the V of a substitution is a pulse that sets the polarity |
| Scrambler.Hdb3ScrambledFollow | src/com/encoder/core/Scrambler.java:52-99 | on every input, runs or not, hdb3 turns each '1' into the polarity opposite to the last pulse it has emitted, or '+' if it has emitted none |
| Scrambler.Hdb3FromAppend | src/com/encoder/core/Scrambler.java:58-97 | scanning a concatenation is scanning the second part from the state the first leaves |
| Scrambler.Hdb3ShortTail | src/com/encoder/core/Scrambler.java:66-70 | a trailing run of fewer than four zeros, after a '1' or at the start, stays literal zeros |
| Scrambler.Hdb3ByRunsRun | src/com/encoder/core/Scrambler.java:70-94 | four leading zeros become the substitution, and the rest is read with the substitution's polarity and an even count |
| Scrambler.Hdb3ExampleEven | src/com/encoder/core/Scrambler.java:83-87 | "0000" gives "+00+" |
| Scrambler.Hdb3ExampleOdd | src/com/encoder/core/Scrambler.java:74-78 | "10000" gives "+000+" |
| Scrambler.Hdb3ExampleTwoOnes | src/com/encoder/core/Scrambler.java:61-87 | "110000" gives "+-+00+" |
| PalindromeFinder.PalRadiusShrink | src/com/encoder/core/PalindromeFinder.java:30-36 | every radius below a palindrome radius is one too |
| PalindromeFinder.MaxRadiusIsLargest | src/com/encoder/core/PalindromeFinder.java:27-36 | the radius the expansion stops at is the largest palindrome radius at that centre, so no seed exceeds it |
| PalindromeFinder.MirrorSeed | src/com/encoder/core/PalindromeFinder.java:24-27 | when R > i the mirror index 2C - i lies in [0, C), and min(R - i, P[mirror]) is a palindrome radius at i |
| PalindromeFinder.ExpandStep | src/com/encoder/core/PalindromeFinder.java:31-33 | matching symbols beyond both ends grow the radius by one |
| PalindromeFinder.OddRadiusGrows | src/com/encoder/core/PalindromeFinder.java:11-17 | a palindrome of t that ends on an input symbol always extends by the separators around it |
| PalindromeFinder.MaxRadiusParity | src/com/encoder/core/PalindromeFinder.java:57 | centre minus final radius is even, so the division by 2 is exact |
| PalindromeFinder.SubstringToRadius | src/com/encoder/core/PalindromeFinder.java:11-17 | a palindrome s[a..a+len] is a palindrome of t of radius len centred at 2a + len |
| PalindromeFinder.RadiusToSubstring | src/com/encoder/core/PalindromeFinder.java:56-58 | a palindrome of t starting on a separator maps back to a palindrome of s of the radius' length, inside s |
| PalindromeFinder.CenterCovers | src/com/encoder/core/PalindromeFinder.java:23-44 | a nonempty palindrome of s has an inner centre of t whose radius is at least its length |
| PalindromeFinder.Selection | src/com/encoder/core/PalindromeFinder.java:47-58 | the leftmost largest inner radius maps to an in-range start whose substring is the leftmost longest palindrome |
| PalindromeFinder.Interleave | src/com/encoder/core/PalindromeFinder.java:12-17 | t has length 2n + 1, '#' at even indices and s[k] at index 2k + 1 |
| PalindromeFinder.Expand | src/com/encoder/core/PalindromeFinder.java:29-36 | the expansion stops at the first mismatch or at an edge of t and changes no other radius |
| PalindromeFinder.Radii | src/com/encoder/core/PalindromeFinder.java:19-44 | across the centre loop C < i, R = C + P[C] and R < t.length; every radius left is the largest at its centre |
| PalindromeFinder.LeftmostMax | src/com/encoder/core/PalindromeFinder.java:46-54 | maxLen bounds every inner radius; centreIndex is 0 with maxLen 0, or the first inner centre holding maxLen, which is then positive (the comparison is strict) |
| PalindromeFinder.FirstRadiusPositive | src/com/encoder/core/PalindromeFinder.java:23-36 | for nonempty input the first inner centre has a positive radius |
| PalindromeFinder.FindLongestPalindrome | src/com/encoder/core/PalindromeFinder.java:8-59 | empty input gives ""; otherwise the result is the leftmost of the longest palindromic substrings |
| PalindromeFinder.LeftmostLongestUnique | src/com/encoder/core/PalindromeFinder.java:49-53 | the leftmost longest palindrome is unique, so the result is determined by its specification |
| PalindromeFinder.LongestIsNonempty | src/com/encoder/core/PalindromeFinder.java:5-9 | a nonempty input has a longest palindrome of length at least 1 |
| PalindromeFinder.ExampleLeftmostLongest | src/com/encoder/core/PalindromeFinder.java:47-58 | in "010011000000001" the leftmost longest palindrome starts at 5 and has length 10 |
| PalindromeFinder.FindLongestPalindromeExamples | src/com/encoder/core/PalindromeFinder.java:8-59 | any result meeting the specification is "0" for "0" and "1000000001" for "010011000000001" |
| Pipeline.ScrambledAmiLength | src/com/encoder/core/LineEncoder.java:102-127 | AMI gives one level per input symbol to both scramblers' output |
| Pipeline.B8zsThenAmi | src/com/encoder/core/Scrambler.java:8-22 | on bits without eight consecutive zeros, AMI of the B8ZS output equals AMI of the bits |
| Pipeline.Hdb3ThenAmi | src/com/encoder/core/Scrambler.java:54-65 | on bits without four consecutive zeros, AMI of the HDB3 output equals AMI of the bits |

## Left out

- The Swing front end, its input validation, dialogs and the plotted or 3D
  renderings of the levels are not part of this model. The front end's
  `[01]+` check is represented only by the `IsBinary` preconditions of the
  lemmas that need it.
- Levels are `int`s rather than `Double`s. No floating-point arithmetic is
  involved, because the source only multiplies ±1.0 by -1.0.
- The `default` branch of `encode` and the `null` checks are dropped.
  Dafny's `Scheme` datatype is closed and its strings are never null.
- FindLongestPalindrome: the source's single method is split into four
  methods: `Interleave`, `Radii` with its inner loop `Expand`, and
  `LeftmostMax`. Each keeps its loop and array updates.
- Expand: the source leaves the expansion loop by catching
  ArrayIndexOutOfBoundsException. The model uses the equivalent explicit
  bounds tests in the loop guard.
- FindLongestPalindrome: the contract does not state the linear running
  time.
- FindLongestPalindrome: Java's `int` overflow of `2 * s.length() + 1` for
  strings longer than about 2^30 symbols is not modelled.
- B8zs, Hdb3: Java's `StringBuilder` is modelled as a `string` that the
  loop reassigns. `setLength` is modelled as taking a prefix.
- Radii, LeftmostMax: both require an array of length at least 2. The
  source reaches that code only for nonempty input, where the array has
  length 2n + 1 >= 3.
- B8zs, Hdb3: no error for symbols other than `0` and `1`. The code has
  none; it reads every symbol other than `1` as a zero.
- A symbol is a Dafny `char`, a Unicode scalar value, while the Java code
  reads UTF-16 code units (`toCharArray`, `charAt`). A character outside
  the Basic Multilingual Plane is one symbol in the model and two in the
  program, so every per-symbol claim (one level per symbol, zero-run
  lengths, output lengths) holds for the program only on input inside the
  Basic Multilingual Plane. The front end's `[01]+` check means such input
  never reaches the encoder in practice.
