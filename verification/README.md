# Verified models of CUBRID 9.3.6 components

CUBRID is a relational database system. This project models eight of its self-contained algorithmic components in
Dafny and proves what they promise. Code that works in place is modelled in place: classes with fields, arrays, loops
with invariants. Each such method is tied by its contract to a specification, and the specification has laws of its own.
Three things the source keeps in memory are values here: the string of generated digits, the chain of chunks that the
Base64 decoder makes, and the text that the directory reader scans.

- **Printing floating-point numbers** (`dtoa.c`, `mprec.c`), from the two words of a double to its digits. Arithmetic on
  16-bit words, with the cached powers of five (`Bignum`, `BigOps`, `BigMult`); what the digits are to be, the shortest
  decimal within the margins or a decimal rounded half to even, and why the digit loops give it (`Decimal`, `Shortest`,
  `Dtoa`, `DigitLimit`, `Scaling`); these loops on the words (`BigDigits`, `BigGenerate`, `BigScale`); the significand
  and the powers of two, five and ten that it is scaled with (`DoubleBits`, `Preparation`, `ExponentRatios`, `Ratios`,
  `Decades`); what reading a decimal to the nearest floating-point number means (`Floats`, `ReadBack`); and the laws of
  the modes a caller can ask for, such as that the digits of mode 0 read back as the double, that no fewer digits do,
  and that no other digits as few are closer (`LeastNormal`, `SinglePrecision`, `Conversion`).
- **Command line scanning** (`getopt_long.c`): the in-place block exchange by cycles (`Rotation`, `PermuteArgs`), what a
  command line means (`OptionGrammar`), the same meaning in terms of the items that a user writes and the characters of
  the option string (`OptionItems`), and the scanner whose whole run sorts the words accordingly (`Getopt`).
- **Handles** (`api_handle.c`, `api_util.c`, `api_util.h`): circular lists (`DList`), a chained hash table
  (`HashTable`), a forest as a value (`ForestModel`, `ForestOps`, `ForestOrder`, `ForestTops`), the same forest on its
  links (`NodeLists`), the context that allocates, grafts, prunes and destroys handles (`HandleContext`, `HandleMap`),
  handle packing (`HandlePacking`), and the roots shared by many threads as a state machine over lock-delimited steps
  (`RootPool`, `Roots`).
- **Binary heap** (`binaryheap.c`): sifting, heap sort and the bounded top-k filter (`HeapOrder`, `SortedOrder`,
  `BinaryHeap`).
- **Base64** (`base64.c`): encoder and decoder as functions on text (`Base64Text`), what the text means as a stream of
  bits in letters of the alphabet (`Base64Bits`), and the loops over buffers (`Base64`), following section 6.8 of RFC
  2045 with a single LF as line break.
- **List indexer** (`api_value_indexer.c`): a linked list with a moving cursor that stands for a sequence
  (`ListIndexer`).
- **Area allocator** (`area_alloc.c`): blocks carved into slots and a free list kept in the memory of the free elements
  (`AreaLayout`, `AreaAlloc`).
- **Database directory** (`databases_file.c`): the host list builder (`HostNames`, `HostList`), the printer and parser
  of `databases.txt` (`DirectoryText`, `DirectoryFile`), and what both mean by splitting a text into rows and words
  (`Splitting`, `HostPieces`, `DirectoryRows`, `DirectoryColumns`).

`Arith` and `Common` hold shared helpers. `dafny verify dfyconfig.toml` checks the whole project.

Where the code and its comments disagree the model follows the code:

- The comment in `dtoa.c` says modes 4 to 9 give the same results as modes 2 and 3. In modes 4 and 5 (8 and 9) the loop
  stops earlier if a decimal of at most n digits lies within the margins, and the margins are the number divided by twice
  its odd significand and a power of ten. `DigitLimit.LimitedModesRound` proves for every odd significand that all digit
  limits and exponents round correctly exactly if it is at least 10. Below, `DigitLimit.SmallSignificandFails` gives a
  number for each: 0.0625 in mode 8 with two digits is printed as 6e-2, where mode 2 gives 6.2e-2. For a single number
  `DigitLimit.RoundsExactly` says exactly when: no decimal shorter than the correctly rounded one is within the margins.
- The comments of the directory writer say that only the first host is written; the code writes all of them.

Some promises fail on inputs that the code does not turn away. The model keeps the code and proves when they hold:

- Modes 5 and 9 do not come to an end for a number below 1 if the limit is at or above its first digit: the power of five
  to multiply with is then negative (`dtoa.c` line 669, `mprec.c` lines 464 and 481). `Conversion.Print` proves exactly
  when, `BigMult.NegativeNeverZero` why, and `Conversion.Half` has 0.5 with no digit after the point.
- In single precision a decimal halfway between two floats is accepted whenever the double is even, which the float may
  not be. `SinglePrecision.HalfwayIsMisread` gives a float whose digits read back as its neighbour; in mode 0
  `SinglePrecision.SingleOutcome` proves that the digits of an odd float read back exactly if they do not lie halfway.
- A line of the directory that is not shorter than the line buffer is printed beyond it: `DirectoryFile.WriteDirectory`
  proves exactly when.
- Any thread can unlock a root, whichever thread has locked it. `Roots.LockKept` proves that a thread keeps its lock
  exactly if no thread unlocks the root, and `Roots.LockUndone` gives a run where the root is released in between.
- Looking up or destroying a handle that is not live goes on with a node that was not found (`api_handle.c` lines 387
  to 390 and 411 to 414: the table answers that all is well, `api_util.c` lines 266 and 267).
  `HandleContext.Context.Lookup` finds a node exactly for live handles, and `Find` and `DestroyHandle` require one.
- A root that has issued 2^48 handles issues the same ones again. `Roots.RunDistinct` proves that the handles issued in
  a run are distinct exactly while no root has counted beyond.
- A host list that is not empty but holds no name makes the builder step before its buffer (`databases_file.c` lines 1575
  to 1579). `HostList.CreateHostList` proves exactly when; `DirectoryText.LoneSeparator` gives a line that does it.
- Grafting a node below itself makes a cycle: `ForestOps.AttachInsideIsCyclic`.
- The length computed for the encoding of no bytes is -1, and the terminator goes there: `Base64.Encode`.
- An area that could not get its next block carves the next element behind the end of the last one:
  `AreaAlloc.Area.Alloc` proves exactly when.
- Zero with no words compares below zero with one word: `Bignum.Cmp`. The digit loops meet it, and `BigDigits.Choose`
  proves that the digit chosen then is as good.

## Model

| member | source | states |
|---|---|---|
| `Bignum.Cmp` | 9.3.6+log_reader/src/base/mprec.c:553-581 | the sign of the result is the order of the two numbers the words denote, except that zero of no words counts as less than zero of one |
| `Bignum.CarryAndBorrowCancel` | 9.3.6+log_reader/src/base/dtoa.c:80-89 | if q times the divisor does not exceed b, carry and borrow cancel after the last word and the words are exactly b - q*S |
| `Bignum.SubtractMultiple` | 9.3.6+log_reader/src/base/dtoa.c:64-89 | the in-place multiply-and-subtract loop leaves b - q*S in the words it covers and touches no other |
| `Bignum.EstimateShortByAtMostOne` | 9.3.6+log_reader/src/base/dtoa.c:53-61 | for b < 10*S and a top word of S of at least 10, the estimate from the top words is at most the quotient and short of it by at most one |
| `Bignum.Trim` | 9.3.6+log_reader/src/base/dtoa.c:90-96 | dropping leading zero words leaves the value and a normalised number |
| `Bignum.SubtractAndTrim` | 9.3.6+log_reader/src/base/dtoa.c:62-97 | subtracting q*S and trimming leaves a normalised number of value b - q*S |
| `Bignum.Correct` | 9.3.6+log_reader/src/base/dtoa.c:98-137 | the correction subtracts S at most once and leaves a remainder below S |
| `Bignum.Quorem` | 9.3.6+log_reader/src/base/dtoa.c:46-138 | for every word count the result is the quotient, between 0 and 9, and b becomes the remainder: old b = q*S + b, 0 <= b < S |
| `Decimal.RoundsToUnique` | 9.3.6+log_reader/src/base/dtoa.c:847-867 | rounding to nearest with ties to even determines its result, so the contracts that use it fix the digits |
| `Decimal.AcceptsSameNumber` | 9.3.6+log_reader/src/base/dtoa.c:777-836 | lying within the margins depends on the decimal number only, not on how it is written |
| `Shortest.NoneOnGrid` | 9.3.6+log_reader/src/base/dtoa.c:783-825 | while neither stopping test holds at a position, no multiple of that power of ten lies within the margins |
| `Shortest.UndecidedMeansNoneShorter` | 9.3.6+log_reader/src/base/dtoa.c:777-836 | if the loop goes on after e + 1 digits, no positive decimal of e + 1 or fewer significant digits lies within the margins, at any exponent |
| `Dtoa.RoundOff` | 9.3.6+log_reader/src/base/dtoa.c:853-862 | a carry into the last digit adds one unit to the number, including through any run of nines and past the first digit |
| `Dtoa.StripZeros` | 9.3.6+log_reader/src/base/dtoa.c:863-867 | dropping trailing zeros leaves the number |
| `Dtoa.NineOnlyAtFirst` | 9.3.6+log_reader/src/base/dtoa.c:814-821 | a nine is rounded up at the first position only |
| `Dtoa.Emit` | 9.3.6+log_reader/src/base/dtoa.c:788-825 | the digits emitted at the stop denote the chosen candidate, with a non-zero last digit |
| `Dtoa.JustifiedIsAccepted` | 9.3.6+log_reader/src/base/dtoa.c:783-824 | a candidate that the stopping tests justify lies within the margins |
| `Dtoa.JustifiedIsNearer` | 9.3.6+log_reader/src/base/dtoa.c:783-824 | and is the nearer of two that do, the even one in a tie; if both candidates lie within the margins, at most half a unit away |
| `Dtoa.ScanningContinues` | 9.3.6+log_reader/src/base/dtoa.c:825-836 | going on after a digit keeps: the digits so far are the leading ones, the remainder and margins are scaled with them, and nothing so short lies within the margins |
| `Dtoa.StopWithin` | 9.3.6+log_reader/src/base/dtoa.c:783-824 | a stop before the digit limit yields the shortest decimal within the margins, of no more digits than the limit |
| `Dtoa.NarrowMargins` | 9.3.6+log_reader/src/base/dtoa.c:228-233 | with margins of at most half a unit of the n-th digit, a shortest decimal of at most n digits is the correctly rounded one |
| `DigitLimit.RoundsExactly` | 9.3.6+log_reader/src/base/dtoa.c:228-233 | with a digit limit, the shortest decimal within the margins is the correctly rounded one if and only if nothing shorter than that one is within the margins |
| `DigitLimit.OneDigitRounds` | 9.3.6+log_reader/src/base/dtoa.c:228-233 | to one digit it always is |
| `DigitLimit.MarginsOfSignificand` | 9.3.6+log_reader/src/base/dtoa.c:630-648 | the margins the code computes, the number over twice its significand f and 10^(n-1), are at most half a unit of the n-th digit exactly for numbers up to f |
| `DigitLimit.SmallNumberRounds` | 9.3.6+log_reader/src/base/dtoa.c:630-648 | so a number of at most f times 10^k is rounded correctly to any number of digits |
| `DigitLimit.SmallSignificandFails` | 9.3.6+log_reader/src/base/dtoa.c:228-233 | for each of the significands 1, 3, 5, 7 and 9 a power of two, and two digits, where the result is not the correctly rounded one |
| `DigitLimit.LimitedModesRound` | 9.3.6+log_reader/src/base/dtoa.c:228-233 | for every odd significand, all numbers with it are rounded correctly to every number of digits if and only if it is at least 10 |
| `BigMult.MultiplyInto` | 9.3.6+log_reader/src/base/mprec.c:426-446 | the nested loops over the words leave the product of the two numbers |
| `BigMult.Mult` | 9.3.6+log_reader/src/base/mprec.c:360-451 | the product of two numbers of any lengths, trimmed, in a new array |
| `BigMult.FromInt` | 9.3.6+log_reader/src/base/mprec.c:349-358 | a number of one word |
| `BigMult.Powers.Get` | 9.3.6+log_reader/src/base/mprec.c:467-488 | the i-th entry of the list is 5^(4 * 2^i), made by squaring the one before when first asked for; entries made before stay |
| `BigMult.Pow5Mult` | 9.3.6+log_reader/src/base/mprec.c:453-491 | for every exponent, the number times that power of five |
| `BigMult.NegativeNeverZero` | 9.3.6+log_reader/src/base/mprec.c:481-482 | a negative exponent halved any number of times is not zero, so the loop over its bits does not end |
| `DoubleBits.Lo0Bits` | 9.3.6+log_reader/src/base/mprec.c:299-347 | the number of trailing zero bits of a word and the word without them |
| `DoubleBits.D2b` | 9.3.6+log_reader/src/base/mprec.c:791-938 | the significand of a positive double, normal or denormal, without its trailing zero bits, with its exponent and number of bits |
| `Preparation.Compute` | 9.3.6+log_reader/src/base/dtoa.c:612-657 | the exponents of two and five of numerator, denominator and margin are in the ratio of the number to 10^k, and the margin is the right share of the numerator, for every mode and also after common powers of two are cancelled |
| `Preparation.Prepare` | 9.3.6+log_reader/src/base/dtoa.c:658-677 | numerator, denominator and margin are the significand, one and one times their powers of five, in numbers of their own |
| `ExponentRatios.UpperSame` | 9.3.6+log_reader/src/base/dtoa.c:385-407 | the scaled numbers are in the ratio of the double to 10^k |
| `ExponentRatios.UnitShare` | 9.3.6+log_reader/src/base/dtoa.c:618-648 | in modes 0 and 1 the margin is half the unit of the last bit of the double, also of a denormal one |
| `ExponentRatios.LimitShare` | 9.3.6+log_reader/src/base/dtoa.c:630-648 | in modes 4 and 5 with a limit of n digits it is one part in twice the significand and 10^(n-1) |
| `Floats.NearestExactly` | 9.3.6+log_reader/src/base/dtoa.c:215-217 | among all floats of a format, denormals included, x is the nearest to a positive rational if and only if the rational lies within half the gaps beside x, their ends counting exactly if ties are to count and x is even |
| `ReadBack.ReadsExactly` | 9.3.6+log_reader/src/base/dtoa.c:215-220 | a decimal within the margins is read as x; with margins of half the true gaps, closed exactly if ties count for x, only then |
| `ReadBack.ShortestReadsBack` | 9.3.6+log_reader/src/base/dtoa.c:215-220 | the shortest decimal within the margins is read as x, and with such margins no decimal of fewer digits is |
| `ReadBack.ShortestIsClosest` | 9.3.6+log_reader/src/base/dtoa.c:783-824 | and among all decimals with its last place that are read as x, none is closer to x |
| `ReadBack.OddReadsExactly` | 9.3.6+log_reader/src/base/dtoa.c:761-763 | a decimal within closed margins of an odd x is read as x exactly if it does not lie halfway to a neighbour |
| `Ratios.EstimatedShortest` | 9.3.6+log_reader/src/base/dtoa.c:731-836 | the digits of modes 0 and 1 are the shortest decimal within the margins of the double itself, whether or not the exponent estimate was one too high |
| `Ratios.RoundedAtPlace` | 9.3.6+log_reader/src/base/dtoa.c:838-867 | rounding numbers in the ratio of x to 10^k to n digits rounds x at the place of the n-th |
| `Ratios.EstimatedLimited` | 9.3.6+log_reader/src/base/dtoa.c:228-233 | in modes 4 and 5, with a significand of at least 10, x is rounded at the place asked for, whether or not the estimate was one too high |
| `Ratios.LimitedAt` | 9.3.6+log_reader/src/base/dtoa.c:777-836 | with any significand the result is the shortest decimal within the margins of the limit if any has so few digits, and else rounded |
| `LeastNormal.NoneReadsLeast` | 9.3.6+log_reader/src/base/dtoa.c:679-696 | no decimal of 16 digits, at whatever exponent, is read as the least normal double |
| `LeastNormal.LeastIsShortest` | 9.3.6+log_reader/src/base/dtoa.c:679-696 | the least normal double, whose lower margin the code halves although both gaps beside it are equal, is still printed with the fewest digits |
| `LeastNormal.LeastIsClosest` | 9.3.6+log_reader/src/base/dtoa.c:679-696 | and no decimal with the same last place is closer to it |
| `SinglePrecision.SingleOutcome` | 9.3.6+log_reader/src/base/dtoa.c:761-763 | the digits of a normal float printed in single precision read back as it if even; if odd, exactly if they do not lie halfway; in mode 1 always, and without lying halfway |
| `SinglePrecision.HalfwayIsMisread` | 9.3.6+log_reader/src/base/dtoa.c:761-763 | a float whose digits in mode 0 are read as its neighbour |
| `Conversion.ShortestOutcome` | 9.3.6+log_reader/src/base/dtoa.c:215-220 | in mode 0 the digits of every double read back as it, no fewer digits do, and no others as few are closer; in mode 1 the same of reading without ties, so they never lie halfway between two doubles |
| `Conversion.RoundedOutcome` | 9.3.6+log_reader/src/base/dtoa.c:221-227 | in modes 2 and 3 the digits are the double rounded at the place asked for, nearest, ties to even |
| `Conversion.LimitedOutcome` | 9.3.6+log_reader/src/base/dtoa.c:228-233 | in modes 4 and 5 the same with a significand of at least 10, and else the shortest decimal within the margins of the limit or rounded |
| `Conversion.NoneOutcome` | 9.3.6+log_reader/src/base/dtoa.c:742-750 | with the limit above the first digit no digits are the correctly rounded result |
| `Decades.HasDecade` | 9.3.6+log_reader/src/base/dtoa.c:385-407 | every positive double lies between a power of ten and the next, so an estimate of its exponent can be right |
| `Decades.OneDecade` | 9.3.6+log_reader/src/base/dtoa.c:385-407 | in one such decade only |
| `Conversion.CloseExactly` | 9.3.6+log_reader/src/base/dtoa.c:385-407 | the estimates admitted are the exponent of the double and, where the code checks it, one more |
| `Conversion.ExponentInDecade` | 9.3.6+log_reader/src/base/dtoa.c:731-741 | the exponent is that of the decade the double lies in, whether or not the estimate was one too high |
| `Conversion.Print` | 9.3.6+log_reader/src/base/dtoa.c:408-881 | from the two words of a positive finite double and an estimate of its exponent, for every mode and number of digits the caller asks for: mode 0 and any mode below 0 or above 9 print the fewest digits that read back, and none as few are closer; mode 1 the same of reading without ties; 2 and 6 round to max(1, ndigits) significant digits, 3 and 7 at the place ndigits, to nearest, ties to even; 4, 5, 8 and 9 the same for significands of at least 10, and else give the shortest decimal within the limit or round; no digits only in modes 3, 5, 7 and 9; no end exactly in modes 5 and 9 with the limit at or above the first digit of a number below 1 |
| `Conversion.Half` | 9.3.6+log_reader/src/base/dtoa.c:658-674 | printing 0.5 comes to an end for every mode and number of digits except in modes 5 and 9 with no digit after the point, and in mode 0 it is read back |
| `BigOps.MultAdd` | 9.3.6+log_reader/src/base/mprec.c:182-223 | the in-place loop multiplies the number the words denote by a word and adds another, growing it when there is a carry; an addend to a number of no words is lost |
| `BigOps.Diff` | 9.3.6+log_reader/src/base/mprec.c:583-665 | the difference of two numbers of any lengths, trimmed, and its sign |
| `BigOps.LShift` | 9.3.6+log_reader/src/base/mprec.c:492-550 | the number times a power of two, for shifts by whole words and bits, in an array grown by doubling; a positive number stays normalised |
| `BigOps.ShiftWord` | 9.3.6+log_reader/src/base/mprec.c:529-539 | shifting a word and filling in the bits from below is multiplying and adding a carry |
| `BigDigits.FitsWords` | 9.3.6+log_reader/src/base/dtoa.c:698-730 | with four leading zero bits in the divisor, ten times a remainder has no more words than the divisor |
| `BigDigits.Digits` | 9.3.6+log_reader/src/base/dtoa.c:838-845 | the loop of divisions and multiplications by ten yields the leading ilim digits and leaves the remainder |
| `BigDigits.RoundLast` | 9.3.6+log_reader/src/base/dtoa.c:847-867 | digits and a remainder become the number rounded to that many digits, nearest, ties to even |
| `BigDigits.FixedMode` | 9.3.6+log_reader/src/base/dtoa.c:838-867 | on multiple-precision integers of any size, fixed mode gives the quotient rounded to ilim digits, nearest, ties to even |
| `BigDigits.Choose` | 9.3.6+log_reader/src/base/dtoa.c:783-824 | the stopping tests on words go on exactly while neither candidate is within the margins, and otherwise choose a candidate that is, the nearer one if both are |
| `BigDigits.GrowMargins` | 9.3.6+log_reader/src/base/dtoa.c:829-835 | both margins are multiplied by ten, once when they are the same number |
| `BigDigits.ShortestMode` | 9.3.6+log_reader/src/base/dtoa.c:777-836 | on multiple-precision integers of any size the loop terminates; its digits denote a decimal within the margins (end points only if closed), the nearer of two candidates, and nothing shorter lies within the margins; exactly when there is none within a digit limit, the number rounded to it |
| `BigGenerate.FixEstimate` | 9.3.6+log_reader/src/base/dtoa.c:731-741 | an exponent estimate one too high is corrected, with numerator and margin times ten |
| `BigGenerate.NoDigits` | 9.3.6+log_reader/src/base/dtoa.c:742-757 | with no digit asked for, the result is the number rounded at or above its first digit |
| `BigGenerate.Generate` | 9.3.6+log_reader/src/base/dtoa.c:731-881 | from the scaled words on: modes 0 and 1 give the shortest decimal within the margins, the end points counting only in mode 0 with an even significand; modes 2 and 3 round correctly, also at or above the first digit; modes 4 and 5 give the shortest decimal if one within the margins has so few digits, and else round |
| `BigScale.Hi0Bits` | 9.3.6+log_reader/src/base/mprec.c:265-297 | the number of leading zero bits of a 32-bit word, for every word |
| `BigScale.ShiftFor` | 9.3.6+log_reader/src/base/dtoa.c:703-727 | the further shift makes the bit length twelve more than whole words |
| `BigScale.NormalisedByShift` | 9.3.6+log_reader/src/base/dtoa.c:695-730 | a number of any length shifted so has exactly four leading zero bits in its top word |
| `Scaling.PromisedScales` | 9.3.6+log_reader/src/base/dtoa.c:715-730 | numerator, denominator and margins times a common factor promise the same digits and nothing else |
| `Scaling.SameRatios` | 9.3.6+log_reader/src/base/dtoa.c:651-657 | what is promised depends only on the ratios of numerator and margin to the denominator |
| `BigScale.Digits` | 9.3.6+log_reader/src/base/dtoa.c:679-881 | from the words and their powers of two on, the digits are what each mode promises of the quotient itself: neither the common shift for the division step nor a wrong estimate shows in them; with single precision the margins are 2^29 times as wide |
| `Rotation.GcdIsGreatest` | 9.3.6+log_reader/src/base/getopt_long.c:112-128 | the divisor Euclid's loop finds is the greatest common one |
| `Rotation.Bezout` | 9.3.6+log_reader/src/base/getopt_long.c:112-128 | it is an integer combination of the two lengths |
| `Rotation.OrbitCloses` | 9.3.6+log_reader/src/base/getopt_long.c:145-169 | moving by the block lengths returns to the start after exactly (A + B) / gcd steps |
| `Rotation.OrbitDistinct` | 9.3.6+log_reader/src/base/getopt_long.c:145-169 | and not before |
| `Rotation.OrbitCovers` | 9.3.6+log_reader/src/base/getopt_long.c:145-169 | the gcd-many orbits cover every position |
| `PermuteArgs.ComputeGcd` | 9.3.6+log_reader/src/base/getopt_long.c:112-128 | the loop computes the greatest common divisor |
| `PermuteArgs.MoveCycle` | 9.3.6+log_reader/src/base/getopt_long.c:155-168 | one cycle of swaps moves every word of its orbit to its place and no other |
| `PermuteArgs.Permute` | 9.3.6+log_reader/src/base/getopt_long.c:135-170 | for all block lengths of at least one, A ++ B becomes B ++ A in place, each block in order and everything outside unchanged |
| `OptionGrammar.InterleavesCounts` | 9.3.6+log_reader/src/base/getopt_long.c:196-265 | words that interleave two sequences are a permutation of both |
| `OptionGrammar.ParseSplits` | 9.3.6+log_reader/src/base/getopt_long.c:196-330 | for every command line, the option words with their arguments, the skipped words and the unscanned rest split the line, each in original order |
| `OptionGrammar.KeepsOrder` | 9.3.6+log_reader/src/base/getopt_long.c:225-244 | with an option string that starts with a plus or a minus, or the standard order from the environment, no word is skipped: the consumed words and the rest are the line |
| `OptionItems.KindExactly` | 9.3.6+log_reader/src/base/getopt_long.c:266-327 | what a letter takes, by the characters behind its first place in the option string: one colon an argument, two an argument that may be missing, W and a semicolon a long option; a colon and a letter not in the string are unknown |
| `OptionItems.OptionsExactly` | 9.3.6+log_reader/src/base/getopt_long.c:178-204 | the letters are the option string without its order sign, and words end the scan, are answered in place or are skipped as a plus, a minus or the environment say |
| `OptionItems.WrittenIsRead` | 9.3.6+log_reader/src/base/getopt_long.c:178-330 | a command line written as a sequence of items, each a cluster of letters with or without argument or a word, and an ending, is read as their meaning in order |
| `OptionItems.EveryLine` | 9.3.6+log_reader/src/base/getopt_long.c:178-330 | every command line is written so |
| `OptionItems.ParseExactly` | 9.3.6+log_reader/src/base/getopt_long.c:178-330 | for every option string, environment and line, a parse is that of the scanner if and only if it is the meaning of a way to write the line |
| `Getopt.Scanner.constructor` | 9.3.6+log_reader/src/base/getopt_long.c:78-82 | for every option string and environment a scan starts at the first argument with no skipped words |
| `Getopt.Scanner.Regroup` | 9.3.6+log_reader/src/base/getopt_long.c:245-253 | exchanging the skipped words with the options after them leaves what the command line means |
| `Getopt.Scanner.SkipWord` | 9.3.6+log_reader/src/base/getopt_long.c:245-256 | skipping a word that is no option leaves what the command line means |
| `Getopt.Scanner.MeetWord` | 9.3.6+log_reader/src/base/getopt_long.c:225-257 | a word that is no option is skipped, answered in its place, or ends the scan, as option string and environment ask |
| `Getopt.Scanner.FinishVector` | 9.3.6+log_reader/src/base/getopt_long.c:205-224 | at the end of the vector the words stand arranged, with optind at the first non-option |
| `Getopt.Scanner.EnterWord` | 9.3.6+log_reader/src/base/getopt_long.c:258-265 | entering an option word, or finding a lone pair of dashes, leaves what the command line means |
| `Getopt.Scanner.ReadPlain` | 9.3.6+log_reader/src/base/getopt_long.c:266-304 | a letter without an argument answers the next event |
| `Getopt.Scanner.ReadLong` | 9.3.6+log_reader/src/base/getopt_long.c:277-299 | a W; option answers a missing argument or ends the scan with its word consumed |
| `Getopt.Scanner.TakeNextWord` | 9.3.6+log_reader/src/base/getopt_long.c:311-327 | the argument of the last letter of a word is the next word; a missing one is answered as such |
| `Getopt.Scanner.ReadWithArgument` | 9.3.6+log_reader/src/base/getopt_long.c:300-330 | the argument is the rest of the word or the next word; a missing one is answered as such |
| `Getopt.Scanner.Internal` | 9.3.6+log_reader/src/base/getopt_long.c:178-330 | one call answers the next event of the parse of the whole line, or leaves the words arranged |
| `Getopt.Scanner.Next` | 9.3.6+log_reader/src/base/getopt_long.c:339-365 | so does the public entry point, which moves skipped words behind a pair of dashes; optarg is the argument or word answered, and else none |
| `Getopt.Scanner.Run` | 9.3.6+log_reader/src/base/getopt_long.c:339-365 | called until it returns -1, the scanner answers exactly the events of the items that the line is written with, and leaves argv as program name, options with arguments and dashes in order, skipped words in order, unscanned words, with optind at the first non-option; argv stays as it was unless words are to be moved |
| `Getopt.Scan` | 9.3.6+log_reader/src/base/getopt_long.c:339-365 | so for every command line with a program name, option string and environment, from a new scanner to the last answer; a string that starts with a plus or a minus, or the environment, leaves argv as it was |
| `Getopt.Rescan` | 9.3.6+log_reader/src/base/getopt_long.c:190-204 | and for a scanner in any state after a reset |
| `DList.Delete` | 9.3.6+log_reader/src/api/api_util.h:51-57 | unlinking a member leaves the ring of the others and the member alone; a link alone stays alone |
| `DList.InsertAfter` | 9.3.6+log_reader/src/api/api_util.h:69-77 | the ring gains a member right after another, or in front |
| `DList.InsertBefore` | 9.3.6+log_reader/src/api/api_util.h:59-67 | the ring gains a member right before another, or at the end |
| `HashTable.Table.constructor` | 9.3.6+log_reader/src/api/api_util.c:166-192 | a new table holds nothing for any key |
| `HashTable.Table.Lookup` | 9.3.6+log_reader/src/api/api_util.c:234-269 | finds the element of a key entered last, or nothing exactly when there is none |
| `HashTable.Table.Insert` | 9.3.6+log_reader/src/api/api_util.c:276-312 | puts the element in front of those with its key and leaves all other keys |
| `HashTable.Table.Delete` | 9.3.6+log_reader/src/api/api_util.c:319-356 | takes out the element of a key entered last and leaves all else, including the other keys of its bucket |
| `ForestModel.Nested` | 9.3.6+log_reader/src/api/api_handle.c:496-516 | two subtrees of a well-formed forest that meet are nested |
| `ForestModel.SubtreeFrame` | 9.3.6+log_reader/src/api/api_handle.c:344-369 | a subtree and its post order depend only on the child lists in it |
| `ForestModel.PostOrderNodes` | 9.3.6+log_reader/src/api/api_handle.c:344-369 | post order lists exactly the nodes of the subtree |
| `ForestModel.PostOrderOnce` | 9.3.6+log_reader/src/api/api_handle.c:344-369 | and none of them twice |
| `ForestModel.PostOrderChildrenFirst` | 9.3.6+log_reader/src/api/api_handle.c:344-369 | and every node after all its descendants |
| `ForestOrder.SubtreeClosed` | 9.3.6+log_reader/src/api/api_handle.c:344-369 | a subtree holds its node and the children of its nodes |
| `ForestOrder.SubtreeLeast` | 9.3.6+log_reader/src/api/api_handle.c:344-369 | and lies in every set that does |
| `ForestOrder.SiblingsInOrder` | 9.3.6+log_reader/src/api/api_handle.c:350-356 | in post order everything below a child comes before everything below a later one |
| `ForestOps.AddKeeps` | 9.3.6+log_reader/src/api/api_handle.c:60-68 | a new node on no list keeps the forest well-formed |
| `ForestOps.UnlinkKeeps` | 9.3.6+log_reader/src/api/api_handle.c:70-74 | so does taking a node off its list |
| `ForestOps.UnlinkSubtree` | 9.3.6+log_reader/src/api/api_handle.c:70-74 | which leaves its subtree as it is |
| `ForestOps.RegisterKeeps` | 9.3.6+log_reader/src/api/api_handle.c:76-80 | so does putting a node in front of the roots |
| `ForestOps.AttachKeeps` | 9.3.6+log_reader/src/api/api_handle.c:512-514 | so does appending it to the children of a node outside its subtree |
| `ForestOps.AttachInsideIsCyclic` | 9.3.6+log_reader/src/api/api_handle.c:512-514 | and only then: inside its own subtree it makes a cycle, so no assignment of heights is descending |
| `ForestOps.ClearedNext` | 9.3.6+log_reader/src/api/api_handle.c:350-356 | destroying the next child extends the children gone and the order of their destructors |
| `ForestOps.ClearedAll` | 9.3.6+log_reader/src/api/api_handle.c:358-368 | with all children gone, unlinking and freeing the node removes exactly its subtree, and the order is post order |
| `ForestTops.TopOf` | 9.3.6+log_reader/src/api/api_handle.c:306-516 | every node lies below a root or a node that is on no list |
| `ForestTops.TopsApart` | 9.3.6+log_reader/src/api/api_handle.c:306-516 | subtrees of different roots do not meet |
| `ForestTops.DestroyOrder` | 9.3.6+log_reader/src/api/api_handle.c:628-651 | the order in which the roots are destroyed lists every node once, children before parents |
| `ForestTops.SweptNext` | 9.3.6+log_reader/src/api/api_handle.c:638-646 | destroying the first root extends the roots gone and leaves the rest of the forest |
| `ForestTops.SweptAll` | 9.3.6+log_reader/src/api/api_handle.c:638-646 | once the roots are gone no node is left |
| `NodeLists.Lists.constructor` | 9.3.6+log_reader/src/api/api_handle.c:1029-1029 | an empty list of roots stands for the empty forest |
| `NodeLists.Lists.ListsApart` | 9.3.6+log_reader/src/api/api_handle.c:50-58 | different lists share no link: each node is on one list only |
| `NodeLists.Lists.AddNode` | 9.3.6+log_reader/src/api/api_handle.c:60-68 | the links stand for the forest with one more node on no list |
| `NodeLists.Lists.UnlinkNode` | 9.3.6+log_reader/src/api/api_handle.c:70-74 | the links stand for the forest with the node off its list, and its parent is cleared; also for a node on no list |
| `NodeLists.Lists.RegisterNode` | 9.3.6+log_reader/src/api/api_handle.c:76-80 | the links stand for the forest with the node in front of the roots |
| `NodeLists.Lists.AttachNode` | 9.3.6+log_reader/src/api/api_handle.c:512-514 | the links stand for the forest with the node at the end of the children of its parent |
| `NodeLists.Lists.DropNode` | 9.3.6+log_reader/src/api/api_handle.c:365-366 | the links stand for the forest without the freed node |
| `NodeLists.Lists.First` | 9.3.6+log_reader/src/api/api_handle.c:535-546 | finds the first node of a list, or none exactly when it is empty |
| `NodeLists.Lists.Following` | 9.3.6+log_reader/src/api/api_handle.c:592-594 | the next step along a list finds the node after one, or none exactly at its end |
| `HandleContext.Create` | 9.3.6+log_reader/src/api/api_handle.c:983-1033 | a new context has an empty forest and table |
| `HandleContext.Context.Lookup` | 9.3.6+log_reader/src/api/api_handle.c:738-745 | yields a node with the handle exactly when the handle is live |
| `HandleContext.Context.Find` | 9.3.6+log_reader/src/api/api_handle.c:400-416 | finds the node with a live handle |
| `HandleContext.DestroyedNotLive` | 9.3.6+log_reader/src/api/api_handle.c:344-391 | after a subtree is removed, a handle is live exactly if it was and belongs to none of its nodes |
| `HandleContext.Context.Alloc` | 9.3.6+log_reader/src/api/api_handle.c:306-336 | the next handle, not issued before exactly while the count is below 2^48, with a new node as first root that the table finds; everything else is unchanged |
| `HandleContext.NewNotLive` | 9.3.6+log_reader/src/api/api_handle.c:196-206 | in a context whose root has not counted to 2^48 the next handle is not live |
| `HandleContext.Context.Forget` | 9.3.6+log_reader/src/api/api_handle.c:358-360 | deleting a live node's handle from the table yields that node, and the table finds the others |
| `HandleContext.Context.Prune` | 9.3.6+log_reader/src/api/api_handle.c:472-487 | the node becomes the first root with its subtree; links and table agree with the forest |
| `HandleContext.Context.Graft` | 9.3.6+log_reader/src/api/api_handle.c:496-516 | the node becomes the last child of a node outside its subtree; links and table agree with the forest |
| `HandleContext.Context.DestroyWorker` | 9.3.6+log_reader/src/api/api_handle.c:344-369 | removes exactly the subtree of a node from forest and table, calls its destructors once each in post order, and leaves the rest |
| `HandleContext.Context.DestroyHandle` | 9.3.6+log_reader/src/api/api_handle.c:377-391 | does so for the node with a live handle, which is then not live |
| `HandleContext.Context.Destroy` | 9.3.6+log_reader/src/api/api_handle.c:628-651 | destroying the context terminates with no node left, all destructors having been called in the order of the roots |
| `HandleMap.UntilAppend` | 9.3.6+log_reader/src/api/api_handle.c:586-602 | going on with a second part happens exactly when the first had no error |
| `HandleMap.UntilCalls` | 9.3.6+log_reader/src/api/api_handle.c:586-602 | the calls are a prefix of the nodes, all but the last answered zero, and the result is the answer to the last; it is not zero exactly if the calls stop there |
| `HandleMap.MapWorker` | 9.3.6+log_reader/src/api/api_handle.c:586-602 | the function is called on the subtree in post order until it fails; the result is its answer to the last node visited |
| `HandlePacking.GetMake` | 9.3.6+log_reader/src/api/api_handle.c:116-137 | packing keeps 16 bits of the root and 48 bits of the count, and unpacking finds them |
| `HandlePacking.MakeParts` | 9.3.6+log_reader/src/api/api_handle.c:116-137 | divided by 2^48 a handle is the root in 16 bits, and the remainder is the count in 48 |
| `HandlePacking.MakeGet` | 9.3.6+log_reader/src/api/api_handle.c:116-137 | packing what was unpacked from a 64-bit word gives it back |
| `HandlePacking.MakeEqual` | 9.3.6+log_reader/src/api/api_handle.c:126-131 | handles are equal exactly when roots agree in 16 bits and counts in 48 bits |
| `HandlePacking.CountsRepeat` | 9.3.6+log_reader/src/api/api_handle.c:196-206 | a root that counts past 48 bits issues its handles again |
| `HandlePacking.NextIsNew` | 9.3.6+log_reader/src/api/api_handle.c:196-206 | the next handle of a root differs from all it issued if and only if it has counted less than 2^48 |
| `HandlePacking.Provider.Next` | 9.3.6+log_reader/src/api/api_handle.c:196-206 | the next handle has the root in its upper 16 bits and the count plus one, in 48 bits, below; it is new exactly while the count is below 2^48 |
| `RootPool.TakeFreeKeeps` | 9.3.6+log_reader/src/api/api_handle.c:850-856 | taking a root from the free list keeps every root free once, taken by one thread, or in use |
| `RootPool.TakeNewKeeps` | 9.3.6+log_reader/src/api/api_handle.c:270-281 | so does allocating one |
| `RootPool.GiveBackKeeps` | 9.3.6+log_reader/src/api/api_handle.c:866-874 | so does giving a root back when its context could not be made |
| `RootPool.InstallKeeps` | 9.3.6+log_reader/src/api/api_handle.c:875-880 | so does installing the interface |
| `RootPool.ReleaseKeeps` | 9.3.6+log_reader/src/api/api_handle.c:897-910 | so does releasing a root in use |
| `Roots.DoKeepsSafe` | 9.3.6+log_reader/src/api/api_handle.c:833-972 | every lock-delimited step of any thread keeps each root free once, taken by one thread, or in use, and a locked root in use |
| `Roots.RunSafe` | 9.3.6+log_reader/src/api/api_handle.c:833-972 | so this holds in every state of every interleaving |
| `Roots.DoKeepsDistinct` | 9.3.6+log_reader/src/api/api_handle.c:196-206 | every step keeps: the handles issued are distinct exactly if no root has counted beyond 2^48 |
| `Roots.RunDistinct` | 9.3.6+log_reader/src/api/api_handle.c:196-206 | in every state of every interleaving of acquire, release and re-acquire, no handle was issued twice if and only if no root has counted beyond 2^48 |
| `Roots.TakeFails` | 9.3.6+log_reader/src/api/api_handle.c:833-880 | in every state of every run, acquiring a root fails if and only if all of 1024 roots exist and are busy, and then changes nothing |
| `Roots.TakeGives` | 9.3.6+log_reader/src/api/api_handle.c:850-856 | otherwise it hands out an idle root if there is one, making no root and keeping every count, and else a new one with the next number and the count zero |
| `Roots.TakesLast` | 9.3.6+log_reader/src/api/api_handle.c:850-856 | of several idle roots it is the one given back last |
| `Roots.ThreadsGoOn` | 9.3.6+log_reader/src/api/api_handle.c:833-972 | a thread that holds a root can install it or give it back, one that does not can acquire, lock and unlock, and can release a root exactly while no thread has it locked |
| `Roots.LockAnswers` | 9.3.6+log_reader/src/api/api_handle.c:924-953 | locking succeeds exactly for a root in use that no thread holds, times out exactly if one does, and changes nothing unless it succeeds |
| `Roots.ReleaseAnswers` | 9.3.6+log_reader/src/api/api_handle.c:887-915 | releasing succeeds exactly for a root in use, which is then idle with its count kept, and else changes nothing |
| `Roots.InstallAnswers` | 9.3.6+log_reader/src/api/api_handle.c:875-880 | installing puts the root of a thread into use and leaves the thread without one |
| `Roots.Exclusive` | 9.3.6+log_reader/src/api/api_handle.c:833-880 | a root in use stays in use and is handed to no other thread until it is released |
| `Roots.SecondReleaseRejected` | 9.3.6+log_reader/src/api/api_handle.c:887-915 | a second release of a root not handed out in between is rejected and changes nothing |
| `Roots.LockedInUse` | 9.3.6+log_reader/src/api/api_handle.c:924-953 | a root whose lock is held has its interface |
| `Roots.LockKept` | 9.3.6+log_reader/src/api/api_handle.c:924-972 | the thread that locked a root, and has not locked it again, holds the lock if and only if no thread has unlocked the root since |
| `Roots.LockProtects` | 9.3.6+log_reader/src/api/api_handle.c:887-972 | until some thread unlocks it, a locked root stays in use, cannot be released, and turns away other locks |
| `Roots.LockUndone` | 9.3.6+log_reader/src/api/api_handle.c:961-972 | a run in which another thread unlocks and releases a root that its thread still has locked |
| `HeapOrder.RootIsLargest` | 9.3.6+log_reader/src/base/binaryheap.c:54-101 | the root of a heap is at least as large as every element |
| `BinaryHeap.Heap.constructor` | 9.3.6+log_reader/src/base/binaryheap.c:114-141 | a new heap is consistent and empty |
| `BinaryHeap.Heap.UpHeap` | 9.3.6+log_reader/src/base/binaryheap.c:54-69 | restores the heap when only the element sifted up may exceed its parent, keeping the elements |
| `BinaryHeap.Heap.DownHeap` | 9.3.6+log_reader/src/base/binaryheap.c:77-101 | restores the order from lo on when only the element sifted down violates it, keeping the elements and everything outside |
| `BinaryHeap.Heap.Add` | 9.3.6+log_reader/src/base/binaryheap.c:171-186 | appends an element unless full, and marks the heap inconsistent either way |
| `BinaryHeap.Heap.Insert` | 9.3.6+log_reader/src/base/binaryheap.c:194-219 | adds an element to the heap, failing exactly when it is full |
| `BinaryHeap.Heap.TryInsert` | 9.3.6+log_reader/src/base/binaryheap.c:229-243 | adds the element while there is room, and else returns a largest of the elements and the new one |
| `BinaryHeap.Heap.BuildHeap` | 9.3.6+log_reader/src/base/binaryheap.c:250-265 | any array becomes a heap of the same elements |
| `BinaryHeap.Heap.ExtractMax` | 9.3.6+log_reader/src/base/binaryheap.c:272-286 | removes and returns a largest element |
| `BinaryHeap.Heap.ReplaceMax` | 9.3.6+log_reader/src/base/binaryheap.c:295-304 | replaces a largest element by the new one |
| `BinaryHeap.Heap.ToSortedArray` | 9.3.6+log_reader/src/base/binaryheap.c:332-348 | the elements in ascending order, none lost |
| `BinaryHeap.Heap.OfferAll` | 9.3.6+log_reader/src/base/binaryheap.c:229-243 | after any sequence of offers to an empty heap, it holds the capacity smallest elements offered and the returned ones are the rest |
| `BinaryHeap.KeptAreSmallest` | 9.3.6+log_reader/src/base/binaryheap.c:229-243 | the elements kept, sorted, are position by position as small as the smallest of all offered elements, up to ties, whatever the order of those returned |
| `SortedOrder.AscendingArrangementsAgree` | 9.3.6+log_reader/src/base/binaryheap.c:332-348 | two ascending arrangements of the same elements agree up to ties at every position |
| `Base64Text.EncodeLenExact` | 9.3.6+log_reader/src/base/base64.c:492-511 | the closed form is the length of the wrapped text exactly when the input is not empty |
| `Base64Text.WrapLines` | 9.3.6+log_reader/src/base/base64.c:591-626 | line feeds stand after every 76 characters and nowhere else, and the last line has 1 to 76 |
| `Base64Text.StripWrap` | 9.3.6+log_reader/src/base/base64.c:307-339 | removing white space undoes the wrapping |
| `Base64Text.DecodeEncodedGroup` | 9.3.6+log_reader/src/base/base64.c:352-388 | decoding the encoding of one to three bytes gives them back |
| `Base64Text.RoundTrip` | 9.3.6+log_reader/src/base/base64.c:158-388 | a text that is the encoding of a byte string but for white space decodes to it |
| `Base64Text.EncodeDecoded` | 9.3.6+log_reader/src/base/base64.c:158-388 | encoding what was decoded gives the text back exactly when its unused bits are zero |
| `Base64Bits.LetterIsAlphabet` | 9.3.6+log_reader/src/base/base64.c:57-58 | the letter of a value is the one at that place of A to Z, a to z, 0 to 9, plus and slash |
| `Base64Bits.EncodedText` | 9.3.6+log_reader/src/base/base64.c:577-629 | the letters before the padding spell the bits of the bytes, the most significant first, filled up with zero bits to whole letters; padding fills up to groups of four; a line feed follows every 76 characters but not the last |
| `Base64Bits.StripOne` | 9.3.6+log_reader/src/base/base64.c:66-89 | white space is the characters 9 to 13, 32 and 160 |
| `Base64Bits.DecodedText` | 9.3.6+log_reader/src/base/base64.c:158-388 | a text decodes if and only if it consists of whole groups of letters, the last with at most two padding signs; the bytes are the bits its letters spell, without the last ones that do not make a byte; else it is empty or invalid input |
| `Base64.EncodeLocal` | 9.3.6+log_reader/src/base/base64.c:577-629 | the encoding loop writes the wrapped encoding and returns its length |
| `Base64.Encode` | 9.3.6+log_reader/src/base/base64.c:522-564 | the bits of the input spelled in the letters of the alphabet with padding, in lines of 76, with a terminator in a buffer of the computed length; for no input, and only then, the terminator goes before the buffer |
| `Base64.RemoveSpace` | 9.3.6+log_reader/src/base/base64.c:307-339 | copies exactly the characters that are no white space, in order |
| `Base64.Partition` | 9.3.6+log_reader/src/base/base64.c:158-293 | the chunks stand for the decoded bytes and the length computed is their number; an error exactly where decoding fails |
| `Base64.DecodeChunks` | 9.3.6+log_reader/src/base/base64.c:352-388 | writes exactly the bytes of the chunks |
| `Base64.Decode` | 9.3.6+log_reader/src/base/base64.c:403-485 | decodes the text without its white space: succeeds exactly for whole groups of letters and padding at the end, with the bytes that the letters spell, and tells empty from invalid input |
| `ListIndexer.Indexer.constructor` | 9.3.6+log_reader/src/api/api_value_indexer.c:704-719 | a new indexer is the empty sequence |
| `ListIndexer.Indexer.GetLink` | 9.3.6+log_reader/src/api/api_value_indexer.c:327-405 | finds the link at an index, leaves the cursor there, and follows at most min(index, |index - cursor|, n - index) links |
| `ListIndexer.Indexer.Get` | 9.3.6+log_reader/src/api/api_value_indexer.c:416-434 | yields the element at an index of the sequence |
| `ListIndexer.Indexer.Set` | 9.3.6+log_reader/src/api/api_value_indexer.c:443-464 | replaces the element at an index of the sequence |
| `ListIndexer.Indexer.Delete` | 9.3.6+log_reader/src/api/api_value_indexer.c:526-574 | removes the element at an index of the sequence, and the cursor stays on an element or is -1 exactly when none is left |
| `ListIndexer.Indexer.Insert` | 9.3.6+log_reader/src/api/api_value_indexer.c:586-621 | inserts after an index of the sequence; the cursor is left at that index, and an insertion in front leaves it on its element |
| `ListIndexer.Indexer.Map` | 9.3.6+log_reader/src/api/api_value_indexer.c:500-516 | calls the function on the elements in order until it fails, and returns its answer |
| `ListIndexer.Indexer.Destroy` | 9.3.6+log_reader/src/api/api_value_indexer.c:629-645 | hands every element to the destructor once, in order |
| `AreaLayout.AdvanceOk` | 9.3.6+log_reader/src/base/area_alloc.c:525-542 | carving a slot stays within the block and reaches its end exactly with the last slot |
| `AreaLayout.CarveNext` | 9.3.6+log_reader/src/base/area_alloc.c:525-542 | the next slot overlaps no element carved before, in this block or another |
| `AreaLayout.FreshExactly` | 9.3.6+log_reader/src/base/area_alloc.c:413-453 | the memory admitted for a block is any that shares no byte with the others, their headers of 32 bytes included |
| `AreaLayout.GrowOk` | 9.3.6+log_reader/src/base/area_alloc.c:413-453 | a new block apart from the others keeps the layout |
| `AreaAlloc.Area.constructor` | 9.3.6+log_reader/src/base/area_alloc.c:161-196 | element sizes are rounded up to a multiple of eight |
| `AreaAlloc.Area.LiveApart` | 9.3.6+log_reader/src/base/area_alloc.c:464-566 | two live elements do not overlap, and each lies in a block |
| `AreaAlloc.Area.LiveCount` | 9.3.6+log_reader/src/base/area_alloc.c:464-697 | the counts are those of the live and the free elements, and blocks times slots is live plus free plus slots left |
| `AreaAlloc.Area.Grow` | 9.3.6+log_reader/src/base/area_alloc.c:390-453 | puts a block in front when the others are carved up, and changes nothing when there is no memory |
| `AreaAlloc.Area.Alloc` | 9.3.6+log_reader/src/base/area_alloc.c:464-566 | hands out an element that was not live, apart from all live ones; fails exactly when there is no first block to be had or elements are too small for a link; leaves the blocks exactly when there is no free element, no slot left and the last growth failed; afterwards there is room exactly if a free element or a slot is left or growth succeeded |
| `AreaAlloc.OneSlot` | 9.3.6+log_reader/src/base/area_alloc.c:500-566 | an area of one slot without a second block hands out its element and then one behind the block |
| `AreaAlloc.Area.Validate` | 9.3.6+log_reader/src/base/area_alloc.c:580-608 | whether an address lies in a block |
| `AreaAlloc.Area.Free` | 9.3.6+log_reader/src/base/area_alloc.c:618-698 | a live element becomes free; an address outside the blocks and an element freed before are turned away and change nothing |
| `AreaAlloc.Area.Store` | 9.3.6+log_reader/src/base/area_alloc.c:618-698 | what a user writes into a live element harms neither the free list nor any status |
| `AreaAlloc.Area.InUse` | 9.3.6+log_reader/src/base/area_alloc.c:754-822 | the figure counted from blocks and free list is the number of live elements |
| `HostNames.AddNewFacts` | 9.3.6+log_reader/src/base/databases_file.c:1465-1586 | adding names keeps each once and has exactly the old and the new ones |
| `HostNames.AddNewOrder` | 9.3.6+log_reader/src/base/databases_file.c:1465-1586 | in the order they first come |
| `HostNames.NamesJoin` | 9.3.6+log_reader/src/base/databases_file.c:1282-1337 | splitting good names joined by separators gives them back |
| `HostNames.HostsJoin` | 9.3.6+log_reader/src/base/databases_file.c:1209-1250 | distinct good names joined by separators come back in order |
| `HostPieces.NamesByPieces` | 9.3.6+log_reader/src/base/databases_file.c:1282-1337 | the names of a string are the pieces between colons and the six white space characters, up to its end, that have less than 64 characters |
| `HostPieces.HostsInOrder` | 9.3.6+log_reader/src/base/databases_file.c:1465-1586 | the hosts are these names of both strings and the local host, each once, in the order they first come |
| `HostNames.NoHosts` | 9.3.6+log_reader/src/base/databases_file.c:1465-1586 | there are no hosts exactly without names and local host, and the builder steps before its buffer exactly if the lists are not empty besides |
| `HostNames.NoName` | 9.3.6+log_reader/src/base/databases_file.c:1282-1337 | a separator alone and a name of 64 characters or more hold no name |
| `HostList.PopHost` | 9.3.6+log_reader/src/base/databases_file.c:1282-1337 | writes the next name into the buffer, answers -1 for one too long, and stops behind it |
| `HostList.HostExists` | 9.3.6+log_reader/src/base/databases_file.c:1349-1388 | whether a name is among the first items of the buffer |
| `HostList.RoomAfter` | 9.3.6+log_reader/src/base/databases_file.c:1480-1542 | every name popped fits into the buffer allocated, also one that is then dropped |
| `HostList.AddHosts` | 9.3.6+log_reader/src/base/databases_file.c:1524-1542 | the buffer gains the names of a string that it did not hold, in order, and is not overrun |
| `HostList.RemoveLast` | 9.3.6+log_reader/src/base/databases_file.c:1575-1579 | removing the last separator leaves the items, and stays in the buffer exactly when it holds one |
| `HostList.CreateHostList` | 9.3.6+log_reader/src/base/databases_file.c:1465-1586 | the items of the list are the distinct valid names in the order of first occurrence, the local host last, in a buffer of the length of the lists and one; nothing exactly without lists and local host, and a step before the buffer exactly when there are lists but no names |
| `HostList.SplitHosts` | 9.3.6+log_reader/src/base/databases_file.c:1231-1241 | the in-place split makes every item of the list a string of its own, in order |
| `HostList.GetHosts` | 9.3.6+log_reader/src/base/databases_file.c:1209-1250 | so is the array of hosts |
| `DirectoryText.EntryOfLine` | 9.3.6+log_reader/src/base/databases_file.c:540-566 | a written line with a log path is read back as its database |
| `DirectoryText.EntryWithoutLog` | 9.3.6+log_reader/src/base/databases_file.c:540-585 | one without is read with its lob path as log path, or is invalid |
| `DirectoryText.EntryWithoutName` | 9.3.6+log_reader/src/base/databases_file.c:540-566 | a line whose host token holds no name, without configured names, leads the builder before its buffer |
| `DirectoryText.LoneSeparator` | 9.3.6+log_reader/src/base/databases_file.c:540-566 | such as a line with a lone separator for its hosts |
| `DirectoryText.ReadBack` | 9.3.6+log_reader/src/base/databases_file.c:540-600 | a written directory is read back, in order and with the configured hosts added, exactly when every database has a log path |
| `DirectoryText.SameReadBack` | 9.3.6+log_reader/src/base/databases_file.c:540-600 | with hosts and log paths, and without configured hosts, the databases come back as they were |
| `Splitting.PiecesFirst` | 9.3.6+log_reader/src/base/databases_file.c:174-211 | the first piece of a text goes up to its first separator |
| `Splitting.PiecesApart` | 9.3.6+log_reader/src/base/databases_file.c:174-211 | a separator anywhere parts the pieces before it from those behind it |
| `DirectoryRows.TokenIsWord` | 9.3.6+log_reader/src/base/databases_file.c:174-211 | a token is the next word of the row and leaves the others |
| `DirectoryRows.EntryByWords` | 9.3.6+log_reader/src/base/databases_file.c:540-585 | an entry is made of the words of one row: name, path, hosts, log path, and a further path if there is a fifth |
| `DirectoryRows.ReadByRows` | 9.3.6+log_reader/src/base/chartype.c:110-127 | for every text, reading is splitting it into rows at carriage returns and line feeds and each row into words at blanks, tabs, form feeds and vertical tabs, and taking an entry from every row but those that start with a number sign |
| `DirectoryColumns.TitleWords` | 9.3.6+log_reader/src/base/databases_file.c:735-742 | the words of the title line |
| `DirectoryColumns.TextRows` | 9.3.6+log_reader/src/base/databases_file.c:735-772 | the rows of a written directory are the titles and one row for each database with its name, path, hosts, log path and lob path |
| `DirectoryColumns.PathColumn` | 9.3.6+log_reader/src/base/databases_file.c:743-747 | a path stands in column 16 behind a name of less than 16 characters |
| `DirectoryColumns.TitleColumn` | 9.3.6+log_reader/src/base/databases_file.c:735-742 | and so does its title |
| `DirectoryColumns.OnlyTabs` | 9.3.6+log_reader/src/base/databases_file.c:743-771 | apart from tabs and the line feed a written line holds the characters of its fields and nothing else |
| `DirectoryFile.NextChar` | 9.3.6+log_reader/src/base/databases_file.c:86-98 | skips white space |
| `DirectoryFile.NextLineAt` | 9.3.6+log_reader/src/base/databases_file.c:105-121 | skips to the start of the next line that is not empty |
| `DirectoryFile.PopLineToken` | 9.3.6+log_reader/src/base/databases_file.c:174-211 | pops the next token of the line, or none at its end |
| `DirectoryFile.ReadEntryAt` | 9.3.6+log_reader/src/base/databases_file.c:540-585 | reads an entry with its hosts; invalid exactly without a name, a path, a host list or a log path, and out of its buffer exactly if the host list holds no name |
| `DirectoryFile.ReadDirectory` | 9.3.6+log_reader/src/base/databases_file.c:536-600 | the scanning loop reads the entries of the rows of the text, for every text |
| `DirectoryFile.WriteHosts` | 9.3.6+log_reader/src/base/databases_file.c:748-760 | the line in the buffer gains the hosts joined by separators, or the local host, as far as it is inside |
| `DirectoryFile.WriteLine` | 9.3.6+log_reader/src/base/databases_file.c:743-771 | the line of a database is written exactly if it is shorter than the line buffer |
| `DirectoryFile.WriteDirectory` | 9.3.6+log_reader/src/base/databases_file.c:735-772 | the printing loops write the text of the directory, and stay in the line buffer exactly if the titles and all lines are shorter |
| `DirectoryFile.WriteAndRead` | 9.3.6+log_reader/src/base/databases_file.c:536-772 | writing and then reading gives the databases exactly when all have log paths and all lines fit |

## Left out

- Conversion.Print: requires an exponent estimate that is right or, where the code checks it, one too high; with single precision promises nothing in modes 4 and 5, and in modes 0 and 1 only of doubles that are normal floats.
- BigOps.Diff: requires that the operands are not two zeros of which one has no word, because the source then looks for a word before the first.
- HandleContext.Context.Find: requires a live handle, because the source dereferences the node it did not find otherwise.
- HandleContext.Context.DestroyHandle: requires a live handle for the same reason, and returns the node destroyed where the source returns only a status.
- HandleContext.Context.Alloc: requires that the next handle is not live; `HandleContext.NewNotLive` proves it for the first 2^48 handles of a root.
- HandleContext.Context.Graft: requires a target outside the subtree; `ForestOps.AttachInsideIsCyclic` shows the source makes a cycle otherwise.
- AreaAlloc.Area.Alloc: the memory for new blocks is at addresses given as parameters, apart from the blocks there are.
- AreaAlloc.Area.Free: an address inside a block is the start of an element, and without checks the element is live, as the source relies on.
- Getopt.Scanner.Run: has `W;` only as far as it ends a scan of short options.
- The floating-point parts of the digit generator: the logarithm estimate, the quick path and the small-integer path. Infinity, not-a-number, zero and signs, which are answered before.
- The branches for 32-bit words, which a 64-bit build does not take, and the free lists of multiple-precision integers.
- Long option names and error messages of the command line scanner. Its environment variable is a parameter that stays the same.
- Back pointers from bound objects to nodes: operations take nodes. Destructors are recorded in a ghost log.
- The type of a context is only its number of buckets; a failing creation is the step that gives a root back.
- Handles are numbers below 2^64: masks and shifts of unsigned words are remainders, products and quotients.
- Roots.LockKept: steps are what happens while the locks are held, so an unlock by another thread in the midst of an acquire or a release is not among them.
- Unsynchronised reads of the number of roots, and the lazy initialisation of the roots.
- Server mode of the area allocator with its arrays for each thread, and areas shared by partial words: memory is a map of words.
- Files, locks, signals and Windows paths of the database directory: the text is a string.
- The second reader and writer of the directory that open the file themselves: they differ in tokens and blanks only.
- Allocation failures, except where a line above says otherwise.
- Array indexer, value tables, stubs of the client interface, dynamic arrays and constants: they would only add easy members.
