# Verified models of two runtimes

This project models the algorithmic cores of two systems in Dafny and proves
properties of them: the Verilator runtime (wide-integer arithmetic, memory files,
coverage output, save and restore, the message queue of multithreaded evaluation) and
the AFL fuzzer (test-case minimizer, coverage index and queue culling, novelty map,
dictionary stages, fork-server protocol with its proxy). `dafny verify dfyconfig.toml`
checks all of it. Nothing was executed.

## How to read it

| files | what they model |
|---|---|
| `Wrappers`, `Lexicographic` | the Option datatype; the order of sequences |
| `Bits`, `Wide` | 32-bit words, bits and masks; numbers as little-endian words |
| `WideNormalize`, `WideDiv` | wide division: Algorithm D of Knuth, The Art of Computer Programming, volume 2, section 4.3.1 |
| `WideArith`, `WideSigned` | addition, negation, multiplication, power, and the signed layer |
| `WideBits`, `WideShift`, `WideInPlace` | bit-field insertion and shifts |
| `Stream`, `StreamFast` | the left stream operator, slow and fast |
| `Decimal` | decimal printing by double dabble |
| `MemFormat`, `MemReader`, `MemSyntax`, `MemFile` | `$writemem` and `$readmem`; the syntax of memory files |
| `EvalMsgQueue` | the message queue, sequentially and under every interleaving |
| `Serialize`, `SaveRestore` | the save-file format and its buffered streams |
| `HierNames`, `CoverFormat`, `CoverWrite`, `CoverFile` | the coverage writer and its Python reader |
| `Minimizer` | the test-case minimizer |
| `CoverageIndex`, `NewBits`, `Dictionary` | queue scoring and culling, novelty detection, dictionary stages |
| `ForkServer` | AFL, the proxy and the peer as a protocol |

Arithmetic in 32 and 64 bits is written out; in the word functions a shift takes the low
five bits of its amount, as the hardware does. Code that updates arrays and fields is
modelled by methods with loops over arrays and class fields, each proved against a
function or predicate of the old state, and the lemmas are about those functions. The two
concurrent parts are state machines over their atomic steps, with histories of what has
happened kept beside the state.

Where the code and its comments disagree the model follows the code. `VL_SHIFTL_WWI` is
announced to give a clean result for a clean operand, but its whole-word branch does not
clear the bits above the width (`WideShift.AlignedShiftClean` says when it is clean). The
fast stream operator announces no restriction, but at full word width its mask is shifted
by the word size; there it is right only for slices of one bit or of the whole word and
for the operand 0 (`StreamFast.FastStreamsIff`).

## Model

| member | source | states |
|---|---|---|
| `WideDiv.ModDiv` | ext/verilator-4.034-src/include/verilated.cpp:372-484 | for every width up to the 16 words of `VL_MULS_MAX_WORDS` and any operands, the outputs distinct from the inputs: the words of the result are worth exactly u / v or u % v of the operands' values, 0 for a zero divisor; the words above are untouched |
| `WideDiv.DivideDigit` | ext/verilator-4.034-src/include/verilated.cpp:434-472 | one quotient digit of Algorithm D: the segment of the dividend is replaced by its remainder below the divisor with a zero word on top, and the digit written is the exact quotient |
| `WideDiv.CorrectedEstimate` | ext/verilator-4.034-src/include/verilated.cpp:435-447 | the estimate after its correction loop is the exact digit or one more, and fits 32 bits although the loop tests it on 64 bits without overflow |
| `WideDiv.PassedTestIsClose` | ext/verilator-4.034-src/include/verilated.cpp:441-447 | an estimate that passes the two-word test is less than one divisor above the dividend, whatever the remaining words |
| `WideDiv.FailedTestIsAbove` | ext/verilator-4.034-src/include/verilated.cpp:441-447 | an estimate that fails the test can be lowered and still is not below the exact digit |
| `WideDiv.MulSub` | ext/verilator-4.034-src/include/verilated.cpp:449-458 | multiply and subtract in place: the segment minus qhat times the divisor, with a signed top word; every intermediate fits the signed and unsigned 64-bit types used |
| `WideDiv.BorrowStep` | ext/verilator-4.034-src/include/verilated.cpp:451-456 | one word of it: the borrow stays within 32 bits and the partial difference is exact |
| `WideDiv.AddBack` | ext/verilator-4.034-src/include/verilated.cpp:462-470 | adds the divisor back in place with its carry |
| `WideDiv.OneAddBack` | ext/verilator-4.034-src/include/verilated.cpp:461-471 | after a negative difference one addition of the divisor suffices: the result is the remainder and the digit is qhat - 1 |
| `WideDiv.NoBorrow` | ext/verilator-4.034-src/include/verilated.cpp:457-461 | without a borrow the top word is zero and the digit was exact |
| `WideDiv.DividingStep` | ext/verilator-4.034-src/include/verilated.cpp:433-472 | loop invariant over the digits: dividend = quotient so far times divisor plus what is left, the leading part below the divisor |
| `WideDiv.DivideByWord` | ext/verilator-4.034-src/include/verilated.cpp:391-397 | short division by one word: quotient words and a remainder below the divisor |
| `WideDiv.DivideLong` | ext/verilator-4.034-src/include/verilated.cpp:405-484 | normalization, digit loop and denormalization together give the exact quotient or remainder |
| `WideDiv.Unscale` | ext/verilator-4.034-src/include/verilated.cpp:413-431 | dividing the scaled operands gives the same quotient and the scaled remainder |
| `WideDiv.MostSetBitP1` | ext/verilator-4.034-src/include/verilated.h:1282-1293 | one more than the index of the highest set bit, 0 for zero |
| `WideNormalize.ShiftLeftInto` | ext/verilator-4.034-src/include/verilated.cpp:417-431 | copies the words shifted left, from the top word down; each word joins its neighbour's high bits, also for a shift of 0 |
| `WideNormalize.ShiftedLeftValue` | ext/verilator-4.034-src/include/verilated.cpp:413-431 | the shifted words are worth the original times 2^s, less what leaves the top word |
| `WideArith.Add` | ext/verilator-4.034-src/include/verilated.h:1458-1468 | the sum modulo 2^(32*words) |
| `WideArith.Negate` | ext/verilator-4.034-src/include/verilated.h:1431-1439 | the two's complement modulo 2^(32*words): added to the operand it gives 0 |
| `WideArith.Multiply` | ext/verilator-4.034-src/include/verilated.h:1482-1496 | the product modulo 2^(32*words); the carry loop cannot leave a carry behind |
| `WideArith.CleanInPlace` | ext/verilator-4.034-src/include/verilated.h:890-893 | drops exactly the bits at and above the width |
| `WideSigned.MulSigned` | ext/verilator-4.034-src/include/verilated.h:1509-1545 | the result is congruent to the product of the signed operands modulo 2^lbits, the most negative value included |
| `WideSigned.DivSigned` | ext/verilator-4.034-src/include/verilated.h:1572-1593 | the signed quotient rounded toward zero, modulo 2^lbits; 0 for a zero divisor |
| `WideSigned.ModDivSigned` | ext/verilator-4.034-src/include/verilated.h:1594-1616 | the signed remainder that goes with it, modulo 2^lbits |
| `WideSigned.TruncDivMod` | ext/verilator-4.034-src/include/verilated.h:1572-1616 | quotient and remainder recompose the dividend, the remainder is smaller than the divisor and has the dividend's sign (section 11.4.3 of IEEE 1800-2017) |
| `WideSigned.Magnitude` | ext/verilator-4.034-src/include/verilated.h:1576-1586 | the absolute value of a signed operand and its sign, for the most negative value as well |
| `WideSigned.Power` | ext/verilator-4.034-src/include/verilated.cpp:486-508 | square and multiply gives base^exponent modulo 2^(32*words), for the exponent cut to its width |
| `WideBits.Insert` | ext/verilator-4.034-src/include/verilated.h:1750-1796 | changes exactly bits lbit..hbit, to the low bits of the source, for every alignment and whatever the source holds above |
| `WideBits.InsertUnaligned` | ext/verilator-4.034-src/include/verilated.h:1766-1795 | the same for a field that starts inside a word, through the lower and upper part of each source word |
| `WideShift.ShiftLeft` | ext/verilator-4.034-src/include/verilated.h:2064-2078 | the shifted operand, cut at obits by the insertion and at whole words by the aligned branch; 0 from obits on |
| `WideShift.LeftByMeaning` | ext/verilator-4.034-src/include/verilated.h:2064-2078 | either way the result is the operand times 2^rd modulo 2^obits |
| `WideShift.AlignedShiftClean` | ext/verilator-4.034-src/include/verilated.h:2061-2075 | the aligned branch returns a clean value if and only if the operand's bits from obits - rd up to the words' end are zero |
| `WideShift.AlignedShiftDirty` | ext/verilator-4.034-src/include/verilated.h:2061-2075 | a clean 33-bit operand for which the result is not clean, against the rule in the comment |
| `WideShift.ShiftRight` | ext/verilator-4.034-src/include/verilated.h:2109-2132 | for a clean operand the quotient by 2^rd, for every rd |
| `WideShift.ShiftRightSigned` | ext/verilator-4.034-src/include/verilated.h:2185-2215 | for a clean operand the signed quotient by 2^rd rounded down, modulo 2^obits, for every rd |
| `WideInPlace.ShiftLeftInPlace` | ext/verilator-4.034-src/include/verilated.h:2049-2059 | multiplies by 2^rd in place and keeps obits bits |
| `Decimal.DecimalOf` | ext/verilator-4.034-src/include/verilated.cpp:583-619 | the numeral printed is the one of the operand's value: only digits, no superfluous leading zero, and its base-ten value is the number |
| `Decimal.DoubleDabble` | ext/verilator-4.034-src/include/verilated.cpp:593-609 | with every digit at most 9, adding three where needed and doubling gives again decimal digits, worth twice the number plus the bit, with no carry across digits |
| `Decimal.EnoughDigits` | ext/verilator-4.034-src/include/verilated.cpp:584-589 | 2^width < 10^(width/3+1): the digits set aside suffice for every width |
| `Decimal.AdjustDigits` | ext/verilator-4.034-src/include/verilated.cpp:595-603 | the add-three pass on packed digits, done by two whole-number additions and masks, adds three to exactly the digits of 5 and more |
| `Decimal.ShiftBitIn` | ext/verilator-4.034-src/include/verilated.cpp:604-608 | the shift by one bit with the next bit of the operand |
| `Decimal.PrintDigits` | ext/verilator-4.034-src/include/verilated.cpp:610-618 | skipping the zeros and printing the packed digits gives the numeral |
| `Decimal.NumeralUnique` | ext/verilator-4.034-src/include/verilated.cpp:583-619 | a number has only one such numeral, so the contract of DecimalOf fixes the string |
| `Stream.StreamWide` | ext/verilator-4.034-src/include/verilated.h:1947-1963 | bit by bit: output bit p is input bit StreamSource(p), every bit from lbits on is clear; for every slice size, also larger than the operand |
| `Stream.StreamIsPermutation` | ext/verilator-4.034-src/include/verilated.h:1947-1963 | input and output positions below lbits correspond one to one, for every slice size |
| `Stream.InvolutionIff` | ext/verilator-4.034-src/include/verilated.h:1947-1963 | streaming is its own inverse if and only if the slice size divides the width or is not smaller than it |
| `Stream.StreamTwice` | ext/verilator-4.034-src/include/verilated.h:1947-1963 | streaming a streamed number gives the number back, under that condition |
| `Stream.StreamWord` | ext/verilator-4.034-src/include/verilated.h:1923-1934 | the slice-by-slice loop on one word moves the bits in the same way |
| `StreamFast.StreamFastWord` | ext/verilator-4.034-src/include/verilated.h:1855-1890 | the stages of the switch, falling through, compute Fast; on a clean operand the result is the streamed word if and only if the slice is one bit or the whole word, the width is below 32, or the operand is 0 |
| `StreamFast.StagesMirror` | ext/verilator-4.034-src/include/verilated.h:1883-1888 | the masked swaps from one slice size on together mirror the slices of the word |
| `StreamFast.PreShiftMoves` | ext/verilator-4.034-src/include/verilated.h:1875-1881 | the incomplete slice, and only it, moves to the upper end of its slice |
| `StreamFast.FastStreamsIff` | ext/verilator-4.034-src/include/verilated.h:1855-1890 | for slices of 1, 2, 4, 8, 16 or 32 bits not wider than a clean operand of up to 32 bits, the mask form streams if and only if the slice is one bit or the whole word, the width is below 32, or the operand is 0 |
| `StreamFast.FullWidthIff` | ext/verilator-4.034-src/include/verilated.h:1876-1880 | at width 32 with slices of 2, 4, 8 or 16 bits the mask selects the whole word, which then moves up by a slice; the result streams only for 0 |
| `StreamFast.FastStreams` | ext/verilator-4.034-src/include/verilated.h:1855-1890 | the half of it below width 32 or with one-bit slices: where the mask selects the incomplete slice the result is the streamed word |
| `StreamFast.FastAgreesWithSlow` | ext/verilator-4.034-src/include/verilated.h:1855-1934 | the fast and the slow form return the same word for a clean operand if and only if the slice is one bit or the whole word, the width is below 32, or the operand is 0 |
| `StreamFast.FullWidthFails` | ext/verilator-4.034-src/include/verilated.h:1876-1880 | the word 0x8000_0000 in slices of two: the fast result is not the streamed word |
| `MemFormat.PrintElement` | ext/verilator-4.034-src/include/verilated.cpp:1852-1891 | the digits printed are as many as the width takes, and their value is the element's cut to the width, in all three branches |
| `MemFormat.SetData` | ext/verilator-4.034-src/include/verilated.cpp:1785-1817 | shifting digits in and cutting at each one leaves the number of the digits modulo 2^bits, for one, two or many words |
| `MemFormat.OrDigit` | ext/verilator-4.034-src/include/verilated.cpp:1809-1813 | or-ing a digit into the shifted words adds it |
| `MemReader.VlReadMem.Get` | ext/verilator-4.034-src/include/verilated.cpp:1704-1784 | the scan of the next element with all of its comment, address and digit flags (what that scan makes of a file is stated by the rows of MemSyntax); at the end of the file fatal exactly when a specified end address was not passed |
| `MemReader.PrintedReadBack` | ext/verilator-4.034-src/include/verilated.cpp:1704-1784 | reading a printed list of elements gives the list: same order, same addresses, same digits, through the @ stamps |
| `MemReader.ListReadBackIff` | ext/verilator-4.034-src/include/verilated.cpp:1846-1851 | the list of elements printed with stamps comes back from another start address if and only if it is empty or its first address is not 0; otherwise the run of addresses from 0 on is displaced |
| `MemReader.ScanAddress` | ext/verilator-4.034-src/include/verilated.cpp:1750-1761 | a stamp sets the address to its hexadecimal value |
| `MemReader.ScanAdvances` | ext/verilator-4.034-src/include/verilated.cpp:1717-1729 | every element read consumes text, so reading a file ends |
| `MemSyntax.FileRead` | ext/verilator-4.034-src/include/verilated.cpp:1704-1784 | a file of blanks, // and # and /* */ comments, addresses and numbers, put together in any order the syntax allows, gives exactly its numbers at their addresses: comments and blanks are skipped, underscores inside numbers and addresses dropped, upper case becomes lower case; a number with nothing behind it at the end of the file is lost |
| `MemSyntax.FileRefused` | ext/verilator-4.034-src/include/verilated.cpp:1755-1781 | any other character, and an unknown digit in an address, is fatal, with the elements before it read |
| `MemSyntax.BinaryRefused` | ext/verilator-4.034-src/include/verilated.cpp:1755-1778 | in a binary file a digit above 1, also one inside a number, and an unknown one drawn above 1, is fatal |
| `MemSyntax.UnknownRead` | ext/verilator-4.034-src/include/verilated.cpp:1755-1770 | in a binary file an unknown digit drawn as 0 or 1 is part of its number |
| `MemSyntax.CommentedReadBack` | ext/verilator-4.034-src/include/verilated.cpp:1704-1784 | a printed list into which blanks, comments and underscores were put, and whose digits were put in upper case, is read as the list |
| `MemSyntax.PrintedText` | ext/verilator-4.034-src/include/verilated.cpp:1846-1892 | the writer prints such a file |
| `MemSyntax.SecondComment` | ext/verilator-4.034-src/include/verilated.cpp:1741-1747 | right behind a block comment a single slash begins a comment to the end of the line |
| `MemSyntax.AdjacentComments` | ext/verilator-4.034-src/include/verilated.cpp:1741-1747 | a number behind two block comments with nothing between them is lost, with a blank between them it is read |
| `MemFile.VlWriteMem.Print` | ext/verilator-4.034-src/include/verilated.cpp:1846-1892 | appends the element, with an address stamp exactly when stamps are on and the address is not the expected one |
| `MemFile.WriteMem` | ext/verilator-4.034-src/include/verilated.cpp:1942-1979 | the rows of the clipped range in order; refused for binary output and an empty range, and only then |
| `MemFile.ReadMem` | ext/verilator-4.034-src/include/verilated.cpp:1894-1940 | applies the file's elements to the rows in order; fatal exactly for an address out of bounds or a file that ends badly |
| `MemFile.ArrayReadBack` | ext/verilator-4.034-src/include/verilated.cpp:1894-1979 | reading what was written restores each row of the range cut to the width, changes no other row, and complains only about an end address beyond the last row |
| `MemFile.WriteAssoc` | ext/verilator-4.034-src/include/verilated_heavy.h:237-247 | prints the entries whose keys lie in the range, each once, in key order |
| `MemFile.VlAssocArray.ReadMem` | ext/verilator-4.034-src/include/verilated_heavy.h:221-235 | sets one entry for each element of the file |
| `MemFile.AssocReadBack` | ext/verilator-4.034-src/include/verilated_heavy.h:221-247 | from start 0 without an end address, reading into an empty array gives exactly the entries in the range, cut to the width |
| `MemFile.AssocReadBackIff` | ext/verilator-4.034-src/include/verilated_heavy.h:221-247 | reading from any start address without an end address: the array gets exactly the entries of the range, cut to the width, if and only if the address is 0 or no entry of the range has key 0, which is printed without a stamp |
| `Minimizer.TestCase.Minimize` | ext/afl/afl-tmin.c:423-644 | terminates; the input held is always accepted and arises from the original by deleting and zeroing bytes; at the end no single byte and no aligned power-of-two block can be deleted; every full pass is recorded with what its three stages were given and made, each pass after the first deletes something, and the last one settles whether a symbol or a byte can still be overwritten; the number of passes is bounded by the weight lost |
| `Minimizer.TestCase.DeletionSweep` | ext/afl/afl-tmin.c:493-543 | one sweep, in which the equal-to-previous-block test never reads before the buffer: its result is that of the sweep without the test, which tries every block; it shortens the input, or every aligned block of this length is rejected, the skipped ones included |
| `Minimizer.SkippedIsRejected` | ext/afl/afl-tmin.c:510-521 | a block equal to the rejected block before it need not be tried: deleting either gives the same input |
| `Minimizer.SameRejected` | ext/afl/afl-tmin.c:510-521 | a block equal to a rejected one before it is rejected, so passing it over is trying it |
| `Minimizer.TestCase.DeletionStage` | ext/afl/afl-tmin.c:484-550 | the sweeps with halving lengths, from the least power of two that cuts the input into at most 16 blocks: a shorter input, or one that is minimal for all of them |
| `Minimizer.SweptAll` | ext/afl/afl-tmin.c:488-549 | the lengths swept are all powers of two up to the first one |
| `Minimizer.BlocksAndBytes` | ext/afl/afl-tmin.c:545-549 | so deleting any single byte is rejected |
| `Minimizer.TestCase.AlphabetStage` | ext/afl/afl-tmin.c:559-602 | a symbol is overwritten exactly when the oracle accepts that on top of the decisions for smaller symbols |
| `Minimizer.SymbolsAllTried` | ext/afl/afl-tmin.c:577-602 | when nothing changed, overwriting any symbol is rejected |
| `Minimizer.TestCase.CharacterStage` | ext/afl/afl-tmin.c:608-636 | a byte is overwritten exactly when the oracle accepts that on top of the decisions for earlier bytes |
| `Minimizer.BytesAllTried` | ext/afl/afl-tmin.c:618-636 | when nothing changed, overwriting any byte is rejected |
| `Minimizer.BytesTriedUnique` | ext/afl/afl-tmin.c:618-636 | the oracle leaves the byte stage one possible outcome |
| `Minimizer.LastByteStage` | ext/afl/afl-tmin.c:608-644 | overwriting any byte of what the last byte stage made is rejected if and only if it is for the bytes behind which that stage overwrote something |
| `Minimizer.LastSymbolStage` | ext/afl/afl-tmin.c:559-644 | the same for symbols and what was overwritten after their turn |
| `Minimizer.SecondPassRun` | ext/afl/afl-tmin.c:482-644 | an oracle and an input on which the two passes leave a byte that could be overwritten |
| `Minimizer.TestCase.BlockNormalize` | ext/afl/afl-tmin.c:434-473 | with the block length from the input size, a block is overwritten exactly when the oracle accepts that on top of the decisions for earlier blocks; the input stays accepted |
| `Minimizer.BlockDecided` | ext/afl/afl-tmin.c:445-473 | deciding one block keeps the decisions on the blocks before it |
| `Minimizer.ZeroedCounts` | ext/afl/afl-tmin.c:577-636 | zeroing that changes anything lowers the number of bytes that are not '0' |
| `Minimizer.NextP2` | ext/afl/afl-tmin.c:410-418 | the least power of two not below the argument |
| `CoverageIndex.MinimizeBits` | ext/afl/afl-fuzz.c:1241-1252 | bit i%8 of byte i/8 of the compacted trace is set exactly when slot i was hit |
| `CoverageIndex.CompactUnique` | ext/afl/afl-fuzz.c:1241-1252 | a trace has one compacted form |
| `CoverageIndex.Fuzzer.UpdateBitmapScore` | ext/afl/afl-fuzz.c:1265-1307 | q takes exactly the covered slots that are free or whose holder's time multiplied by length, modulo 2^64, is not smaller than its own; reference counts equal slots held, and the compacted trace is kept exactly while the count is positive, also when an entry wins from itself; without a change of holder the change flag stays |
| `CoverageIndex.Fuzzer.TakeSlot` | ext/afl/afl-fuzz.c:1281-1303 | one slot won, with release of the previous holder |
| `CoverageIndex.MovedRefs` | ext/afl/afl-fuzz.c:1284-1301 | moving a slot keeps every count and every kept trace right |
| `CoverageIndex.Fuzzer.Rescore` | ext/afl/afl-fuzz.c:4622-4644 | scoring after length or time changed: a right argmin stays right if and only if no entry undercuts q on a slot q already held; where the products of time and length fit 64 bits, every covered slot is held by an entry with the least product after a first score and after a trim that only shortens the entry |
| `CoverageIndex.ScoredBest` | ext/afl/afl-fuzz.c:1265-1307 | the if-and-only-if for the index as a value |
| `CoverageIndex.BestIsCheapest` | ext/afl/afl-fuzz.c:1265-1307 | without wrap-around the argmin is that of time multiplied by length |
| `CoverageIndex.ScoredContest` | ext/afl/afl-fuzz.c:1265-1307 | which slots change hands, slot by slot, in products modulo 2^64 |
| `CoverageIndex.NotGrownStillBest` | ext/afl/afl-fuzz.c:4622-4644 | the case of a trim, which only shortens the entry |
| `CoverageIndex.CheaperStillBest` | ext/afl/afl-fuzz.c:4622-4644 | a first score and a trim leave nothing undercut |
| `CoverageIndex.DearerRescoreFails` | ext/afl/afl-fuzz.c:1276-1280 | in a state with right reference counts and a right argmin, an entry whose factor grew above that of a rival with the same trace keeps its slots, so the argmin is lost |
| `CoverageIndex.DearerRescoreRun` | ext/afl/afl-fuzz.c:1265-1307 | a run of the fuzzer that ends in a valid state without the argmin |
| `CoverageIndex.Fuzzer.CullQueue` | ext/afl/afl-fuzz.c:1316-1366 | an effective run marks exactly the greedy picks, with all counters right; otherwise nothing changes |
| `CoverageIndex.Fuzzer.CullSlot` | ext/afl/afl-fuzz.c:1340-1357 | the bit test on tempV picks a holder exactly when no earlier pick covers the slot |
| `CoverageIndex.PicksOk` | ext/afl/afl-fuzz.c:1337-1357 | the greedy picks are pairwise different, each holds a slot, and every held slot so far is covered by a pick |
| `CoverageIndex.GreedyCover` | ext/afl/afl-fuzz.c:1337-1357 | over all slots: a cover without repetition |
| `CoverageIndex.Fuzzer.AddToQueue` | ext/afl/afl-fuzz.c:804-837 | appends an entry and keeps index, argmin, marks and counters |
| `CoverageIndex.Fuzzer.FinishFuzzing` | ext/afl/afl-fuzz.c:6679-6686 | the counters stay the sizes of their sets and never underflow |
| `CoverageIndex.MarkCounts` | ext/afl/afl-fuzz.c:1352-1355 | favoring an entry that was not favored moves the two counters by one |
| `NewBits.HasNewBits` | ext/afl/afl-fuzz.c:907-974 | word by word, with the zero shortcuts: 2, 1 or 0 as the byte-wise definition says, and every byte of the map loses exactly the trace's bits |
| `NewBits.LoadAnd` | ext/afl/afl-fuzz.c:929-933 | the word test finds a common bit exactly when one of the eight bytes has one |
| `NewBits.LoadMinus` | ext/afl/afl-fuzz.c:961-961 | the word update acts on each byte alone |
| `NewBits.VerdictStep` | ext/afl/afl-fuzz.c:931-961 | how one word changes the verdict on the bytes before it |
| `NewBits.ClassifyCounts` | ext/afl/afl-fuzz.c:1175-1198 | skipping zero words and mapping byte pairs through the table puts every byte into its bucket |
| `NewBits.InitCountClass16` | ext/afl/afl-fuzz.c:1160-1170 | the pair table is the bucket table on both bytes: entry x has the bucket of x/256 above that of x%256 |
| `NewBits.RangeBits` | ext/afl/afl-fuzz.c:1143-1155 | the counts 0, 1, 2, 3, 4..7, 8..15, 16..31, 32..127 and 128..255 have the buckets 0, 1, 2, 4, 8, 16, 32, 64 and 128 |
| `NewBits.SameBucket` | ext/afl/afl-fuzz.c:1143-1155 | two counts share a bucket if and only if they lie in the same one of these ranges |
| `NewBits.ZeroWord` | ext/afl/afl-fuzz.c:1179-1192 | the skipped words are those classification would not change |
| `NewBits.NoveltyMap.Inspect` | ext/afl/afl-fuzz.c:907-974 | over any sequence of raw traces: 2 exactly when a slot no earlier trace hit is hit, non-zero exactly when the count of a slot is in a range it never was in, and the trace joins the history |
| `NewBits.UnseenBucket` | ext/afl/afl-fuzz.c:1143-1157 | a bucket bit is virgin exactly when no recorded trace had a count of that slot in that range |
| `NewBits.UnseenSlot` | ext/afl/afl-fuzz.c:944-951 | a byte of the map is pristine exactly when no recorded trace hit the slot |
| `NewBits.RepeatIsOld` | ext/afl/afl-fuzz.c:900-905 | a trace whose counts lie in ranges all seen before has no news, in particular a repeated one |
| `Dictionary.OverwriteStage` | ext/afl/afl-fuzz.c:5968-6008 | the executions are exactly those of a plan in order: at each position each token that fits, is not skipped by chance or the effector map and does not show in the buffer already, up to the one after which the entry is abandoned; each gets the original with one token written over it; what any eligible token would make was executed at its position or is the original; the buffer ends as the original |
| `Dictionary.OverwriteAt` | ext/afl/afl-fuzz.c:6077-6108 | the same for the tokens of one position, as the stage for automatic tokens repeats it, without restoring the buffer in between |
| `Dictionary.WriteCovers` | ext/afl/afl-fuzz.c:5974-5977 | because tokens are sorted by length the next one covers the last one completely |
| `Dictionary.RedundantStep` | ext/afl/afl-fuzz.c:5986-5994 | a token skipped by the comparison would reproduce the buffer |
| `Dictionary.RestoreBuffer` | ext/afl/afl-fuzz.c:6005-6006 | copying back the last length restores the original |
| `Dictionary.CoveredIff` | ext/afl/afl-fuzz.c:5974-5977 | writing b over a leaves nothing of a if and only if b is not shorter or the rest of a is what was there |
| `Dictionary.UnsortedMixes` | ext/afl/afl-fuzz.c:5974-5977 | two tokens in the wrong order that mix |
| `Dictionary.InsertStage` | ext/afl/afl-fuzz.c:6024-6057 | the executions are exactly those of a plan in order: at every position every token that fits, up to the one after which the entry is abandoned; each gets the original with one token inserted |
| `ForkServer.InvAfter` | fuzzing/afl-proxy/afl-proxy.c:179-260 | the joint invariant of AFL, proxy and peer over every run |
| `ForkServer.WordsNotConfused` | ext/afl/afl-fuzz.c:2397-2437 | AFL reads the bytes HELO, the process identifier 2^22 + 1 and the status of its own request where it expects them |
| `ForkServer.OwnAnswer` | ext/afl/afl-fuzz.c:2428-2463 | when AFL goes on, status and map are those of the answer to its request: slot k of the map is byte k of the trace, and 0 where the trace ends before |
| `ForkServer.RequestClears` | ext/afl/afl-fuzz.c:2299-2402 | a request finds the map cleared and tells the proxy whether the run before it timed out |
| `ForkServer.FirstRequest` | ext/afl/afl-fuzz.c:2293-2299 | before the first run AFL has no timeout to tell of |
| `ForkServer.MapWrittenInside` | fuzzing/afl-proxy/afl-proxy.c:188-256 | the proxy writes the map only between taking a request and sending the status |
| `ForkServer.OnlyCopyingWrites` | fuzzing/afl-proxy/afl-proxy.c:228-233 | no step but AFL's clearing and the proxy's copying changes the map |
| `ForkServer.NobodyKilled` | ext/afl/afl-fuzz.c:6861-6875 | the timeout, which can also come between the status and the stopping of the timer, signals only the impossible process identifier the proxy reports |
| `ForkServer.TimerSignals` | ext/afl/afl-fuzz.c:6861-6875 | the timer notes the timeout and signals the process AFL was told of |
| `ForkServer.PidTaken` | ext/afl/afl-fuzz.c:2404-2411 | AFL gives up on a process identifier that is not positive |
| `ForkServer.StatusTaken` | ext/afl/afl-fuzz.c:2432-2441 | with the status AFL forgets the process unless it only stopped |
| `ForkServer.InStepIfFits` | fuzzing/afl-proxy/afl-proxy.c:218-233 | after an answer the stream from the peer is in step if and only if the answer fitted the map; otherwise what did not fit is still in it |
| `ForkServer.SomebodyCanStep` | fuzzing/afl-proxy/afl-proxy.c:179-260 | no deadlock: some party other than the timer can go on |
| `ForkServer.Progress` | fuzzing/afl-proxy/afl-proxy.c:179-260 | every step but the next request and the timer brings the answer nearer, so every request ends |
| `ForkServer.AflMay` | ext/afl/afl-fuzz.c:2390-2455 | what AFL can do next, by where it is; the timer can fire from the process identifier to the end of the run |
| `ForkServer.ProxyMay` | fuzzing/afl-proxy/afl-proxy.c:179-260 | what the proxy can do next, by where it is |
| `ForkServer.PeerMay` | fuzzing/afl-proxy/afl-proxy.c:200-233 | the peer answers each HELO once, with a trace shorter than 2^31 bytes, and sends it byte by byte |
| `ForkServer.AnsweringByte` | fuzzing/afl-proxy/afl-proxy.c:210-233 | reading the answer byte by byte, however the peer's bytes arrive |
| `EvalMsgQueue.NeverFails` | ext/verilator-4.034-src/include/verilated_imp.h:97-124 | under every interleaving: the assertion does not fire, the depth tested never exceeds the queue, it is positive when decremented and does not overflow |
| `EvalMsgQueue.SafeStep` | ext/verilator-4.034-src/include/verilated_imp.h:97-124 | the exact relation of depth, queue and the message each side is handling is kept by every step |
| `EvalMsgQueue.LocalStep` | ext/verilator-4.034-src/include/verilated_imp.h:149-167 | each thread's posts are what it has flushed followed by what waits locally, and its pending count wraps with the local queue's size |
| `EvalMsgQueue.TaskFifo` | ext/verilator-4.034-src/include/verilated_imp.h:97-124 | under every interleaving each mtask's messages run in the order they were inserted |
| `EvalMsgQueue.Conserved` | ext/verilator-4.034-src/include/verilated_imp.h:97-167 | whatever the schedule before: when the threads are quiescent and the consumer, going on alone, has returned from process, nothing is left and every message posted inside an mtask has run exactly once |
| `EvalMsgQueue.ProcessEnds` | ext/verilator-4.034-src/include/verilated_imp.h:103-124 | under every interleaving the step that ends process is a test that sees the counter at zero; every message counted by then has run, and at most one is in the queue, inserted and not counted yet |
| `EvalMsgQueue.ProcessCompletes` | ext/verilator-4.034-src/include/verilated_imp.h:103-124 | process does end: with quiescent threads, after six steps for each message in the queue and two more |
| `EvalMsgQueue.ConsumerGoesOn` | ext/verilator-4.034-src/include/verilated_imp.h:103-124 | with quiescent threads the consumer can always go on until it has returned, and each of its steps leaves one less |
| `EvalMsgQueue.NoDeadlock` | ext/verilator-4.034-src/include/verilated_imp.h:97-167 | with a flush or a call of process under way, somebody can go on with theirs |
| `EvalMsgQueue.FlushGoesOn` | ext/verilator-4.034-src/include/verilated_imp.h:161-167 | each step of a flush is one less to make: five for each message and one to end it, so a flush ends |
| `EvalMsgQueue.ThreadMay` | ext/verilator-4.034-src/include/verilated_imp.h:97-167 | what a thread can do next, by where it is in its mtask or flush |
| `EvalMsgQueue.FailsWhenEmpty` | ext/verilator-4.034-src/include/verilated_imp.h:109-110 | taking from an empty queue, and nothing else, trips the assertion |
| `EvalMsgQueue.PostsRecorded` | ext/verilator-4.034-src/include/verilated_imp.h:147-159 | what counts as posted is read off the schedule alone: its posts, each with the mtask its thread began last; a post outside any mtask has run at once |
| `EvalMsgQueue.EndTaskFlushes` | ext/verilator-4.034-src/include/verilated_imp.h:153-167 | a thread flushes at the end of an mtask exactly when its pending count, which wraps at 2^32, is not zero |
| `EvalMsgQueue.TickOrder` | ext/verilator-4.034-src/include/verilated_imp.h:73-124 | if the posts of a tick precede process and each mtask runs on one thread: once process has returned, ascending mtask order, and per mtask the order of posting |
| `EvalMsgQueue.ScheduleIndependent` | ext/verilator-4.034-src/include/verilated_imp.h:73-124 | two such ticks with the same posts run the same callbacks in the same order, whatever the schedules and thread assignments |
| `EvalMsgQueue.InsertKeepsOrder` | ext/verilator-4.034-src/include/verilated_imp.h:97-101 | insertion keeps the queue sorted and puts a message behind those of its mtask |
| `EvalMsgQueue.SortedUnique` | ext/verilator-4.034-src/include/verilated_imp.h:51-56 | the order of mtasks and the order within each leave no freedom |
| `EvalMsgQueue.EvalQueue.Post` | ext/verilator-4.034-src/include/verilated_imp.h:97-101 | the queue with the message inserted; the depth is its size |
| `EvalMsgQueue.EvalQueue.Process` | ext/verilator-4.034-src/include/verilated_imp.h:103-124 | runs the queue in order until it is empty |
| `EvalMsgQueue.ThreadQueue.Post` | ext/verilator-4.034-src/include/verilated_imp.h:149-159 | runs at once outside an mtask, else queues locally |
| `EvalMsgQueue.ThreadQueue.Flush` | ext/verilator-4.034-src/include/verilated_imp.h:161-167 | moves the local queue into the shared one in order |
| `SaveRestore.Save.Write` | ext/verilator-4.034-src/include/verilated_save.h:65-85 | appends the bytes to the stream; the cursor stays in the buffer |
| `SaveRestore.Save.Flush` | ext/verilator-4.034-src/include/verilated_save.cpp:186-208 | all buffered bytes reach the file in order under any schedule of partial writes |
| `SaveRestore.Restore.Fill` | ext/verilator-4.034-src/include/verilated_save.cpp:210-241 | fills the buffer with what follows in the file, continued by zeros, under any schedule of partial reads; the overlapping move loses nothing |
| `SaveRestore.Restore.Read` | ext/verilator-4.034-src/include/verilated_save.h:128-153 | the next bytes of the file, continued by zeros, wherever the blocks and fills fall |
| `SaveRestore.Restore.Differs` | ext/verilator-4.034-src/include/verilated_save.cpp:54-61 | the signature check is right in both directions |
| `SaveRestore.Signatures` | ext/verilator-4.034-src/include/verilated_save.cpp:44-47 | the first line and the last word of a file |
| `SaveRestore.Save.Put` | ext/verilator-4.034-src/include/verilated_save.h:202-267 | writes the encoding of a value, arrays entry by entry |
| `SaveRestore.Restore.Get` | ext/verilator-4.034-src/include/verilated_save.h:205-282 | reads a value of a shape; total, also on a short file |
| `Serialize.RoundTrip` | ext/verilator-4.034-src/include/verilated_save.h:202-282 | a value written anywhere reads back as itself, with the position after it, for strings and associative arrays nested to any depth |
| `Serialize.StringRoundTrip` | ext/verilator-4.034-src/include/verilated_save.h:244-253 | a string comes back if and only if its length fits the 32 bits it is stored in |
| `Serialize.EncodeInjective` | ext/verilator-4.034-src/include/verilated_save.h:202-267 | different values of a shape are written differently |
| `Serialize.PutLast` | ext/verilator-4.034-src/include/verilated_save.h:269-282 | inserting in key order rebuilds the array |
| `Serialize.PutSets` | ext/verilator-4.034-src/include/verilated_heavy.h:181-189 | setting an entry of an associative array keeps the order of keys and changes the value of its key only, whether the key was there or not |
| `Serialize.ByteAt` | ext/verilator-4.034-src/include/verilated_save.h:202-243 | byte k of a number written has the weight 256^k |
| `SaveRestore.SaveAll` | ext/verilator-4.034-src/include/verilated_save.cpp:75-103 | a whole file: signature, global state, values, trailer |
| `SaveRestore.RestoreAll` | ext/verilator-4.034-src/include/verilated_save.cpp:86-113 | from any file: the values are those read one behind the other, and it succeeds if and only if both signatures are where they are expected, however the reads are cut |
| `SaveRestore.SavedRestores` | ext/verilator-4.034-src/include/verilated_save.cpp:75-113 | a saved file has both signatures there and gives the saved values back |
| `HierNames.CombineHier` | ext/verilator-4.034-src/include/verilated_cov.cpp:169-208 | both scans stay in range, and the result is the longest common beginning, a star and the longest common ending behind it |
| `HierNames.WidenedMatches` | ext/verilator-4.034-src/include/verilated_cov.cpp:169-208 | one merging step matches the added name and everything matched before |
| `HierNames.FoldMatches` | ext/verilator-4.034-src/include/verilated_cov.cpp:169-208 | the merged name matches every non-empty name merged, and is empty only if all were |
| `HierNames.FoldCommon` | ext/verilator-4.034-src/include/verilated_cov.cpp:169-208 | without two different names the result is the name, otherwise a pattern with one star |
| `HierNames.FoldStart` | ext/verilator-4.034-src/include/verilated_cov.cpp:169-208 | the pattern begins with everything all names begin with |
| `HierNames.FoldExact` | ext/verilator-4.034-src/include/verilated_cov.cpp:169-208 | names that are not all the same merge to the longest beginning they share, a star, and an ending that is as long as n if and only if their longest shared ending is and every merge of different names had room for n characters behind the beginning shared so far |
| `HierNames.EndingIsShared` | ext/verilator-4.034-src/include/verilated_cov.cpp:169-208 | the merged name has the whole longest shared ending if and only if that ending had room at every merge |
| `HierNames.EndKeptStep` | ext/verilator-4.034-src/include/verilated_cov.cpp:169-208 | a shared ending survives a merge that has room for it |
| `HierNames.EndBoundStep` | ext/verilator-4.034-src/include/verilated_cov.cpp:169-208 | a merge leaves no ending it has no room for |
| `HierNames.SharedEndLongest` | ext/verilator-4.034-src/include/verilated_cov.cpp:169-208 | the ending computed over all names is shared, and any other shared one is an ending of it |
| `HierNames.OrderMattersIff` | ext/verilator-4.034-src/include/verilated_cov.cpp:169-208 | two orders of the same names give the same merged name if and only if they leave room for the same endings |
| `HierNames.EveryOrderKeeps` | ext/verilator-4.034-src/include/verilated_cov.cpp:169-208 | every order keeps the whole shared ending if and only if any two different names have room for it behind what they share at the beginning |
| `HierNames.OrderIrrelevant` | ext/verilator-4.034-src/include/verilated_cov.cpp:169-208 | such names merge to the same name in every order |
| `HierNames.GlobScans` | ext/verilator-4.034-src/include/verilated_cov.cpp:180-197 | the star of an earlier merge stops both scans |
| `HierNames.OrderMatters` | ext/verilator-4.034-src/include/verilated_cov.cpp:169-208 | three names in two orders, one of which keeps the ending |
| `CoverFormat.Dequote` | ext/verilator-4.034-src/include/verilated_cov.cpp:135-148 | the escaped text, with eight hexadecimal digits for bytes from 128 up |
| `CoverFormat.UnquoteRoundTrip` | ext/verilator-4.034-src/include/verilated_cov.cpp:135-148 | escaping can be undone, so it is injective |
| `CoverFormat.QuotePrintable` | ext/verilator-4.034-src/include/verilated_cov.cpp:135-148 | escaped text is printable and has an apostrophe only where the text had one |
| `CoverFormat.QuotePlain` | ext/verilator-4.034-src/include/verilated_cov.cpp:135-148 | printable text without percent signs and double quotes is left as it is |
| `CoverFormat.QuoteEscapes` | ext/verilator-4.034-src/include/verilated_cov.cpp:135-148 | every other character becomes a percent sign and two hexadecimal digits, or eight for bytes from 128 up |
| `CoverFormat.FormatterPlain` | ext/verilator-4.034-src/include/verilated_cov.cpp:158-168 | the byte 1 stands before a key and the byte 2 before its value |
| `CoverFormat.ShortKeyRoundTrip` | ext/verilator-4.034-src/include/verilated_cov_key.h:105-139 | a legal key is recovered from its short form |
| `CoverFormat.ShortKeyInjective` | ext/verilator-4.034-src/include/verilated_cov_key.h:105-139 | no two legal keys share a short form |
| `CoverFormat.Abbreviated` | ext/verilator-4.034-src/include/verilated_cov_key.h:105-139 | every abbreviation is the short form of the key it stands for |
| `CoverFormat.LegalIff` | ext/verilator-4.034-src/include/verilated_cov.cpp:149-157 | keys of one character and of two with a digit at the end are illegal, and no others |
| `CoverFormat.LineRoundTrip` | scripts/read_verilator_cov.py:11-15 | the reader takes a printed row apart if and only if it has no apostrophe, and then gets every field and the count |
| `CoverFormat.CountRefused` | scripts/read_verilator_cov.py:14-14 | a count that is not a number is refused |
| `CoverFormat.NoCountRefused` | scripts/read_verilator_cov.py:14-14 | a row without a count is refused |
| `CoverFormat.EntryRefused` | scripts/read_verilator_cov.py:13-13 | an entry without a value, or with a key or value that is not ASCII, is refused |
| `CoverFormat.CellsRecover` | scripts/read_verilator_cov.py:13-14 | every pair of a row is in the table row exactly unless its key is "count" |
| `CoverWrite.InsertP` | ext/verilator-4.034-src/include/verilated_cov.cpp:309-342 | of several pairs with one key the last stays; illegal keys are reported, and only they |
| `CoverWrite.KeepLastValues` | ext/verilator-4.034-src/include/verilated_cov.cpp:314-324 | no key loses its last value and every key is left once |
| `CoverWrite.BuildName` | ext/verilator-4.034-src/include/verilated_cov.cpp:367-391 | the row name and hierarchy of an item |
| `CoverWrite.SameRow` | ext/verilator-4.034-src/include/verilated_cov.cpp:367-405 | two items share a row if and only if their pairs agree in order and value without the hierarchy, which must agree too when they are counted per instance |
| `CoverFile.Collect` | ext/verilator-4.034-src/include/verilated_cov.cpp:362-405 | the rows are those of the items, in name order, each with the sum of its items' counts and their merged hierarchy; the counts sum to the items' modulo 2^64 |
| `CoverFile.RecordFind` | ext/verilator-4.034-src/include/verilated_cov.cpp:396-404 | recording an item changes the row of its name only and keeps the order of the map |
| `CoverFile.Write` | ext/verilator-4.034-src/include/verilated_cov.cpp:348-415 | the text of the whole file |
| `CoverFile.ReadBack` | scripts/read_verilator_cov.py:6-16 | load_dat on a written file fails if and only if some row shows an apostrophe or nothing at all; otherwise it gives one table row for each row, in order |
| `CoverFile.ReadableRows` | scripts/read_verilator_cov.py:6-16 | no row is of that kind when no key, value or hierarchy has an apostrophe and every item has a pair that names its row |
| `CoverFile.ItemReadBack` | scripts/read_verilator_cov.py:6-16 | unless it fails, for every item the table has a row with its short keys and escaped values, the total count and the merged hierarchy |

## Left out

- WideDiv.ModDiv: the operands' scratch arrays bound the width at 16 words, the source's `VL_MULS_MAX_WORDS`, and the output must not be an input; both are what the source needs.
- WideSigned.DivSigned: operands are taken clean, as the emitter guarantees; so for the other signed functions and the right shifts.
- WideShift.ShiftRightSigned: the operand's width lbits is the result's width obits, as the emitter gives it; the source reads the sign at lbits.
- Decimal.DecimalOf: widths up to 8192 bits, the size of the source's scratch array.
- StreamFast.StreamFastWord: the 64-bit variants of the stream operator are left out, they repeat the one-word forms at twice the width; slices are not wider than the operand, as the source's comment demands.
- Stream.StreamWide: the slice size is at least 1; the wrap-around of the position for sizes near 2^32 is not modelled.
- MemFormat.SetData: on up to 64 bits the element is computed as one number and stored in one or two words instead of 8-, 16-, 32- and 64-bit objects; a binary file has no unknown digits.
- MemFile.ReadMem: in hexadecimal, the only format the writer produces; an unknown digit gets an arbitrary value, drawn once for the check and once for the data as in the source. A fatal error stops the model, and line numbers for messages are left out.
- MemFile.WriteAssoc: keys are 64-bit addresses, iterated in ascending order as the map does.
- MemFile.AssocReadBackIff: fewer than 2^64 entries are printed, which a container in memory cannot exceed.
- Minimizer.TestCase.Minimize: running the target is a deterministic predicate on inputs; whether a run timed out or crashed, hash collisions of the trace and all statistics are left out.
- CoverageIndex.Fuzzer.UpdateBitmapScore: queue entries are records in a sequence and pointers to them are positions; an entry that is scored again covers the same slots; the product of time and length is taken modulo 2^64 as in the code.
- CoverageIndex.Fuzzer.CullQueue: marking redundant entries on disk is left out.
- Dictionary.OverwriteStage: chance and the effector map are an arbitrary predicate; that the token lists are sorted is required, the C library's sort is not modelled; statistics are left out.
- Dictionary.InsertStage: the last turn of the outer loop copies one byte from behind the buffer that is never used; the model omits that copy.
- ForkServer.InvAfter: four-byte pipe messages are atomic, the peer's bytes are not; start-up failures, process creation, run-once mode and the performance map are left out. Lengths are below 2^31, the property of the peer under which the claim is stated is that its answers fit the map.
- EvalMsgQueue.NeverFails: fewer than 2^64 messages are flushed in all; callbacks do not post.
- SaveRestore.Restore.Fill: hard I/O errors, which end the program, are left out; a schedule of partial or interrupted calls is finite and then makes progress.
- Serialize.RoundTrip: floating-point values are their bytes; wide keys and values are integers of their byte width.
- CoverFile.Write: names are strings instead of interned indexes; the page name derived from the file name is passed in; the bound of 33 keys is not used.
- CoverFormat.LineRoundTrip: of Python's `int` only blanks in front of decimal digits are modelled, which is all the writer prints.
- `VL_POWSS_WWW`, `VlQueue`, file-descriptor tables, time formatting, plusargs, tracing and the DPI and VPI interfaces.
- AFL's random stages, splicing, scoring by performance, bit-flip filters, synchronization and user interface.
