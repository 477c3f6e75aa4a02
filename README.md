# ComputerSimulator core in Dafny

ComputerSimulator is a teaching simulator of a 20-bit word machine. This project models its data
path and memory system, and proves properties of the model:

- `Unit`, an N-bit value (1 to 32 bits) kept as a binary string of its two's-complement
  digits, and `Word`, the 20-bit machine word;
- the arithmetic logic unit, with its string adder `addBinary`, its decoder `bTD`, its
  add/subtract and its four condition flags;
- the two single-port memories, `MemoryControlUnit` (8 banks of 256 words, a fetch or store
  takes one clock cycle and the unit is busy for the next one) and the older `MemoryUnit`;
- the fully associative, write-back, least-recently-used `Cache` of eight 32-word blocks;
- the `BranchPredictor` tables: last outcome, descriptor, branch count and correct count per PC;
- the decimal-digit ripple adder `addBinary` of the test program `ArchitectureProg`;
- the PHP card encoder `doc/encoder.php`. It turns text lines into a listing of 20-digit
  cards, two characters per card, each with a sequence number and a readable annotation.

The modules follow the source's classes:

| module | file | models |
|---|---|---|
| `Wrappers` | wrappers.dfy | Option, Result and the Java exceptions the core throws |
| `Binary` | binary.dfy | bit strings and their values, powers of two, decimal text |
| `JavaInt` | java_int.dfy | 32-bit wrap-around, truncating `/` and `%`, `parseInt`/`parseLong` in radix 2, `toBinaryString` |
| `Units` | units.dfy | `Unit` |
| `Words` | words.dfy | `Word` |
| `Alu` | alu.dfy | `ArithmeticLogicUnit` |
| `MemoryControl` | memory_control_unit.dfy | `MemoryControlUnit` |
| `Memory` | memory_unit.dfy | `MemoryUnit` |
| `Caching` | cache.dfy | `Cache` |
| `Branching` | branch_predictor.dfy | `BranchPredictor` |
| `Ripple` | ripple_adder.dfy | `ArchitectureProg.addBinary` |
| `Encoder` | encoder.dfy | `doc/encoder.php` |

Objects that the source updates in place are Dafny classes. Examples are `Unit`'s digit
string, the ALU's condition code, the memory arrays, the cache tables and the predictor's maps.
Every operation that loops in the source is a method with a loop. Each such method is
proved against a specification function: the encoder's `Listing`, the adders' `BinarySum` and
`ResultFrom`, the shift/rotate `Repeat`, and the cache's `View` of every block.

In a few places the model follows the code rather than the design documentation:

- The encoder keeps the full `decbin` text of each character code, padded to seven digits. A
  code of 128 or more therefore gives eight or more digits; nothing reduces it modulo 128.
- The encoder packs the first character of a pair in front of the second, although the code's
  comment calls the layout "little endian".
- `add` and `subtract` decode the sum string with `bTD`. That reads a carry-out digit as the
  sign, not as a discarded carry. Neither sign-extends the narrower operand, so a negative
  operand narrower than the other one is read as a large positive one (see Findings).

## Model

| member | source | states |
|---|---|---|
| `JavaInt.ToInt32` | src/computersimulator/components/Unit.java:98-100 | `Long.intValue`: the result is an int congruent to x modulo 2^32, and x itself when x is already an int |
| `JavaInt.ToInt32LowBits` | src/computersimulator/components/Unit.java:154-163 | wrapping to 32 bits keeps the low n ≤ 32 binary digits |
| `JavaInt.DivRemNonNegative` | src/computersimulator/cpu/MemoryControlUnit.java:171-189 | Java's truncating / and % agree with Euclidean division on a non-negative dividend and positive divisor |
| `JavaInt.ParseInt` | src/computersimulator/components/Word.java:26-39 | `Integer.parseInt(s, 2)`: for a bit string, succeeds exactly when its value fits in an int, and then returns that value; every success is an int |
| `JavaInt.ParseLong` | src/computersimulator/components/Unit.java:102-104 | `Long.parseLong(s, 2)`: for a bit string, succeeds exactly when its value fits in a long, and returns it |
| `JavaInt.ToBinaryString` | src/computersimulator/components/Unit.java:85-92 | `Integer.toBinaryString`: 1 to 32 bits whose 32-bit reading is x; a negative x gives 32 digits with a leading 1, a non-negative x its plain binary value |
| `JavaInt.NonNegativeBinary` | src/computersimulator/components/Unit.java:85-92 | the binary text of a non-negative int has at most 32 digits and reads back as the int |
| `JavaInt.NegativeBinary` | src/computersimulator/components/Unit.java:85-92 | the text of a negative int has 32 digits, a leading 1, and reads back as the int |
| `Binary.NatToBinary` | doc/encoder.php:25 | `decbin`: a bit string without leading zeros whose value is n ("0" for zero) |
| `Binary.NatToBinaryLength` | doc/encoder.php:25-26 | a positive n has at most k binary digits exactly when n < 2^k |
| `Binary.PadLeft` | doc/encoder.php:26 | `str_pad(…, STR_PAD_LEFT)`: the result is the width, or the input when it is already longer |
| `Binary.PadLeftShape` | doc/encoder.php:26 | padding puts only pad characters in front and keeps the input as the suffix |
| `Binary.LowBitsValue` | src/computersimulator/components/Unit.java:154-163 | the n low digits of x have the value x mod 2^n |
| `Binary.LowBitsOfDigits` | src/computersimulator/components/Unit.java:154-163 | reading a digit array and taking its low digits again gives back the array |
| `Binary.ElementsTextOfDigits` | src/computersimulator/components/Unit.java:248-254 | joining a 0/1 array's decimal texts gives one bit character per element, with the array's value |
| `Binary.RemoveSpaces` | src/computersimulator/components/Word.java:26-39 | the result has no space and is no longer than the text; a text without spaces is unchanged |
| `Binary.RemoveSpacesKeeps` | src/computersimulator/components/Word.java:26-39 | the result holds every non-space character of the text exactly as often as the text does, and no space |
| `Binary.RemoveSpacesSplit` | src/computersimulator/components/Unit.java:55-70 | removing spaces distributes over concatenation |
| `Binary.SignedExtend` | src/computersimulator/components/Unit.java:55-70 | repeating the sign digit in front does not change the two's-complement reading |
| `Binary.NatToDecimalDigits` | doc/encoder.php:42 | `strval` of a natural number: decimal digits whose value is n, one digit exactly when n < 10 |
| `Units.UnitMax` | src/computersimulator/components/Unit.java:29-30 | MAX_VALUE: 2^(size-1) - 1, at least 1 (so 1 for a one-bit Unit), never beyond the int maximum |
| `Units.UnitMin` | src/computersimulator/components/Unit.java:31-32 | MIN_VALUE: the negation of MAX_VALUE |
| `Units.Unit.Make` | src/computersimulator/components/Unit.java:22-36 | a new Unit of a valid size and value holds `toBinaryString(value)` and reads back as value |
| `Units.Unit.Create` | src/computersimulator/components/Unit.java:22-36 | the constructor succeeds exactly when the size is 1..32 and the value is within MIN_VALUE..MAX_VALUE; otherwise ArithmeticException |
| `Units.Unit.Copy` | src/computersimulator/components/Unit.java:43-48 | the copy has the same size and the same digit string |
| `Units.Unit.Value` | src/computersimulator/components/Unit.java:98-104 | `getValue` always returns an int: `Long.parseLong` of the digits narrowed by `intValue` |
| `Units.Unit.SetValue` | src/computersimulator/components/Unit.java:85-92 | succeeds exactly when the value is in range, and then stores its binary text and reads back as it; otherwise the Unit is unchanged |
| `Units.Unit.GetBinaryArray` | src/computersimulator/components/Unit.java:154-163 | an array of exactly `size` 0/1 digits: the low digits of the value, most significant first |
| `Units.Unit.LowBitsArray` | src/computersimulator/components/Unit.java:155-160 | the loop's array holds the n low binary digits of the value |
| `Units.Unit.IntArrayToBinaryString` | src/computersimulator/components/Unit.java:248-254 | the elements' decimal texts concatenated in order |
| `Units.Unit.GetBinaryString` | src/computersimulator/components/Unit.java:243-246 | exactly `size` bits whose value is the Unit's value mod 2^size |
| `Units.Unit.SetValueBinary` | src/computersimulator/components/Unit.java:260-272 | an equal-length string is stored as given, a longer one keeps its last `size` digits, a shorter one changes nothing; only the empty string reports failure |
| `Units.Unit.SetValueBinaryArray` | src/computersimulator/components/Unit.java:169-171 | a digit array of the Unit's width becomes its digit string |
| `Units.Unit.MoveTowardFront` | src/computersimulator/components/Unit.java:184-187 | every element moves one place toward the front, and the given digit enters at the back |
| `Units.Unit.MoveTowardBack` | src/computersimulator/components/Unit.java:196-199 | every element moves one place toward the back, and the given digit enters at the front |
| `Units.Unit.StepOnce` | src/computersimulator/components/Unit.java:179-237 | one shift or rotate step: the new digits are `Step` of the old ones |
| `Units.Unit.RepeatCount` | src/computersimulator/components/Unit.java:179-237 | count > 0 steps give `Repeat` of the step; count ≤ 0 leaves the Unit unchanged |
| `Units.Unit.ShiftByCount` | src/computersimulator/components/Unit.java:179-205 | shifts the digits count places left, or right with sign fill (arithmetic) or zero fill (logical); count ≤ 0 changes nothing |
| `Units.Unit.RotateByCount` | src/computersimulator/components/Unit.java:212-237 | rotates the digits count places left or right; count ≤ 0 changes nothing |
| `Units.ShiftLeftRepeat` | src/computersimulator/components/Unit.java:179-205 | after k left shifts, digit i is old digit i+k, or 0 past the end |
| `Units.ShiftRightRepeat` | src/computersimulator/components/Unit.java:179-205 | after k right shifts, digit i is old digit i-k; the vacated places hold the old sign digit (arithmetic) or 0 (logical) |
| `Units.RotateLeftRepeat` | src/computersimulator/components/Unit.java:212-237 | after k left rotations, digit i is old digit (i+k) mod size |
| `Units.RotateRightRepeat` | src/computersimulator/components/Unit.java:212-237 | after k right rotations, digit i is old digit (i-k) mod size |
| `Units.RotatePermutes` | src/computersimulator/components/Unit.java:212-237 | rotation permutes the digits: the multiset is unchanged |
| `Units.RotateRightUndoesLeft` | src/computersimulator/components/Unit.java:212-237 | rotating right k places undoes rotating left k places |
| `Units.RotateByWidth` | src/computersimulator/components/Unit.java:212-237 | rotating by the Unit's width in either direction is the identity |
| `Units.Unit.ExactWidthReading` | src/computersimulator/components/Unit.java:98-104 | a full-width Unit narrower than 32 bits reads as the unsigned value of its digits |
| `Units.DigitsOfStoredText` | src/computersimulator/components/Unit.java:169-171 | storing a digit array's text and reading the digits back gives the array |
| `Units.Unit.AppendRange` | src/computersimulator/components/Unit.java:116-118 | the loop joins the digits from start to stop inclusive |
| `Units.Unit.FieldUnit` | src/computersimulator/components/Unit.java:120-124 | the field becomes a Unit of its width exactly when its unsigned value fits that width's MAX_VALUE |
| `Units.Unit.DecomposeByOffset` | src/computersimulator/components/Unit.java:112-125 | a sub-Unit of the digits start..stop holding their unsigned value; start > stop gives NumberFormatException, an index out of range gives IndexOutOfBoundsException, a field too large for its width fails |
| `Units.Unit.DecomposeByIndex` | src/computersimulator/components/Unit.java:132-147 | a one-bit Unit holding digit index; an index out of range gives IndexOutOfBoundsException |
| `Units.Unit.UnitFromBinaryString` | src/computersimulator/components/Unit.java:55-70 | the spaces are removed and a Unit as wide as the rest is built, holding its two's-complement reading; this succeeds exactly when the width is 1..32 and that reading is in range |
| `Words.WordMax` | src/computersimulator/components/Word.java:10-18 | a Word's MAX_VALUE is 0x7FFFF |
| `Words.NewWord` | src/computersimulator/components/Word.java:16-18 | `new Word(v)` succeeds exactly for -0x7FFFF ≤ v ≤ 0x7FFFF, and holds v in 20 bits; otherwise ArithmeticException |
| `Words.NewZeroWord` | src/computersimulator/components/Word.java:12-14 | `new Word()` is a 20-bit Word holding 0 |
| `Words.WordAboveConstructorRange` | src/computersimulator/components/Unit.java:260-272 | a Word whose digits were set to 1 followed by nineteen 0s holds 0x80000, beyond what `new Word(v)` accepts |
| `Words.ParseWord` | src/computersimulator/components/Word.java:36-37 | a bit string gives a Word value exactly when its unsigned value is at most 0x7FFFF, and then that value |
| `Words.WordValue` | src/computersimulator/components/Word.java:26-39 | with the spaces removed, the bits give their unsigned value when it is at most 0x7FFFF |
| `Words.TwentyDigits` | src/computersimulator/components/Word.java:26-39 | twenty bits are accepted exactly when the leading digit is 0 |
| `Words.SpacesIgnored` | src/computersimulator/components/Word.java:26-39 | a space inside the readable text does not change the Word read |
| `Words.WordFromBinaryString` | src/computersimulator/components/Word.java:26-39 | succeeds, and with the same exception fails, exactly as `WordValue`; a success is a fresh 20-bit Word holding that value |
| `Alu.SumCarryValue` | src/computersimulator/cpu/ArithmeticLogicUnit.java:198-212 | the digit-wise sum string plus twice the carry string equals the sum of the operands |
| `Alu.IndexOfOne` | src/computersimulator/cpu/ArithmeticLogicUnit.java:183-214 | `indexOf('1')`: -1 exactly when there is no 1, otherwise the first 1 |
| `Alu.BinarySum` | src/computersimulator/cpu/ArithmeticLogicUnit.java:183-214 | the reference value of addBinary: the sum in binary without leading zeros; when the sum is 0, the first operand |
| `Alu.BinarySumOfZero` | src/computersimulator/cpu/ArithmeticLogicUnit.java:184-190 | added to a string without a 1, a string keeps its value with its leading zeros stripped (or stays as it is when it is all zeros) |
| `Alu.BinarySumValue` | src/computersimulator/cpu/ArithmeticLogicUnit.java:183-214 | the value of the sum string is the sum of the operands' values |
| `Alu.SumLength` | src/computersimulator/cpu/ArithmeticLogicUnit.java:183-214 | the sum string is a bit string at most one digit longer than the longer operand |
| `Alu.StripLeadingZeros` | src/computersimulator/cpu/ArithmeticLogicUnit.java:184-190 | cutting a bit string at its first 1 keeps its value and gives its canonical binary text |
| `Alu.AddBinary` | src/computersimulator/cpu/ArithmeticLogicUnit.java:183-214 | the recursive sum/carry rounds return `BinarySum`: the exact sum of the two bit strings |
| `Alu.NextRound` | src/computersimulator/cpu/ArithmeticLogicUnit.java:198-213 | one round of sum and shifted carry keeps the total, and strictly raises the carry's lowest set bit, so the recursion ends |
| `Alu.PrependZeros` | src/computersimulator/cpu/ArithmeticLogicUnit.java:192-197 | the loop puts count zeros, or none when count ≤ 0, in front of the string |
| `Alu.SumAndCarry` | src/computersimulator/cpu/ArithmeticLogicUnit.java:198-212 | the loop builds the digit-wise sum string and the carry string shifted one place left |
| `Alu.Saturate` | src/computersimulator/cpu/ArithmeticLogicUnit.java:140-154 | the `(int)` cast of a double: an int, equal to its argument when that is already an int, the int maximum above that and the int minimum below |
| `Alu.SaturatedReading` | src/computersimulator/cpu/ArithmeticLogicUnit.java:140-154 | what bTD returns is always an int |
| `Alu.SaturatedReadingShort` | src/computersimulator/cpu/ArithmeticLogicUnit.java:140-154 | on up to 32 bits, bTD is the two's-complement reading of the string |
| `Alu.SaturatedReadingCarryOut` | src/computersimulator/cpu/ArithmeticLogicUnit.java:140-154 | a 33-digit string with a leading 1 decodes to the int minimum |
| `Alu.BinaryToDecimal` | src/computersimulator/cpu/ArithmeticLogicUnit.java:140-154 | the loop from the last digit to the first computes `SaturatedReading` of the bit string |
| `Alu.OneBitText` | src/computersimulator/cpu/ArithmeticLogicUnit.java:163-173 | for size > 0, size+1 digits with value 1 (a single 1 in the last place); empty otherwise |
| `Alu.CreateOneBitString` | src/computersimulator/cpu/ArithmeticLogicUnit.java:163-173 | the loop builds `OneBitText(size)` |
| `Alu.ComplementValue` | src/computersimulator/cpu/ArithmeticLogicUnit.java:86-92 | inverting every digit gives 0/1 digits whose value plus the original's is 2^n - 1 |
| `Alu.Invert` | src/computersimulator/cpu/ArithmeticLogicUnit.java:87-89 | the loop replaces every digit by its complement, in place |
| `Alu.InvertedBits` | src/computersimulator/cpu/ArithmeticLogicUnit.java:86-92 | operand2's inverted digits as a bit string of its width |
| `Alu.NegativeOperand` | src/computersimulator/cpu/ArithmeticLogicUnit.java:86-96 | the inverted digits plus the one-bit string: a bit string at most one digit wider than operand2 |
| `Alu.SubtractionSum` | src/computersimulator/cpu/ArithmeticLogicUnit.java:86-99 | the negated operand2 plus operand1's bits, at most 34 digits |
| `Alu.ArithmeticLogicUnit.constructor` | src/computersimulator/cpu/ArithmeticLogicUnit.java:22-24 | the condition code is a fresh 4-bit Unit holding 0 |
| `Alu.ArithmeticLogicUnit.SetCondition` | src/computersimulator/cpu/ArithmeticLogicUnit.java:35-44 | sets exactly the named flag digit to 1 |
| `Alu.ArithmeticLogicUnit.UnsetCondition` | src/computersimulator/cpu/ArithmeticLogicUnit.java:51-60 | sets exactly the named flag digit to 0 |
| `Alu.ArithmeticLogicUnit.ClearConditions` | src/computersimulator/cpu/ArithmeticLogicUnit.java:65-67 | all four flags become 0 |
| `Alu.ArithmeticLogicUnit.Finish` | src/computersimulator/cpu/ArithmeticLogicUnit.java:101-108 | sets only the overflow flag, and only when the sum string is longer than the result width; the result Unit exists exactly when bTD's value fits that width, and then holds it |
| `Alu.ArithmeticLogicUnit.Add` | src/computersimulator/cpu/ArithmeticLogicUnit.java:118-132 | add as written: the result is bTD of the exact sum string of the operands' bits, in a Unit as wide as the wider operand; overflow is flagged exactly when the sum string is longer than that width |
| `Alu.ArithmeticLogicUnit.Subtract` | src/computersimulator/cpu/ArithmeticLogicUnit.java:85-109 | subtract as written: bTD of (inverted operand2 plus the one-bit string) plus operand1, with the same flag and range rule |
| `Alu.OnePlusOneInFiveBits` | test/computersimulator/cpu/ArithmeticLogicUnitTest.java:38-45 | counterexample: 1 + 1 in five bits gives the sum string "10", which bTD reads as -2, while the intended two's-complement sum is 2 |
| `Alu.MinusOnePlusOneMixedWidths` | src/computersimulator/cpu/ArithmeticLogicUnit.java:118-127 | counterexample: -1 in four bits plus 1 in eight bits gives the sum string "10000", which bTD reads as -16, an eight-bit value, although the sum is 0 |
| `Alu.ThreeMinusOneInFiveBits` | src/computersimulator/cpu/ArithmeticLogicUnit.java:85-108 | counterexample: 3 - 1 in five bits negates 00001 to "11111" and gives the sum string "100010", which bTD reads as -30, outside the five-bit range, so subtract fails; the low five digits read 2 |
| `Binary.SignExtendedValue` | src/computersimulator/cpu/ArithmeticLogicUnit.java:111-132 | widening a bit string to the common width by repeating its first digit gives a bit string of that width with the same two's-complement reading |
| `Binary.FlippedValue` | src/computersimulator/cpu/ArithmeticLogicUnit.java:86-89 | turning over the n digits of a string gives 2^n - 1 minus its reading |
| `Binary.EqualInRange` | src/computersimulator/cpu/ArithmeticLogicUnit.java:111-132 | two values of the two's-complement range of n digits that differ by a multiple of 2^n are equal |
| `Units.Unit.TwosReading` | src/computersimulator/components/Unit.java:154-163 | a Unit's bit array is a bit string of its width, and when the value lies in the two's-complement range of the width that string reads back as the value |
| `Alu.Negated` | src/computersimulator/cpu/ArithmeticLogicUnit.java:86-96 | the digits turned over plus one: a bit string whose reading plus the original's is 2^width |
| `Alu.SignedRange` | src/computersimulator/cpu/ArithmeticLogicUnit.java:140-154 | a string of n ≥ 1 digits, its first digit read as the sign, reads within the signed range of n digits |
| `Alu.WrappedReading` | src/computersimulator/cpu/ArithmeticLogicUnit.java:101-108 | the corrected decoding of a sum string: its low `size` digits (zero-filled in front when shorter) read in two's complement, so the carry out is dropped; always within the signed range of the width |
| `Alu.WrappedReadingOffset` | src/computersimulator/cpu/ArithmeticLogicUnit.java:101-108 | that decoding differs from the sum string's unsigned reading by a multiple of 2^width |
| `Alu.ExtendedSumOffset` | src/computersimulator/cpu/ArithmeticLogicUnit.java:118-122 | sign-extended to the common width, two bit strings add to a string whose unsigned reading is the sum of their two's-complement readings plus a multiple of 2^width |
| `Alu.ExtendedDifferenceOffset` | src/computersimulator/cpu/ArithmeticLogicUnit.java:85-99 | with the second string negated in the common width, the sum string reads as the difference of the two's-complement readings plus a multiple of 2^width |
| `Alu.WrappedSumOffset` | src/computersimulator/cpu/ArithmeticLogicUnit.java:111-132 | add as its comment promises, on bit strings: sign-extended to the common width and added, the decoded result is congruent to the sum of the strings' two's-complement readings modulo 2^width |
| `Alu.WrappedDifferenceOffset` | src/computersimulator/cpu/ArithmeticLogicUnit.java:79-109 | subtract as its comment promises, on bit strings: the decoded result is congruent to the difference of the strings' two's-complement readings modulo 2^width |
| `Alu.WrappedSumExact` | src/computersimulator/cpu/ArithmeticLogicUnit.java:111-132 | when both readings lie in their widths' signed ranges and their sum in the common width's range, the decoded result is exactly the sum |
| `Alu.WrappedDifferenceExact` | src/computersimulator/cpu/ArithmeticLogicUnit.java:79-109 | when both readings lie in their widths' signed ranges and their difference in the common width's range, the decoded result is exactly the difference |
| `Alu.UnitsSum` | src/computersimulator/cpu/ArithmeticLogicUnit.java:111-132 | on two Units: the corrected add's sum string, decoded in the wider width, is op1 + op2 whenever both values lie in their widths' signed ranges and the sum in the wider one |
| `Alu.UnitsDifference` | src/computersimulator/cpu/ArithmeticLogicUnit.java:79-109 | on two Units: the corrected subtract's sum string, decoded in the wider width, is op1 - op2 under the same range conditions |
| `Alu.WrappedSumText` | src/computersimulator/cpu/ArithmeticLogicUnit.java:118-121 | the corrected add's sum string: addBinary of both operands' bit strings sign-extended to the wider width |
| `Alu.WrappedDifferenceText` | src/computersimulator/cpu/ArithmeticLogicUnit.java:85-99 | the corrected subtract's sum string: the second operand's sign-extended string negated, plus the first's |
| `Alu.ArithmeticLogicUnit.FinishWrapped` | src/computersimulator/cpu/ArithmeticLogicUnit.java:101-108 | sets only the overflow flag, and only when the sum string is longer than the width; the result Unit exists exactly when the low digits' two's-complement reading fits the Unit range, and then holds it |
| `Alu.ArithmeticLogicUnit.AddWrapped` | src/computersimulator/cpu/ArithmeticLogicUnit.java:111-132 | add as its comment promises: the result is the sign-extended sum string decoded in the wider width (congruent to op1 + op2 modulo 2^width by `Alu.WrappedSumOffset`); for operands in their widths' signed ranges whose sum is in the wider one, it exists exactly when op1 + op2 is in the Unit range, and then is op1 + op2; the overflow flag rule is add's |
| `Alu.ArithmeticLogicUnit.SubtractWrapped` | src/computersimulator/cpu/ArithmeticLogicUnit.java:79-109 | subtract as its comment promises: the result is the decoded sum of operand1 and operand2 negated in the wider width (congruent to op1 - op2 modulo 2^width by `Alu.WrappedDifferenceOffset`); for operands in their widths' signed ranges whose difference is in the wider one, it exists exactly when op1 - op2 is in the Unit range, and then is op1 - op2; the overflow flag rule is subtract's |
| `Alu.LowTwoInFiveDigits` | test/computersimulator/cpu/ArithmeticLogicUnitTest.java:38-45 | the low five digits of "10" and of "100010" are "00010", which reads 2: the corrected decoding of 1 + 1 and of 3 - 1 in five bits |
| `Ripple.RippleSum` | test/computersimulator/cpu/ArchitectureProg.java:42-50 | the right-to-left column loop gives a result with value (x + y) mod 2^w, and a carry exactly when x + y ≥ 2^w |
| `Ripple.PaddedValue` | test/computersimulator/cpu/ArchitectureProg.java:29-39 | padding the shorter operand with leading zeros keeps its value |
| `Ripple.PaddedDigits` | test/computersimulator/cpu/ArchitectureProg.java:29-43 | after padding, every column holds a decimal digit exactly when both operands are decimal |
| `Ripple.AddBinary` | test/computersimulator/cpu/ArchitectureProg.java:25-58 | a non-decimal character makes `parseInt` throw NumberFormatException; otherwise the result is the column sums mod 2, as wide as the wider operand, and overflow is the final carry |
| `Ripple.AddBinaryValue` | test/computersimulator/cpu/ArchitectureProg.java:25-58 | on bit strings, the result is the sum mod 2^width, and overflow is reported exactly when the sum does not fit the width |
| `Ripple.OnesPlusOnes` | test/computersimulator/cpu/ArchitectureProg.java:88 | adding a string of 1s to itself gives 1…10 of the same width, with a carry out |
| `Ripple.NineOnes` | test/computersimulator/cpu/ArchitectureProg.java:88 | the test case 111111111 + 111111111 gives 111111110 and overflows |
| `MemoryControl.TwoCyclesToIdle` | src/computersimulator/cpu/MemoryControlUnit.java:56-80 | any state is idle after two cycles; a busy unit after one; the unit is busy after one cycle exactly when a store or fetch was requested |
| `MemoryControl.LocateExactly` | src/computersimulator/cpu/MemoryControlUnit.java:171-189 | only addresses 0..255 reach memory, in bank 0 at cell a; the engineer's access decodes the same way |
| `MemoryControl.MemoryControlUnit.constructor` | src/computersimulator/cpu/MemoryControlUnit.java:36-44 | every cell of the 8×256 memory holds 0, both registers hold 0, and the unit is idle |
| `MemoryControl.MemoryControlUnit.InitializeMemoryToZero` | src/computersimulator/cpu/MemoryControlUnit.java:272-278 | every cell becomes 0 |
| `MemoryControl.MemoryControlUnit.SetMBR` | src/computersimulator/cpu/MemoryControlUnit.java:96-109 | refused exactly while busy, changing nothing; otherwise the MBR takes the word and a store is requested; MAR and memory are unchanged |
| `MemoryControl.MemoryControlUnit.SetMBRFromUnit` | src/computersimulator/cpu/MemoryControlUnit.java:87-89 | `new Word(unit.getValue())` throws ArithmeticException exactly when the value is beyond ±0x7FFFF; otherwise as `SetMBR` |
| `MemoryControl.MemoryControlUnit.SetMAR` | src/computersimulator/cpu/MemoryControlUnit.java:124-137 | refused exactly while busy; otherwise the MAR takes the address and a fetch is requested; MBR and memory are unchanged |
| `MemoryControl.MemoryControlUnit.ClockCycle` | src/computersimulator/cpu/MemoryControlUnit.java:52-80 | moves to the next state; a requested store writes the MBR into exactly the addressed cell, a requested fetch loads that cell into the MBR, and nothing else changes |
| `MemoryControl.MemoryControlUnit.FetchAddressOperation` | src/computersimulator/cpu/MemoryControlUnit.java:227-241 | the MBR takes the addressed cell; a bad address is caught and leaves the MBR unchanged |
| `MemoryControl.MemoryControlUnit.StoreAddressInMemoryOperation` | src/computersimulator/cpu/MemoryControlUnit.java:248-260 | the addressed cell takes the MBR and every other cell is unchanged; a bad address changes nothing |
| `MemoryControl.MemoryControlUnit.EngineerFetchByMemoryLocation` | src/computersimulator/cpu/MemoryControlUnit.java:196-205 | returns the addressed cell, or IndexOutOfBoundsException exactly when the address does not decode |
| `MemoryControl.MemoryControlUnit.EngineerSetMemoryLocation` | src/computersimulator/cpu/MemoryControlUnit.java:212-219 | writes exactly the addressed cell; an address that does not decode gives IndexOutOfBoundsException and changes nothing |
| `MemoryControl.MemoryControlUnit.StoreThenFetch` | src/computersimulator/cpu/MemoryControlUnit.java:56-137 | a store into an address, two cycles, and then a fetch request for it return the stored word; the cell holds it and every other cell is unchanged |
| `Memory.LocateExactly` | src/computersimulator/cpu/MemoryUnit.java:160-171 | an address decodes exactly when 0 ≤ a < 64, to bank a / 8 and cell a |
| `Memory.LocateInjective` | src/computersimulator/cpu/MemoryUnit.java:160-171 | two addresses that reach memory reach the same cell exactly when they are equal |
| `Memory.MemoryUnit.constructor` | src/computersimulator/cpu/MemoryUnit.java:35-40 | every cell holds 0, both registers are null, and the unit is idle |
| `Memory.MemoryUnit.InitializeMemoryToZero` | src/computersimulator/cpu/MemoryUnit.java:233-239 | every cell becomes 0 |
| `Memory.MemoryUnit.SetMBR` | src/computersimulator/cpu/MemoryUnit.java:47-59 | refused exactly while busy, changing nothing; otherwise the MBR takes the word (or null) |
| `Memory.MemoryUnit.ClearMBR` | src/computersimulator/cpu/MemoryUnit.java:72-74 | the MBR becomes null; nothing else changes |
| `Memory.MemoryUnit.SetMAR` | src/computersimulator/cpu/MemoryUnit.java:81-94 | refused exactly while busy; otherwise the MAR takes the address (or null) |
| `Memory.MemoryUnit.ClockCycle` | src/computersimulator/cpu/MemoryUnit.java:126-153 | a busy unit becomes idle; an idle unit with an address fetches into an empty MBR or stores a full one into exactly the addressed cell; without an address nothing happens |
| `Memory.MemoryUnit.FetchAddressOperation` | src/computersimulator/cpu/MemoryUnit.java:179-192 | the MBR takes the addressed cell; a bad address leaves it unchanged |
| `Memory.MemoryUnit.StoreAddressInMemoryOperation` | src/computersimulator/cpu/MemoryUnit.java:199-210 | the addressed cell takes the MBR and every other cell is unchanged; a bad address changes nothing |
| `Memory.MemoryUnit.FetchThenIdle` | src/computersimulator/cpu/MemoryUnit.java:126-192 | an address with an empty MBR, then a cycle, fetch that cell's word, and memory is unchanged |
| `Memory.MemoryUnit.StoreThenFetch` | src/computersimulator/cpu/MemoryUnit.java:47-210 | a store of a word at an address, followed by a fetch of the same address, read back the stored word; every other cell is unchanged |
| `Caching.TagInjective` | src/computersimulator/cpu/Cache.java:295-297 | the "bank,start" tag names one block: equal tags mean equal blocks |
| `Caching.LastMatchExactly` | src/computersimulator/cpu/Cache.java:257-266 | no slot is found exactly when no slot has the tag; a found slot is the last one that has it |
| `Caching.FirstEmpty` | src/computersimulator/cpu/Cache.java:206-210 | the first slot never used, when there is one: every slot before it has been used |
| `Caching.OldestIsLeastRecent` | src/computersimulator/cpu/Cache.java:212-217 | the chosen slot has the smallest time stamp, and is the first slot with it |
| `Caching.CleanPreserves` | src/computersimulator/cpu/Cache.java:229-240 | freeing a slot, with the write-back of a dirty block, keeps the cache's tables consistent |
| `Caching.InstallPreserves` | src/computersimulator/cpu/Cache.java:186-199 | loading a block into a free slot keeps the tables consistent |
| `Caching.StorePreserves` | src/computersimulator/cpu/Cache.java:118-135 | writing a word into a cached block keeps the tables consistent |
| `Caching.Cache.constructor` | src/computersimulator/cpu/Cache.java:29-45 | every slot is empty, clean and never used; the location map is empty; every block reads as in main memory |
| `Caching.Cache.GetBlockLocation` | src/computersimulator/cpu/Cache.java:257-266 | the loop returns the last slot whose tag is t, or null |
| `Caching.Cache.IsBlockAvailable` | src/computersimulator/cpu/Cache.java:248-250 | true exactly when some slot has the tag |
| `Caching.Cache.TestWord` | src/computersimulator/cpu/Cache.java:177-180 | true exactly when some slot holds the address's block |
| `Caching.Cache.CleanBlock` | src/computersimulator/cpu/Cache.java:229-240 | the slot becomes empty, clean and unused; a dirty block is written back to its home location; its location entry becomes null; every block still reads the same |
| `Caching.Cache.GetFreeBlock` | src/computersimulator/cpu/Cache.java:205-223 | returns the first never-used slot, else the least recently used one after cleaning it; only that slot, its location entry and (for a dirty block) main memory change |
| `Caching.Cache.FetchBlock` | src/computersimulator/cpu/Cache.java:186-199 | the block replaces `GetFreeBlock`'s choice: that slot alone gets its tag, its words, a clean bit and a fresh stamp; the evicted block is written back if dirty; every block still reads the same |
| `Caching.Cache.FetchWord` | src/computersimulator/cpu/Cache.java:62-85 | a hit returns the block's word and refreshes only that slot's stamp; a miss returns null and loads the block as `FetchBlock` does |
| `Caching.Cache.EngineerFetchWord` | src/computersimulator/cpu/Cache.java:93-109 | returns the word that a reader sees; on a hit only that slot's stamp changes; on a miss the block is loaded into `Victim`'s slot as `FetchBlock` does and that slot is stamped again |
| `Caching.Cache.FetchThenRead` | src/computersimulator/cpu/Cache.java:97-107 | the miss path of engineerFetchWord: the `FetchBlock` tables, with the slot's stamp taken one tick later, and the word a reader saw |
| `Caching.Cache.StoreWord` | src/computersimulator/cpu/Cache.java:118-144 | a hit writes the word into the cached block, marks only that slot dirty and refreshes its stamp, leaving main memory alone; a miss reports false and loads the block |
| `Caching.Cache.EngineerStoreWord` | src/computersimulator/cpu/Cache.java:152-169 | on a hit only that slot changes: new stamp, dirty, and the word at the cell's offset; on a miss the block is loaded into `Victim`'s slot as `FetchBlock` does, then stamped, marked dirty and given the word; the block then reads with that one word changed and every other block reads the same |
| `Caching.Cache.FetchThenWrite` | src/computersimulator/cpu/Cache.java:156-168 | the miss path of engineerStoreWord: the `FetchBlock` tables, with the slot stamped one tick later, dirty, and holding the block with the word written |
| `Caching.Cache.ReadHit` | src/computersimulator/cpu/Cache.java:66-76 | returns the word at the cell's offset and stamps only the slot that holds the block |
| `Caching.Cache.WriteHit` | src/computersimulator/cpu/Cache.java:122-135 | writes the word at the cell's offset of the slot that holds the block, marks that slot dirty and stamps it |
| `Caching.Cache.Install` | src/computersimulator/cpu/Cache.java:189-195 | the slot gets the block's tag, its words, a clean bit and the current time; the location map records the block |
| `Caching.Cache.Touch` | src/computersimulator/cpu/Cache.java:74 | only that slot's stamp changes, to the current time |
| `Caching.Cache.Write` | src/computersimulator/cpu/Cache.java:129-132 | only that slot changes: its stamp, its dirty bit and the one word |
| `Branching.BranchPredictor.constructor` | src/computersimulator/cpu/BranchPredictor.java:30-39 | all four tables are empty |
| `Branching.BranchPredictor.BranchTaken` | src/computersimulator/cpu/BranchPredictor.java:45-55 | a PC without history or count gives NullPointerException; otherwise the history becomes taken, the count rises by one with 32-bit wrap, and a correct prediction (history was taken) raises the accuracy count |
| `Branching.BranchPredictor.BranchNotTaken` | src/computersimulator/cpu/BranchPredictor.java:61-71 | the same for a branch not taken; the accuracy count rises when the history was not taken |
| `Branching.BranchPredictor.SetBranchDescriptor` | src/computersimulator/cpu/BranchPredictor.java:73-83 | records the descriptor; a new PC starts with count 0 and accuracy 0, and a known PC keeps its counts |
| `Branching.BranchPredictor.SetInitialStatus` | src/computersimulator/cpu/BranchPredictor.java:89-93 | a PC without history starts as taken; an existing history is kept |
| `Branching.BranchPredictor.Register` | src/computersimulator/cpu/BranchPredictor.java:139-154 | what the scan does for one branch instruction: afterwards the PC is in every table, with its descriptor |
| `Encoder.TrimShape` | doc/encoder.php:19 | `trim` removes exactly the leading and trailing whitespace and NUL characters and keeps the middle |
| `Encoder.TrimNothing` | doc/encoder.php:19 | a line with nothing to trim is unchanged |
| `Encoder.Record` | doc/encoder.php:19-21 | every line's record has an even length of at least 2 |
| `Encoder.RecordShape` | doc/encoder.php:19-21 | a record is the trimmed line followed by one or two NUL characters |
| `Encoder.Stream` | doc/encoder.php:18-29 | the whole stream of characters has even length |
| `Encoder.StreamAppend` | doc/encoder.php:18-29 | one more input line appends its record to the stream |
| `Encoder.Bin7Shape` | doc/encoder.php:23-27 | each entry's `bin7` is a bit string with the character's code as its value, seven digits for a code below 128 and the plain eight digits for 128..255 |
| `Encoder.Collect` | doc/encoder.php:16-29 | the read loop collects one entry per character of the stream |
| `Encoder.AppendCodes` | doc/encoder.php:22-28 | the character loop appends one entry per character of the line |
| `Encoder.PadNeverFires` | doc/encoder.php:31 | the padding entry is never added, because the stream is always even |
| `Encoder.Drain` | doc/encoder.php:33-62 | the shift-and-emit loop emits one line per consecutive pair of entries, numbered from 0 |
| `Encoder.Encode` | doc/encoder.php:16-62 | the listing is `Listing` of the stream's entries: one card per pair, half as many lines as characters |
| `Encoder.ListingIndex` | doc/encoder.php:33-62 | line i of the listing is built from entries 2i and 2i+1 and carries the number i |
| `Encoder.ListingPrefix` | doc/encoder.php:16-62 | more input lines only extend the listing: the old listing is a prefix of the new one |
| `Encoder.FieldValue` | doc/encoder.php:41 | for two 7-bit characters, the card field is 20 bits with value 128·a + b |
| `Encoder.CardReadBack` | doc/encoder.php:41 | read back as a Word, a card's first 20 characters give 128·a + b, whose quotient and remainder by 128 are the two characters |
| `Encoder.LineStart` | doc/encoder.php:41-42 | each line starts with its card field |
| `Encoder.SequenceNumber` | doc/encoder.php:42 | after the field come four spaces and the four-digit, zero-padded sequence number |
| `Encoder.LineTail` | doc/encoder.php:42-45 | then ": ", each character if its code is above 20 (else a space), a space and a backslash |

## Left out

- Encoder.Stream: the model reads a line as Unicode characters, while PHP reads bytes. Text of characters below 256 gives the same entries. A multi-byte UTF-8 character, however, is one entry here but one entry per byte in PHP, so "é" gives code 233 here and codes 195 and 169 there. The number of entries, the `decbin` widths and the pairing differ for such text.
- Encoder.Annotation: the end of each line is "\n", PHP_EOL on Unix; other platforms end lines otherwise.
- Encoder.Encode: the file handling (opening strings.txt, `fgets` with its 4096-byte chunks, the error echo and writing output.txt) is left out. The lines arrive as a parameter and the listing is returned. A line longer than 4095 bytes, which `fgets` would split, therefore stays whole in the model.
- MemoryControl.MemoryControlUnit.SetMBR: the MBR, MAR and memory cells hold the Word's or Unit's integer value, not a reference to the caller's object. Java stores the reference in setMBR, setMAR and engineerSetMemoryLocation, so a later change to the caller's object would show through there and does not here.
- Memory.MemoryUnit.SetMBR: the same value-for-reference choice for the older memory unit's registers and cells.
- MemoryControl.MemoryControlUnit.SetMAR: the MAR is modelled as the address's integer value, not as a 13-bit Unit.
- MemoryControl.MemoryControlUnit: the getters getMBR and getMAR, and getMemoryMaxSize, only return fields and are not modelled.
- Caching.Cache.FetchWord: an address is given as its block and its cell, which `calculateBlockFromAddress` and `calculateActualMemoryLocation` of the memory control unit compute in Java. Those helpers, getCacheBlockStart, getCacheBlock and writeCacheBlock belong to a MemoryControlUnit version that is not part of this model.
- Caching.Cache: main memory behind the cache is a map from block to its 32 words, where a missing block reads as zeros. The cache's slots hold word values rather than Word objects, so aliasing between a slot and memory is not modelled.
- Caching.Cache: `System.currentTimeMillis` is a logical clock that rises by one at every stamp. Two stamps in the same millisecond, which in Java make the lower slot the victim, do not occur in the model.
- Caching.Cache.IsBlockAvailable: `isWordAvailable` (Cache.java:274-278) does what `testWord` does and is covered by `TestWord`.
- Caching.Cache, Alu.ArithmeticLogicUnit: the empty `clockCycle` methods do nothing and are not modelled; `getConditionCode` only returns a field.
- Branching.BranchPredictor.Register: `scanMemory` decodes each memory cell with the control unit. ControlUnit is not part of this model, so only the table update for one branch instruction found is modelled.
- Branching.BranchPredictor: `getPredictionTableForTextArea` formats the tables as text, with a floating-point rounded percentage. It is not modelled.
- Alu.BinaryToDecimal: `bTD` sums `Math.pow` doubles. The model takes that arithmetic as exact, followed by the saturating `(int)` cast. That is exact up to 1024 digits, which the requires asks for; add and subtract pass at most 34. It also requires a bit string: `bTD` would read any decimal digit with `parseInt`, but its only callers pass bits.
- JavaInt.ParseInt: only the ASCII digits '0' and '1' and a leading sign are accepted. Java also accepts other Unicode digit characters of value 0 or 1.
- Units.Unit: `toString` and `getSize` only report fields; `getUnsignedValue`, which the cache and the predictor call, is not in this Unit.java and is not modelled.
- Ripple.AddBinary: the "overflow occured" message is returned as the `overflow` flag.
- Ripple.AddBinary: only the ASCII digits '0' to '9' count as decimal. Java's `Integer.parseInt(c + "")` also accepts other Unicode decimal digits, such as '١' (Arabic-Indic one). The model reports such a character as NumberFormatException, where Java would add its digit value.
- Alu.ArithmeticLogicUnit.AddWrapped: the corrected add keeps the source's overflow rule, a sum string longer than the width. That is a carry out of the top digit, not two's-complement overflow; the contract states the rule as it is.
- Alu.ArithmeticLogicUnit.SubtractWrapped: the corrected subtract keeps the same overflow rule. It negates with a plain "1", because `createOneBitString(0)` is empty and a one-bit operand would not be negated.
- Alu.ArithmeticLogicUnit.AddWrapped: the contract gives the exact sum only when both values lie in their widths' signed ranges and the sum in the wider one. Beyond that it gives the decoded sum string, and the congruence of that result to op1 + op2 modulo 2^width is proved on the strings by `Alu.WrappedSumOffset`, not restated on the Units.
- Alu.ArithmeticLogicUnit.SubtractWrapped: likewise, the exact difference under the same range conditions; the congruence modulo 2^width is proved by `Alu.WrappedDifferenceOffset`.
- ArchitectureProg: `retrieve16LowHighOrderBits`, `retrieve20LowHighOrderBits` and `main` only print, and are not modelled.
- Console output in every class (the cache's trace, the memory's messages, `setValueBinary`'s warning) is left out.

## Findings

| source | as written | input that shows it | evidently intended | confidence | as-written member | corrected member |
|---|---|---|---|---|---|---|
| src/computersimulator/cpu/ArithmeticLogicUnit.java:118-154 | `add` decodes the whole sum string with `bTD`, whose leading digit is a sign digit. A sum one digit longer than the operands therefore reads its carry as a negative sign, and a shorter sum reads its first 1 as a sign. The narrower operand is not sign-extended. | 1 + 1 as five-bit Units (ArithmeticLogicUnitTest.java:38-45 expects "00010"): addBinary gives "10", which bTD reads as -2. -1 in four bits plus 1 in eight bits: "1111" + "00000001" gives "10000", read as -16 | the two's-complement sum of the operands in the wider operand's width, as add's comment says | not executed | `Alu.ArithmeticLogicUnit.Add`, `Alu.OnePlusOneInFiveBits`, `Alu.MinusOnePlusOneMixedWidths` | `Alu.ArithmeticLogicUnit.AddWrapped`, `Alu.WrappedSumOffset`, `Alu.WrappedSumExact`, `Alu.UnitsSum` |
| src/computersimulator/cpu/ArithmeticLogicUnit.java:85-108, 140-154 | `subtract` negates operand2 in its own width, adds operand1 without sign extension, and decodes the whole sum string with `bTD`. The carry out of the top digit, which every subtraction of a smaller non-negative value produces, is read as a negative sign. | 3 - 1 as five-bit Units: 00001 negates to "11111", plus 00011 gives "100010", which bTD reads as -30; that is outside the five-bit range, so `new Unit(5, -30)` throws | the two's-complement difference op1 - op2 in the wider operand's width, as subtract's comment says | not executed | `Alu.ArithmeticLogicUnit.Subtract`, `Alu.ThreeMinusOneInFiveBits` | `Alu.ArithmeticLogicUnit.SubtractWrapped`, `Alu.WrappedDifferenceOffset`, `Alu.WrappedDifferenceExact`, `Alu.UnitsDifference` |
