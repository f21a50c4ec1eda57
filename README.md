# Big-number arithmetic engine, modelled in Dafny

This project models the arithmetic core of a C library for signed decimal big integers. The C library stores a number as a doubly linked chain of decimal digits, most significant first. Each number record also holds a sign bit, a digit count and a cached parity bit.

The model covers these operations:

- parsing a number from text;
- addition and subtraction, which hand off to each other through a "switch" when the signs differ;
- schoolbook multiplication, which adds into a preallocated buffer in place;
- long division by repeated subtraction;
- exponentiation by squaring;
- Karatsuba multiplication.

It also covers the helpers these are built from:

- appending a digit at either end;
- magnitude comparison;
- sign and order selection for subtraction;
- leading-zero removal;
- partial copy.

The model keeps the C code's imperative form:

- Each record is a Dafny `class BigNumber` with fields `digits: seq<int>` (the chain `first_digit .. last_digit`), `isPositive`, `numDigits` and `isEven`. Methods update exactly the fields the C code writes, including the operand sign bits that the switch and the division overwrite.
- A node pointer into a chain is modelled as an index, and NULL as -1.
- Every C loop is a `while` loop with invariants.
- Each loop is proved against a ghost specification function: `CarryWalk`, `BorrowWalk`, `StripZeros`, `LexCmp`, `LongDivision`, `FitCount`/`FitRest`, `Pow` and `KaratsubaValue`. Lemmas then relate those functions to the integer operations: sum, difference, product, truncated quotient and power.

The files:

- `digits.dfy`, module `Digits`: the value theory. It covers the value of a digit sequence, normalisation, the comparison order and the canonical digits of a natural number.
- `numbers.dfy`, module `Numbers`: the record, the helpers from `auxiliar.c`, and `create_big_number`.
- `arithmetic.dfy`, module `Arithmetic`: the switch, addition and subtraction. They are mutually recursive, so they share one module.
- `products.dfy`, module `Products`: schoolbook multiplication and long division.
- `power.dfy`, module `Power`: `fast_exponentiation`.
- `karatsuba.dfy`, module `Karatsuba`: `multiply_karatsuba_big_numbers`, its value model, the proof that it multiplies correctly when every level of its recursion has an even larger digit count, the counterexample and the corrected algorithm.

Points of the code's behaviour that the model keeps as they are:

- The Karatsuba base case is one digit by one digit (bignumber.c:360).
- The Karatsuba split point `half` is the larger digit count `tam` divided by 2, rounded down (bignumber.c:367-368).
- The high Karatsuba product is shifted by `10^tam`, which is `10^(2*half)` only when tam is even (see Findings).
- Karatsuba gives the result no sign of its own.
- Parsing does not validate its input.
- The multiplication can return a negative zero.
- Division overwrites the operands' signs and does not restore them.
- The code has no remainder operation, so none is modelled.

Some contracts hold only when the operands are ordered correctly. The magnitude comparison ranks first by digit count and then digit by digit. It agrees with the value order on canonical operands, but not in general: `007` is ranked above `8`. The value contracts of addition and subtraction are therefore stated under `OrderAgrees`, which holds for all canonical operands (`CanonicalOrderAgrees`). What the code computes without it is stated as `BorrowDifference`, and `BorrowDifferenceWraps` shows `007 - 8` leaving `999`.

## Model

| member | source | states |
|---|---|---|
| Numbers.BigNumber.constructor | bignumber.c:40-45 | a new record is empty, positive and has 0 digits |
| Numbers.NormalisedSign | auxiliar.c:300-302 | for a normalised number (no leading zeros, zero positive), the sign bit is set exactly when the value is non-negative |
| Numbers.AddNodeToBigNumber | auxiliar.c:116-140 | a front insert puts the digit first and keeps the parity cache; an end insert puts it last and sets the cache from it; the count grows by 1; the sign is unchanged |
| Numbers.CompareModules | auxiliar.c:157-175 | the result is `Cmp` (longer wins, then the first differing digit); it is 0 exactly for identical digit sequences; for canonical operands it is the sign of the value difference |
| Numbers.CompareDigits | auxiliar.c:163-174 | on equal lengths the scanning loop returns the lexicographic comparison `LexCmp` |
| Numbers.DetermineSignInSubtraction | auxiliar.c:235-247 | for a positive x: |x| ranked above |y|; for a negative x: ranked below; equal magnitudes give false; for canonical operands this is whether x - y > 0 |
| Numbers.DetermineOrderOfSubtraction | auxiliar.c:263-275 | the pointers are swapped exactly when |x| is ranked below |y|; identical digits put one 0 in front of result and keep the pointers |
| Numbers.RemoveZerosFromLeft | auxiliar.c:289-303 | the digits become `StripZeros` of the old ones, with the value, the count cache and the parity cache kept; a lone 0 is forced positive; a valid number comes out normalised |
| Numbers.CopyBigNumber | auxiliar.c:324-344 | exactly tam digits are appended: the first tam (in_left false, parity cache from the last one copied) or the last tam in their order (in_left true) |
| Numbers.CopyFirstDigits | auxiliar.c:327-333 | dest gets `orig.digits[..tam]` appended at the end |
| Numbers.CopyLastDigits | auxiliar.c:334-340 | dest gets `orig.digits[|orig|-tam..]` in front, in order |
| Numbers.CreateBigNumber | bignumber.c:39-63 | a leading '-' clears the sign; every later character becomes one digit value (`c - '0'`) at the end; the count is the length less the sign; the parity cache follows the last digit; the number is valid when every such character is a digit |
| Numbers.CreateFromNat | auxiliar.c:305-322 | parsing the decimal text of n gives a normalised positive number of value n |
| Digits.StripZeros | auxiliar.c:290-298 | the result keeps the value and the last digit, is no longer than the input, and is canonical for decimal digits |
| Digits.StripZerosCanonical | auxiliar.c:290-298 | a canonical sequence is left unchanged |
| Digits.StripZerosIdempotent | auxiliar.c:289-303 | normalising twice is normalising once |
| Digits.LexCmp | auxiliar.c:166-174 | the equal-length comparison is in {-1, 0, 1} and is 0 exactly for equal sequences |
| Digits.Cmp | auxiliar.c:157-175 | the longer sequence ranks higher; the result is 0 exactly for equal sequences |
| Digits.CmpAntisymmetric | auxiliar.c:157-175 | compare(x, y) = -compare(y, x) |
| Digits.LexCmpAntisymmetric | auxiliar.c:166-174 | the digit-by-digit comparison is antisymmetric |
| Digits.CmpTransitive | auxiliar.c:157-175 | "ranked at least" is transitive |
| Digits.LexCmpTransitive | auxiliar.c:166-174 | the same for the digit-by-digit comparison |
| Digits.LexCmpIsValueOrder | auxiliar.c:166-174 | on equal lengths the digit-by-digit comparison is the sign of the value difference |
| Digits.CmpIsValueOrder | auxiliar.c:157-175 | on canonical operands the comparison is the sign of the value difference |
| Digits.CanonicalOrderAgrees | auxiliar.c:157-175 | canonical operands are ranked in value order, both ways |
| Digits.OrderAgreesWithOne | bignumber.c:341-342 | any positive digit sequence is ranked correctly against the digit 1 (the exponent minus one) |
| Digits.OrderDisagreesWithLeadingZeros | auxiliar.c:160-161 | 007 is ranked above 8 because it is longer |
| Digits.ValBounds | bignumber.h:6-18 | n decimal digits hold a value in [0, 10^n) |
| Digits.ValSplit | auxiliar.c:334-340 | the last t digits are the value mod 10^t; the others are the value div 10^t |
| Digits.CanonicalZero | auxiliar.c:300-302 | the only canonical sequence of value 0 is the lone 0 |
| Digits.NatToDigits | auxiliar.c:305-322 | the canonical digits of n are canonical and worth n |
| Digits.CanonicalIsNatToDigits | auxiliar.c:305-322 | a canonical sequence is determined by its value |
| Digits.CanonicalLength | bignumber.c:367-368 | a canonical sequence has `Len(value)` digits |
| Digits.NatToString | auxiliar.c:305-322 | the "%d" text of n has no sign and parses to the canonical digits of n |
| Digits.DigitChars | bignumber.c:54-59 | the characters of a digit sequence parse back to it |
| Digits.DigitValuesStep | bignumber.c:54-59 | reading one more character appends its digit value at the end |
| Arithmetic.SwitchToSumOrSubtraction | auxiliar.c:197-216 | both operands become positive with digits kept; the result has the given sign and the magnitude sum (tag other than "sub") or `BorrowDifference` of the magnitudes ("sub") |
| Arithmetic.AddMagnitudes | bignumber.c:149-167 | the loop leaves `CarryWalk` of the operands in the result |
| Arithmetic.CarryWalkStep | bignumber.c:160-163 | one column with the C's `sum / 10` and `sum % 10` is one step of the walk |
| Arithmetic.CarryWalkShape | bignumber.c:154-167 | the walk writes decimal digits, at least one per remaining column |
| Arithmetic.CarryWalkValue | bignumber.c:154-167 | what the walk writes is worth the two prefixes plus the carry, shifted past the digits already written |
| Arithmetic.CarryColumnValue | bignumber.c:157-163 | one column of that value invariant |
| Arithmetic.CarryWalkSum | bignumber.c:149-167 | the whole carry walk is worth Val(x) + Val(y) |
| Arithmetic.ColumnDigit | bignumber.c:161-162 | for a column sum in [0, 19] the carry is 0 or 1 and the digit is the sum less 10 times the carry |
| Arithmetic.AddSameSigns | bignumber.c:142-167 | the result has the common sign and is worth Val(x) + Val(y) |
| Arithmetic.AddOppositeSigns | bignumber.c:125-139 | identical digits give the lone positive 0 and stop, with the signs kept; otherwise both operands become positive and the result is the borrow difference under the sign of the higher-ranked operand |
| Arithmetic.FinishSum | bignumber.c:169-170 | the parity cache is set from the last digit and the result is normalised; the value is x + y when signs agree or the ranking is right |
| Arithmetic.SumBigNumbers | bignumber.c:121-173 | the result is fresh and normalised; its magnitude is `SumMagnitude` and its sign is `SumSign` (zero positive); operand signs are left positive exactly where the switch ran; with equal signs or correct ranking the value is x + y |
| Arithmetic.SumIsAddition | bignumber.c:121-173 | sign and magnitude of the sum give Signed(x) + Signed(y) whenever the signs agree or the ranking agrees with the values |
| Arithmetic.SubtractMagnitudes | bignumber.c:213-234 | the loop leaves `BorrowWalk` of the operands (the final borrow dropped) in front of what result held |
| Arithmetic.BorrowWalkStep | bignumber.c:221-230 | one column adds 10 and borrows 1 exactly when the subtraction goes below 0 |
| Arithmetic.BorrowWalkShape | bignumber.c:215-234 | one decimal digit per column of the longer operand; the borrow stays in {0, 1} |
| Arithmetic.BorrowWalkValue | bignumber.c:215-234 | what the walk writes, less the final borrow at the next place, is worth prefix(x) - prefix(y) - borrow |
| Arithmetic.BorrowColumnValue | bignumber.c:218-230 | one column of that value invariant |
| Arithmetic.BorrowWalkDifference | bignumber.c:215-234 | the whole walk writes |x| digits worth (Val(x) - Val(y)) mod 10^|x| |
| Arithmetic.OrderedBorrowWalk | bignumber.c:207-234 | ordering by the comparison (with the 0 from an equal pair) leaves `BorrowDifference` |
| Arithmetic.BorrowDifferenceIsDistance | auxiliar.c:263-269 | when the ranking agrees with the value order, the borrow walk is |Val(x) - Val(y)| |
| Arithmetic.BorrowDifferenceSymmetric | auxiliar.c:266-269 | swapping the operands does not change the walk's result |
| Arithmetic.BorrowDifferenceSelf | auxiliar.c:271-274 | identical operands leave 0 |
| Arithmetic.BorrowDifferenceWraps | auxiliar.c:160-161 | 007 - 8 leaves 999: with leading zeros the walk wraps |
| Arithmetic.SubtractSameSigns | bignumber.c:206-238 | the result is worth `BorrowDifference` with the determined sign, and its parity cache follows the last digit |
| Arithmetic.SubtractionBigNumbers | bignumber.c:199-243 | the result is fresh, normalised, parity right; magnitude `SubtractionMagnitude`, sign `SubtractionSign`; opposite signs leave both operands positive; with opposite signs or correct ranking the value is x - y |
| Arithmetic.SubtractionIsDifference | bignumber.c:199-243 | sign and magnitude give Signed(x) - Signed(y) when the signs differ or the ranking is right |
| Products.Zeros | bignumber.c:293-295 | the preallocated buffer is k zero digits, worth 0 |
| Products.CellUpdate | bignumber.c:303-308 | one cell write keeps the buffer bounds (one cell up to 18) and adds the digit product at the cell's place |
| Products.CellDigits | bignumber.c:303-308 | the buffer bounds are kept and the carry moves one cell toward the front |
| Products.CellWorth | bignumber.c:303-308 | the buffer's value grows by the digit product at the cell's weight |
| Products.RowCellStep | bignumber.c:302-309 | the row invariant survives one digit of y |
| Products.AccumulateRow | bignumber.c:300-311 | one row adds x[i] * Val(y) at the place of x's digit i, never running off the front; all cells end as decimal digits |
| Products.AccumulateRows | bignumber.c:297-312 | starting from |x| + |y| zeros the buffer ends as decimal digits worth Val(x) * Val(y) |
| Products.MultiplyBigNumbers | bignumber.c:287-317 | the result is canonical, worth Val(x) * Val(y), positive exactly when the signs agree (so a zero can be negative), and its signed value is x * y |
| Products.SignedProduct | bignumber.c:290 | "signs agree" is the sign of the product of signed values |
| Products.FitIsDivision | bignumber.c:265-273 | the count and what is left of repeated subtraction are a quotient and a remainder |
| Products.FitIsDivMod | bignumber.c:265-273 | so they are t / d and t % d |
| Products.FitCountDigit | bignumber.c:265-275 | below 10 d the count is at most 9, a decimal digit |
| Products.LongDivisionStep | bignumber.c:256-277 | one more dividend digit is one more step of long division |
| Products.DivisionColumn | bignumber.c:257-275 | one column keeps quotient * d + remainder = value and the remainder below d |
| Products.LongDivisionIsDivision | bignumber.c:254-277 | long division gives |xs| decimal quotient digits and a remainder in [0, d) with q * d + r = Val(xs) |
| Products.LongDivisionBounds | bignumber.c:254-277 | q * d <= Val(xs) < (q + 1) * d |
| Products.LongDivisionQuotient | bignumber.c:254-277 | the quotient is Val(xs) / d and the remainder Val(xs) % d |
| Products.TruncatedQuotientUnique | bignumber.c:245-285 | the truncated quotient is unique |
| Products.TruncatedQuotientOfNatural | bignumber.c:245-285 | for natural operands the truncated quotient is floor division |
| Products.SignedQuotient | bignumber.c:246 | the magnitudes' quotient under "signs agree" is the truncated quotient of the signed values |
| Products.LongDivisionIsTruncated | bignumber.c:254-282 | long division under "signs agree" gives the truncated quotient of the signed operands |
| Products.SubtractWhileFits | bignumber.c:265-273 | the count is `FitCount` and what is left is `FitRest` of the current dividend, below the divisor, still normalised and positive |
| Products.NextQuotientDigit | bignumber.c:265-275 | the count is appended as the quotient's last digit and sets its parity cache; the rest is below d |
| Products.BringDown | bignumber.c:257-258 | the current dividend becomes 10 times itself plus the digit, normalised |
| Products.DivideOneDigit | bignumber.c:256-276 | a zero divisor gives quotient [0] and stops; otherwise one step of `LongDivision` |
| Products.DivideDigits | bignumber.c:254-277 | a zero divisor gives quotient [0]; otherwise the quotient digits are `LongDivision` of the dividend |
| Products.SetSign | bignumber.c:281-282 | the sign is set, then normalisation makes a zero positive; the signed value is the truncated quotient |
| Products.DivideBigNumbers | bignumber.c:245-285 | both operands are left positive with digits kept; a zero divisor gives the positive 0; otherwise the quotient is normalised, its sign is "signs agree" unless it is zero, and it is the truncated quotient of the signed operands |
| Power.FastExponentiation | bignumber.c:320-354 | for an exponent that is not negative (leading zeros and a negative zero allowed) with a right parity cache, the result is canonical and worth Pow(Val(base), e); it is negative only for a negative base and odd e; its signed value is base^e; the exponent keeps its digits and caches, and its sign bit ends up set unless it is a lone 0 digit with a minus sign |
| Power.EvenPower | bignumber.c:327-338 | the even branch (exponent / 2, then square) gives base^e, for zeros such as "00" too |
| Power.OddPower | bignumber.c:340-351 | the odd branch (exponent - 1, then times base) gives base^e, with leading zeros too |
| Power.DivideByTwo | bignumber.c:328-329 | dividing by the number "2" keeps the exponent's digits and caches and leaves it positive; the quotient is normalised, has a right parity cache and is the truncated quotient of the signed exponent by 2 |
| Power.HalveExponent | bignumber.c:328-329 | the half is again an exponent, worth e / 2, and it is smaller: in value, or as the lone 0 digit with fewer digits than a zero such as "00"; so the recursion ends |
| Power.HalfOfExponent | bignumber.c:328-329 | the truncated quotient by 2 of an exponent other than the lone 0 digit is e / 2, not negative, and smaller in value or in digit count |
| Power.HalfValue | bignumber.c:329 | a truncated quotient by 2 of a natural number e is e / 2 and its sign bit is set unless it is 0 |
| Power.LongZero | bignumber.c:321 | a zero other than the lone 0 digit has at least two digits, so the base-case test misses it |
| Power.DecrementExponent | bignumber.c:341-342 | subtracting the number "1" from an odd exponent (leading zeros allowed) gives an exponent worth e - 1, with the exponent's digits, caches and sign kept |
| Power.DigitNumber | bignumber.c:328 | the one-digit text, here "2" (and "1" at line 341), parses to a valid positive number with that single digit |
| Power.PowSquare | bignumber.c:329-331 | base^(2k) = (base^k)^2 |
| Power.PowAdd | bignumber.c:342-344 | base^(m+n) = base^m * base^n |
| Power.PowSigned | bignumber.c:331 | a power of a signed value is negative only for a negative base and an odd exponent |
| Power.PowTen | bignumber.c:392 | Pow(10, k) = 10^k |
| Power.ValParity | auxiliar.c:135 | a number's parity is its last digit's |
| Power.DigitText | bignumber.c:328 | the one-character texts "2" and "1" the exponentiation creates parse to valid one-digit numbers of that value |
| Power.OddPredecessor | bignumber.c:340-342 | one below an odd exponent is even |
| Karatsuba.MultiplyKaratsuba | bignumber.c:356-463 | on non-negative operands where every copy fits, the operands keep their digits and stay positive; the result is fresh, normalised and worth `KaratsubaDigits` of the operands, the recursive value the C code computes; when no level of the recursion has an odd larger digit count (`OddLevelsDigits` is 0) it is the product x * y |
| Karatsuba.KaratsubaStep | bignumber.c:366-447 | the recursive case gives `KaratsubaDigits` as well |
| Karatsuba.MultiplyParts | bignumber.c:406-447 | from the four parts, the three products and their recombination give `KaratsubaDigits` of the whole |
| Karatsuba.ProductOfSums | bignumber.c:408 | c is `KaratsubaDigits` of the sums of the parts, which have `Len(value)` digits each |
| Karatsuba.SumOfParts | bignumber.c:408 | the sum of two non-negative parts is normalised, non-negative and has `Len(value)` digits |
| Karatsuba.SplitOperands | bignumber.c:373-396 | both operands split at half: high parts canonical and worth v / 10^half, low parts exactly half digits worth v mod 10^half |
| Karatsuba.SplitNumber | bignumber.c:392-396 | one operand's split, as above |
| Karatsuba.HighPart | bignumber.c:392 | division by fast_exponentiation(10, half) gives v / 10^half, normalised |
| Karatsuba.Combine | bignumber.c:409-447 | the result is `Combination` of the three products |
| Karatsuba.Differences | bignumber.c:409-410 | d = c - a - b as signed values; a and b are left with the signs the subtractions give them (`AfterSubtraction`) |
| Karatsuba.ShiftedProduct | bignumber.c:431-443 | n times fast_exponentiation(10, k) is n * 10^k with n's sign |
| Karatsuba.SumOfThree | bignumber.c:443-447 | the two additions give high + middle + b |
| Karatsuba.KaratsubaDecreases | bignumber.c:406-408 | each recursive call has a smaller sum of values, or the same sum and fewer digits |
| Karatsuba.SplitFacts | bignumber.c:392-396 | the split parts satisfy v = high * 10^h + low, with low below 10^h and neither part larger than v |
| Karatsuba.HalfFits | bignumber.c:393-396 | on operands where every copy fits, half is at most each operand's digit count |
| Karatsuba.StepSafety | bignumber.c:406-407 | the products of the high parts and of the low parts are safe and on smaller pairs |
| Karatsuba.StepSumSafety | bignumber.c:408 | the product of the sums is safe and on a smaller pair |
| Karatsuba.SumsSafe | bignumber.c:408 | the same on values |
| Karatsuba.StepValue | bignumber.c:406-447 | one level of the value on digit sequences is the `Combination` of the three part values |
| Karatsuba.KSafeUnfold | bignumber.c:393-396 | one level of the copy-safety predicate |
| Karatsuba.KaratsubaValueUnfold | bignumber.c:366-447 | one level of the value, with the parts named |
| Karatsuba.KaratsubaPartsUnfold | bignumber.c:406-447 | the parts' value is the `Combination` of the three recursive values |
| Karatsuba.SingleDigits | bignumber.c:360-361 | one digit by one digit is the plain product |
| Karatsuba.SmallLengths | bignumber.c:367 | digit counts of 0, 1 and 10 |
| Karatsuba.CounterexampleCombinations | bignumber.c:431-447 | the two combinations of the counterexample evaluate to 10 and 10000 |
| Karatsuba.KSafeTenByOne | bignumber.c:393-396 | 10 by 1 can run |
| Karatsuba.KaratsubaTenByOne | bignumber.c:356-463 | 10 by 1 gives 10 |
| Karatsuba.KSafeHundredByTen | bignumber.c:393-396 | 100 by 10 can run |
| Karatsuba.KaratsubaHundredByTen | bignumber.c:356-463 | 100 by 10 gives 10000 |
| Karatsuba.KaratsubaOddLengthCounterexample | bignumber.c:431-434 | 100 by 10 can run and gives 10000, not 1000 |
| Karatsuba.CombinationAtEvenLength | bignumber.c:431-447 | when tam = 2 * half, the combination of the exact products of non-negative parts is the product of the operands: the subtractions leave a and b unchanged |
| Karatsuba.OddLevelsUnfold | bignumber.c:366-408 | one level of the count of recursion levels with an odd larger digit count |
| Karatsuba.NoOddLevelsSplit | bignumber.c:366-408 | without odd levels, tam = 2 * half and none of the three sub-products has an odd level |
| Karatsuba.EvenStep | bignumber.c:406-447 | with tam = 2 * half, exact products of the parts give the exact product one level up |
| Karatsuba.KaratsubaEvenIsProduct | bignumber.c:356-463 | the code as written computes vx * vy whenever no level of its recursion has an odd larger digit count |
| Karatsuba.EvenPartsAreProducts | bignumber.c:406-408 | without odd levels below them, the three recursive products (high parts, low parts, sums) are exact |
| Karatsuba.EvenLowPartsAreProducts | bignumber.c:407-408 | the same for the products of the low parts and of the sums |
| Karatsuba.EvenSumsAreProducts | bignumber.c:408 | the same for the product of the sums |
| Karatsuba.KaratsubaTwoByTwo | bignumber.c:356-463 | 12 by 34 has no odd level and gives 408 |
| Karatsuba.KaratsubaCorrectedUnfold | bignumber.c:465-470 | one level of the corrected algorithm |
| Karatsuba.KaratsubaIdentity | bignumber.c:465-470 | a * 10^(2h) + (c - a - b) * 10^h + b is the product of the split operands |
| Karatsuba.CorrectedCombinationIsProduct | bignumber.c:465-470 | the corrected combination of the three products is the product |
| Karatsuba.CorrectedStep | bignumber.c:465-470 | correct recursive products give a correct product one level up |
| Karatsuba.KaratsubaCorrectedIsProduct | bignumber.c:465-470 | with the high product shifted by 2 * half digits, Karatsuba computes vx * vy for all non-negative operands |
| Karatsuba.TenText | bignumber.c:371 | the text "10" parses to the digits 1, 0 |

## Left out

I/O, memory and machine types:
- `read_input`, `execute_program`, `print_big_number` and `client.c`: I/O and a demo program.
- `create_node`, `free_big_number`, and all allocation, freeing and leaks: memory management has no meaning under Dafny's heap model.
- Pointer relinking inside the chain: the chain is a sequence field, so `prev_digit`/`next_digit` links, aliasing between nodes and the O(1) cost of an insert are not represented.
- `create_big_number_str`: the text of a non-negative int is `NatToString` (used by `CreateFromNat`), so `snprintf` is not modelled.
- `int` and `char` widths: digit counts are unbounded, and so are node contents (`char digit`). The multiplication buffer holds at most 18 per cell, which fits a `char`.
- `remainder_of_division` and `fast_exponentiation_norecursion` are declared in `bignumber.h` but not defined; they are not part of this model.

Preconditions and weaker contracts:
- Numbers.CreateBigNumber: the text is not checked, as in the C code. Validity of the result is promised only for text whose characters after the sign are digits.
- Products.DivideBigNumbers: requires a canonical divisor. With leading zeros the zero test and the ranking both go wrong. For the divisor `00` the zero test sees two nodes, so it does not stop, and the subtraction loop never ends once the current dividend has two digits. For the divisor `05` a one-digit dividend is ranked below the divisor, so quotient "digits" above 9 appear later.
- Power.FastExponentiation: requires an exponent that is not negative, or is a zero with a minus sign, with a correct parity cache (`create_big_number` sets it). Leading zeros are allowed. A negative nonzero exponent makes the C code loop forever: the odd -1 becomes -2, which halves to -1.
- Karatsuba.MultiplyKaratsuba: modelled only for non-negative operands for which every `copy_big_number` has enough digits (`KSafeDigits`). Otherwise the copy reads past the chain. Negative operands are not modelled. By a hand trace they can give the wrong sign: -12 times 10 gives 120.
- Arithmetic.SumBigNumbers: its value contract is conditioned on `OrderAgrees`. What the code computes without it is stated as `SumMagnitude`/`SumSign`.
- Arithmetic.SubtractionBigNumbers: its value contract is conditioned on `OrderAgrees` in the same way.
- Arithmetic.SumBigNumbers: the parity cache of the result is unspecified on the early return for equal magnitudes, because the C code never sets it there (it stays uninitialised).
- Products.MultiplyBigNumbers: the parity cache of the result is unspecified, because the C code never sets it.

Structure of the model:
- Helper methods such as `AddOppositeSigns`, `FinishSum`, `DivideOneDigit` and `SplitOperands` split one C function into its branches or loops. They do not exist in the C code.
- The early `return` in `sum_big_numbers` and in the division loop is modelled as a `stopped` result of the helper.

## Findings

| source | as written | input that shows it | evidently intended | confidence | as-written member | corrected member |
|---|---|---|---|---|---|---|
| bignumber.c:431-434 | the high product `a` is shifted by `10^tam`, where tam is the larger digit count | x = 100, y = 10 (tam = 3, half = 1): the result is 10000 instead of 1000 | shift by `10^(2*half)`; the comment at bignumber.c:465-470 gives the textbook `a * 10^n + d * 10^(n/2) + b`, which is exact only for an even n, and the two shifts agree only when tam is even (`Karatsuba.KaratsubaEvenIsProduct`) | not executed | Karatsuba.KaratsubaOddLengthCounterexample | Karatsuba.KaratsubaCorrectedIsProduct |
