# Verified model of the number engines of ShittyCodeWritten_by_AI

This project is a Dafny model of the computational core of five small C++
programs. It proves what each engine computes.

- **Decimal fraction calculator** (`exe/High_Precision.cpp`). It has an
  unsigned string big integer (`BigInt`) with add, sub, mul, divmod, gcd and
  the 2/5 helpers. It also has a signed fraction (`Fraction`) that is always
  in lowest terms. It parses decimal text and does the four operations. It
  prints the result as a terminating decimal or as `n/d`. Input is checked by
  `validateInput`. Modules: `HighPrecisionBigInt`, `HighPrecisionFraction`,
  `HighPrecisionInput`.
- **Primality tester** (`exe/prime.cpp`). It does string arithmetic modulo
  n, square-and-multiply, Miller-Rabin over a fixed table of twelve bases, a
  small-prime filter, and random prime generation. Modules: `PrimeArith`,
  `PrimeTest`.
- **Radix converter** (`exe/High-Precision_Base_Converter.cpp`). It has a
  `vector<int>` big integer. It converts numerals between bases 2 and 16,
  with the fractional part expanded to at most 100 digits. Modules:
  `RadixBigInt`, `RadixConvert`.
- **Decimal and fraction converter** (`exe/Fraction.cpp`). Mode 1 turns a
  decimal into a fraction in lowest terms. Mode 2 turns a fraction into a
  decimal by long division, and puts the repeating cycle in parentheses.
  Modules: `FractionStrings` holds the string helpers; `FractionModes` holds
  the two modes.
- **Lucky-number table** (`exe/untitled1.cpp`). A number is lucky when it is
  a multiple of a square i * i with c <= i * i. The program marks the lucky
  numbers and fills a "next lucky number" table by a backward scan. Module:
  `LuckyNumbers`.

The shared vocabulary lives in three modules:

- `Digits` holds digit strings and vectors, their values, normal form and
  comparison orders.
- `NumberTheory` holds gcd, divisibility and powers.
- `Outcomes` holds `Result` and `Option` and the error kinds. C++ exceptions
  and `exit(1)` become these error kinds.

Each operation is specified against the number it denotes. A loop is
written as a Dafny loop with invariants. Values that the C++ code copies
(both `BigInt`s) are datatypes. The fraction whose `reduce()` rewrites its
fields is a class, and so is the lucky-number table with its two global
arrays.

## Model

| member | source | states |
|---|---|---|
| Digits.StripZerosValue | exe/Fraction.cpp:10-14 | removing leading zeros gives a normal numeral of the same value |
| Digits.NormalUnique | exe/High_Precision.cpp:39-40 | two normal numerals are equal strings exactly when their values are equal |
| Digits.LengthLexLessValue | exe/High_Precision.cpp:41-45 | on normal numerals, length first and then string order is exactly numeric order |
| Digits.SizeLexLessValue | exe/High-Precision_Base_Converter.cpp:61-69 | on valid digit vectors, size first and then digit by digit is exactly numeric order |
| NumberTheory.GcdDivides | exe/High_Precision.cpp:217-220 | Euclid's recursive gcd divides both arguments |
| NumberTheory.GcdGreatest | exe/High_Precision.cpp:217-220 | every common divisor divides the gcd |
| NumberTheory.GcdQuotientsCoprime | exe/High_Precision.cpp:238-240 | dividing both numbers by their gcd leaves coprime quotients |
| HighPrecisionBigInt.FromString | exe/High_Precision.cpp:17-33 | the constructor gives a normal numeral with the value of any digit string |
| HighPrecisionBigInt.BigInt.Eq | exe/High_Precision.cpp:39 | true exactly when the values are equal |
| HighPrecisionBigInt.BigInt.NotEq | exe/High_Precision.cpp:40 | true exactly when the values differ |
| HighPrecisionBigInt.BigInt.Less | exe/High_Precision.cpp:41-45 | true exactly when this value is smaller |
| HighPrecisionBigInt.BigInt.LessEq | exe/High_Precision.cpp:46 | true exactly when this value is not larger |
| HighPrecisionBigInt.BigInt.Greater | exe/High_Precision.cpp:47 | true exactly when this value is larger |
| HighPrecisionBigInt.BigInt.GreaterEq | exe/High_Precision.cpp:48 | true exactly when this value is not smaller |
| HighPrecisionBigInt.PadTo | exe/High_Precision.cpp:52-61 | zero padding keeps the value and reaches the requested length |
| HighPrecisionBigInt.AddColumns | exe/High_Precision.cpp:61-69 | on equal-length digit strings, the column loop and final carry give a digit string worth a + b |
| HighPrecisionBigInt.AddDigit | exe/High_Precision.cpp:64-66 | one column keeps digits-so-far plus carry * 10^len equal to the sum of the two suffixes, with a carry of 0 or 1 |
| HighPrecisionBigInt.SubColumns | exe/High_Precision.cpp:84-96 | on equal-length digit strings with a >= b, the borrow loop gives a digit string worth a - b |
| HighPrecisionBigInt.SubDigit | exe/High_Precision.cpp:87-94 | one column keeps digits-so-far minus borrow * 10^len equal to the difference of the two suffixes, with a borrow of 0 or 1 |
| HighPrecisionBigInt.BigInt.Add | exe/High_Precision.cpp:51-72 | a normal numeral with value a + b |
| HighPrecisionBigInt.BigInt.Sub | exe/High_Precision.cpp:74-99 | for a >= b, a normal numeral with value a - b |
| HighPrecisionBigInt.AddRow | exe/High_Precision.cpp:107-114 | one row of the product vector adds digit i of a times b; positions left of i stay 0 |
| HighPrecisionBigInt.AddColumn | exe/High_Precision.cpp:108-113 | one inner step adds digit i times digit j of b at weight i + j + 1, keeping entries in 0..9 except one in 0..18 |
| HighPrecisionBigInt.Products | exe/High_Precision.cpp:105-114 | the product vector has the value a * b with a digit in each position |
| HighPrecisionBigInt.ProductText | exe/High_Precision.cpp:115-122 | skipping leading zero positions gives the normal numeral of the vector, or "0" |
| HighPrecisionBigInt.BigInt.Mul | exe/High_Precision.cpp:101-123 | a normal numeral with value a * b |
| HighPrecisionBigInt.BigInt.DivideDigits | exe/High_Precision.cpp:132-140 | the digit loop leaves q * b + r = a with r < b |
| HighPrecisionBigInt.DivideDigit | exe/High_Precision.cpp:133-139 | bringing down digit k keeps q * b + r equal to the first k + 1 digits of a, with r < b |
| HighPrecisionBigInt.SubtractCount | exe/High_Precision.cpp:134-138 | repeated subtraction counts q with q * b + r equal to the start value and r < b |
| HighPrecisionBigInt.BigInt.LongDivide | exe/High_Precision.cpp:129-144 | q * b + r = a and r < b, and (0, a) when a < b |
| HighPrecisionBigInt.BigInt.DivMod | exe/High_Precision.cpp:125-145 | an error exactly for a zero divisor; otherwise q * b + r = a, r < b, and (0, a) when a < b |
| HighPrecisionBigInt.BigInt.Mod | exe/High_Precision.cpp:147-150 | an error exactly for a zero divisor; otherwise a mod b |
| HighPrecisionBigInt.BigInt.MulPow10 | exe/High_Precision.cpp:152-157 | appending exp zeros multiplies by 10^exp, and "0" stays normal |
| HighPrecisionBigInt.BigInt.ShortDivide | exe/High_Precision.cpp:159-185 | the short division by 2 or 5 gives quotient digits and remainder with q * d + r = a |
| HighPrecisionBigInt.ShortDivideDigit | exe/High_Precision.cpp:162-166 | one digit of the division by 2 or 5 keeps q * d + carry equal to the digits read, with carry < d |
| HighPrecisionBigInt.BigInt.DivBy2 | exe/High_Precision.cpp:159-171 | succeeds exactly when a is even, and then halves it; otherwise the number is unchanged |
| HighPrecisionBigInt.BigInt.DivBy5 | exe/High_Precision.cpp:173-185 | succeeds exactly when 5 divides a, and then divides by 5; otherwise the number is unchanged |
| HighPrecisionBigInt.BigInt.Scale | exe/High_Precision.cpp:187-215 | the carry loop shared by mul2 and mul5 multiplies by m |
| HighPrecisionBigInt.ScaleDigit | exe/High_Precision.cpp:191-195 | one column of mul2 or mul5 keeps digits-so-far plus carry * 10^len equal to m times the suffix read, with carry < m |
| HighPrecisionBigInt.BigInt.Mul2 | exe/High_Precision.cpp:187-200 | a normal numeral with value 2a |
| HighPrecisionBigInt.BigInt.Mul5 | exe/High_Precision.cpp:202-215 | a normal numeral with value 5a |
| HighPrecisionBigInt.Gcd | exe/High_Precision.cpp:217-220 | the recursive gcd equals Euclid's gcd and divides both arguments |
| HighPrecisionFraction.Fraction.Reduce | exe/High_Precision.cpp:231-241 | lowest terms with the same value; zero becomes +0/1; a non-zero numerator keeps its sign |
| HighPrecisionFraction.Fraction.constructor | exe/High_Precision.cpp:244 | the default fraction is +0/1 |
| HighPrecisionFraction.Fraction.FromParts | exe/High_Precision.cpp:291-293 | s * n / d in lowest terms |
| HighPrecisionFraction.Fraction.Copy | exe/High_Precision.cpp:319-320 | the copy has the same sign, numerator and denominator |
| HighPrecisionFraction.SplitDecimal | exe/High_Precision.cpp:250-264 | sign -1 exactly after a leading '-'; the integer part holds no '.'; the unsigned text is the integer part when it has no '.', and otherwise the integer part, '.', and the fractional part |
| Digits.FirstDotSplit | exe/High_Precision.cpp:256-264 | a cut of the unsigned text whose first part holds no '.' is the cut at the first '.' |
| HighPrecisionFraction.IntegerPart | exe/High_Precision.cpp:266-269 | the integer digits as a normal number; an empty part reads as 0 |
| HighPrecisionFraction.DropTrailingZeros | exe/High_Precision.cpp:271-272 | the fractional digits minus their trailing zeros, which were all zeros |
| HighPrecisionFraction.ComposeDecimal | exe/High_Precision.cpp:275-284 | numerator int * 10^scale + frac over 10^scale, or int/1 |
| HighPrecisionFraction.ScaledDecimal | exe/High_Precision.cpp:266-284 | the built numerator over denominator equals the text value (int ++ frac) / 10^len(frac) |
| HighPrecisionFraction.Fraction.Parse | exe/High_Precision.cpp:247-288 | the fraction in lowest terms equals sign * (int ++ frac) / 10^len(frac) |
| HighPrecisionFraction.LowestTerms | exe/High_Precision.cpp:238-240 | dividing by the gcd keeps the value and leaves coprime terms |
| HighPrecisionFraction.Fraction.Add | exe/High_Precision.cpp:296-315 | the result is a/b + c/d in lowest terms, whichever signs are combined |
| HighPrecisionFraction.Fraction.Sub | exe/High_Precision.cpp:318-322 | the result is a/b - c/d in lowest terms |
| HighPrecisionFraction.Fraction.Mul | exe/High_Precision.cpp:325-330 | the result is the product in lowest terms |
| HighPrecisionFraction.Fraction.Div | exe/High_Precision.cpp:333-339 | an error exactly for a zero divisor; otherwise the quotient in lowest terms |
| HighPrecisionFraction.Fraction.IsFiniteDecimal | exe/High_Precision.cpp:342-353 | corrected loop: true exactly when the value is 0 or the denominator divides a power of ten |
| HighPrecisionFraction.FiniteDecimalStepAsWritten | exe/High_Precision.cpp:346-351 | as written, a pass that divides leaves d unchanged |
| HighPrecisionFraction.AsWrittenLoopNeverEnds | exe/High_Precision.cpp:346-352 | as written, for any d other than 1 with a factor 2 or 5, every number of passes leaves the loop running on d |
| HighPrecisionFraction.AsWrittenHalfNeverEnds | exe/High_Precision.cpp:346-352 | as written, the value 1/2 keeps the loop on d = 2 forever |
| HighPrecisionFraction.FractionDigits | exe/High_Precision.cpp:369-374 | for a terminating fraction, the digits end in a non-zero digit and represent remainder / den exactly |
| HighPrecisionFraction.FiniteSteps | exe/High_Precision.cpp:369-374 | for a denominator dividing a power of ten, some number t of digit steps makes r * 10^t a multiple of it, so the loop ends |
| HighPrecisionFraction.Fraction.ToDecimalString | exe/High_Precision.cpp:356-376 | "0" for zero; otherwise sign, quotient and exact terminating digits |
| HighPrecisionFraction.NonZeroDecimal | exe/High_Precision.cpp:359-375 | for a denominator that divides a power of ten, the sign and quotient, then '.' and the digit loop when a remainder is left, spell the exact terminating expansion of n / d |
| HighPrecisionFraction.Fraction.ToFractionString | exe/High_Precision.cpp:379-385 | "0", or sign and numerator, with "/" and denominator unless it is 1 |
| HighPrecisionFraction.Fraction.ToString | exe/High_Precision.cpp:388-393 | decimal text exactly when the value terminates, fraction text otherwise |
| HighPrecisionInput.LooksDecimalIsPattern | exe/High_Precision.cpp:399-400 | the left-to-right scan accepts exactly the strings the pattern -?\d*\.?\d+ matches |
| HighPrecisionInput.ScanSpells | exe/High_Precision.cpp:399-400 | every string the scan accepts is spelled by the pattern |
| HighPrecisionInput.ValidateInput | exe/High_Precision.cpp:397-420 | accepted text is decimal text with at most 100 integer and 60 fractional digits |
| HighPrecisionInput.ValidateInputExact | exe/High_Precision.cpp:397-420 | accepted exactly when the pattern matches and both length limits hold |
| HighPrecisionInput.AcceptedIsDecimalText | exe/High_Precision.cpp:397-420 | accepted text can be handed to the string constructor and has a digit |
| PrimeArith.Compare | exe/prime.cpp:65-69 | the sign of a - b on normal numerals |
| PrimeArith.AddDigits | exe/prime.cpp:53-57 | one column puts the digit in front and carries the rest |
| PrimeArith.Add | exe/prime.cpp:47-62 | a normal numeral with value a + b |
| PrimeArith.Borrowing | exe/prime.cpp:76-90 | for a >= b the borrow loop leaves a - b in |a| digits |
| PrimeArith.Subtract | exe/prime.cpp:72-96 | a - b for a >= b, and "0" when a < b |
| PrimeArith.DivideBy2 | exe/prime.cpp:99-113 | the normal numeral of floor(a / 2) |
| PrimeArith.Mod | exe/prime.cpp:116-122 | a mod m for a divisor that keeps res * 10 + 9 within int |
| PrimeArith.Multiply | exe/prime.cpp:125-151 | a normal numeral with value a * b, "0" when a factor is "0" |
| PrimeArith.BringDown | exe/prime.cpp:161-170 | one digit of mod_big leaves (10r + digit) mod n |
| PrimeArith.ModBig | exe/prime.cpp:154-174 | a mod n, and a itself when a < n |
| PrimeArith.MultiplyDigit | exe/prime.cpp:188-200 | a copy of a times one non-zero digit, normal |
| PrimeArith.MultiplyMod | exe/prime.cpp:177-214 | (a * b) mod n, and "0" when a factor is "0" |
| PrimeArith.PowerMod | exe/prime.cpp:217-234 | "1" for exponent 0; congruent to a^b mod n, and equal to it when n >= 2 |
| PrimeTest.OddSplitFactors | exe/prime.cpp:250-255 | halving n - 1 while even gives d odd with d * 2^s = n - 1 |
| PrimeTest.SquaredIsPower | exe/prime.cpp:273-274 | squaring s times modulo n is raising to 2^s |
| PrimeTest.ExtraSquaring | exe/prime.cpp:273-279 | a base passes as written exactly when it is a strong witness for primality or b^(n-1) = n - 1 mod n |
| PrimeTest.WitnessCheck | exe/prime.cpp:259-283 | the loop body for one base decides BasePasses |
| PrimeTest.MillerRabin | exe/prime.cpp:241-287 | the answer is the verdict: 2 and 3 prime, 0, 1 and even numbers not, otherwise every table base below n passes |
| PrimeTest.SingleDigitPrimesPass | exe/prime.cpp:311-315 | 2, 3, 5 and 7 all pass the test |
| PrimeTest.DivisibleBySmallPrimes | exe/prime.cpp:292-306 | true exactly when n is even or a multiple of a prime up to 47 |
| PrimeTest.SmallFactorComposite | exe/prime.cpp:292-306 | the filter only rejects numbers above 47 that are composite |
| PrimeTest.RolledDigit | exe/prime.cpp:26-38 | each drawn digit is a digit, and the first is never 0 |
| PrimeTest.RandomNumber | exe/prime.cpp:31-42 | "0" for digits <= 0; otherwise exactly that many digits, with a non-zero first digit |
| PrimeTest.ForceOddShape | exe/prime.cpp:323-327 | the forced candidate is normal, odd and of the same length, and exceeds the draw by 1 exactly when the draw was even |
| PrimeTest.OddCandidate | exe/prime.cpp:320-327 | the candidate is the drawn number with its last digit forced odd |
| PrimeTest.SearchFound | exe/prime.cpp:318-341 | a found candidate has the requested length, is odd, has no small factor and passes the test |
| PrimeTest.SearchCandidates | exe/prime.cpp:317-341 | the candidate loop returns the first passing candidate, if any |
| PrimeTest.GenerateRandomPrime | exe/prime.cpp:309-351 | "2" for digits <= 0, a one-digit prime for 1, the first passing candidate, else the fixed fallback |
| PrimeTest.FallbackWrongLength | exe/prime.cpp:343-350 | a two-digit request whose attempts all fail returns a 19-digit number |
| PrimeTest.GenerateRandomPrimeChecked | exe/prime.cpp:309-351 | corrected: an error when the attempts run out; every number returned has the requested length and passes |
| RadixBigInt.FromString | exe/High-Precision_Base_Converter.cpp:24-31 | an error exactly for a non-digit; otherwise a valid number with the text's value, "" as 0 |
| RadixBigInt.ReadDigits | exe/High-Precision_Base_Converter.cpp:25-28 | succeeds exactly on an all-digit text, and then the vector has the text's digits and value |
| RadixBigInt.FromSmall | exe/High-Precision_Base_Converter.cpp:34-43 | an error outside 0..15; otherwise a valid number of that value |
| RadixBigInt.BigInt.IsZero | exe/High-Precision_Base_Converter.cpp:45-47 | on a trimmed vector, true exactly for the value 0 |
| RadixBigInt.BigInt.ToInt | exe/High-Precision_Base_Converter.cpp:55-58 | as written: succeeds on a valid number exactly when it is below 10 |
| RadixBigInt.BigInt.ToSmallInt | exe/High-Precision_Base_Converter.cpp:55-58 | corrected: any valid number below 100 is read, which covers every digit 0..15 |
| RadixBigInt.BigInt.Less | exe/High-Precision_Base_Converter.cpp:61-69 | on valid numbers, exactly numeric order |
| RadixBigInt.BigInt.Eq | exe/High-Precision_Base_Converter.cpp:71-73 | on valid numbers, exactly equal values |
| RadixBigInt.BigInt.LessEq | exe/High-Precision_Base_Converter.cpp:75-77 | on valid numbers, exactly "not larger" |
| RadixBigInt.MultiplyColumns | exe/High-Precision_Base_Converter.cpp:83-89 | the column loop leaves digits and a carry worth a * x |
| RadixBigInt.MultiplyColumn | exe/High-Precision_Base_Converter.cpp:86-88 | one column keeps digits-so-far plus carry * weight equal to x times the low digits read, and the carry a digit for digits and x <= 10 |
| RadixBigInt.BigInt.MultiplyBySmall | exe/High-Precision_Base_Converter.cpp:80-94 | as written: value a * x, but the leading entry is the whole carry, a digit only for x <= 10 |
| RadixBigInt.CarryDigitMisorders | exe/High-Precision_Base_Converter.cpp:90 | 9 * 16 comes out as [14, 4], which operator< puts below 100 |
| RadixBigInt.BigInt.MulSmall | exe/High-Precision_Base_Converter.cpp:80-94 | corrected: a valid number with value a * x |
| RadixBigInt.BigInt.AddSmall | exe/High-Precision_Base_Converter.cpp:97-110 | value a + x, unchanged for x = 0, valid for x <= 15 |
| RadixBigInt.ShortDivision | exe/High-Precision_Base_Converter.cpp:115-121 | the quotient digits and remainder of short division |
| RadixBigInt.Trim | exe/High-Precision_Base_Converter.cpp:16-20 | leading zeros removed, at least one entry kept, value unchanged |
| RadixBigInt.BigInt.DivideBySmall | exe/High-Precision_Base_Converter.cpp:113-126 | an error exactly for x = 0; otherwise trimmed quotient and remainder with q * x + r = a |
| RadixBigInt.Borrowing | exe/High-Precision_Base_Converter.cpp:130-143 | the borrow loop leaves a - b in |a| digits |
| RadixBigInt.BorrowColumn | exe/High-Precision_Base_Converter.cpp:134-142 | one column keeps the vector equal to a minus the low digits of b subtracted so far, plus the borrow at the next weight |
| RadixBigInt.BigInt.Subtract | exe/High-Precision_Base_Converter.cpp:129-148 | for a >= b, a valid number with value a - b |
| RadixBigInt.TrialQuotient | exe/High-Precision_Base_Converter.cpp:165-173 | the largest trial 9..1 whose product fits, and the rest below the divisor |
| RadixBigInt.BringDownDigit | exe/High-Precision_Base_Converter.cpp:159-174 | one digit step: q * d + rest = 10r + digit, q = 0 exactly when the divisor does not fit |
| RadixBigInt.LongDivision | exe/High-Precision_Base_Converter.cpp:155-180 | q * d + r = a with r < d, both valid |
| RadixBigInt.DivisionColumn | exe/High-Precision_Base_Converter.cpp:159-174 | one digit keeps q * d + r equal to the digits read, r < d, and no leading zero in q |
| RadixBigInt.BigInt.Divide | exe/High-Precision_Base_Converter.cpp:151-181 | an error exactly for a zero divisor; (0, a) when a < d; otherwise q * d + r = a, r < d |
| RadixBigInt.Power | exe/High-Precision_Base_Converter.cpp:184-190 | as written: value base^exp, a valid number only for base <= 10 |
| RadixBigInt.PowerStep | exe/High-Precision_Base_Converter.cpp:187 | one pass turns base^i into base^(i + 1), still a valid number for base <= 10 |
| RadixBigInt.PowerNormal | exe/High-Precision_Base_Converter.cpp:184-190 | corrected: a valid number with value base^exp |
| RadixConvert.CharToDigit | exe/High-Precision_Base_Converter.cpp:194-201 | succeeds exactly on 0-9, a-f and A-F, with a value below 16 |
| RadixConvert.DigitToChar | exe/High-Precision_Base_Converter.cpp:204-207 | an upper-case digit that char_to_digit reads back as d |
| RadixConvert.CharDigitRoundTrip | exe/High-Precision_Base_Converter.cpp:194-207 | writing back a read digit gives its upper-case form |
| RadixConvert.SrcBaseToDecimalInt | exe/High-Precision_Base_Converter.cpp:210-217 | as written: an error exactly on a non-digit; the value of the numeral in the source base |
| RadixConvert.SrcBaseToDecimalNormal | exe/High-Precision_Base_Converter.cpp:210-217 | corrected: the same value as a valid number |
| RadixConvert.DecimalIntToDestBase | exe/High-Precision_Base_Converter.cpp:220-231 | the numeral of the value in the target base, without leading zeros |
| RadixConvert.RadixNumeralValue | exe/High-Precision_Base_Converter.cpp:220-231 | reading that numeral back gives the value |
| RadixConvert.NumeralUnique | exe/High-Precision_Base_Converter.cpp:204-231 | an upper-case numeral with digits below the base and no leading zero is exactly the numeral decimal_int_to_dest_base writes for its value |
| RadixConvert.CanonicalTextValue | exe/High-Precision_Base_Converter.cpp:194-217 | a numeral upper-cased and stripped of leading zeros is such a numeral and keeps its value |
| RadixConvert.IntegerRoundTrip | exe/High-Precision_Base_Converter.cpp:210-231 | reading a numeral and writing its value back in the same base gives the numeral upper-cased without leading zeros, "0" when nothing else is left |
| RadixConvert.IntegerRoundTripText | exe/High-Precision_Base_Converter.cpp:331-332 | src_base_to_decimal_int (as written) then decimal_int_to_dest_base into the same base returns that canonical text |
| RadixConvert.HexToBinary | exe/High-Precision_Base_Converter.cpp:210-231 | "FF" in base 16 is written "11111111" in base 2 |
| RadixConvert.HexRoundTrip | exe/High-Precision_Base_Converter.cpp:210-231 | "00ff" in base 16 comes back as "FF" |
| RadixConvert.ValidateNumber | exe/High-Precision_Base_Converter.cpp:234-253 | accepts exactly a non-empty text, not a lone '.', with at most one '.' and digits below the base |
| RadixConvert.SplitNumber | exe/High-Precision_Base_Converter.cpp:256-264 | the parts around the first '.', which join back to the text |
| RadixConvert.NextFractionDigit | exe/High-Precision_Base_Converter.cpp:344-349 | one pass gives digit floor(n * base / d) below the base and the remainder |
| RadixConvert.ThreeQuartersInHex | exe/High-Precision_Base_Converter.cpp:348 | the quotient 12 of "0.75" into base 16 is rejected by to_int as written and read as C when corrected |
| RadixConvert.FractionDigits | exe/High-Precision_Base_Converter.cpp:343-351 | the digit loop yields the expansion of n / d, at most limit digits (100 in the program), stopping at remainder 0 |
| RadixConvert.FractionTextValue | exe/High-Precision_Base_Converter.cpp:343-351 | those digits are n / d truncated to their length, and exact when the loop stopped early |
| RadixConvert.StripTrailingZeros | exe/High-Precision_Base_Converter.cpp:354-356 | a prefix of the text; everything dropped was '0' and the rest does not end in '0' |
| RadixConvert.TrimTrailingZeros | exe/High-Precision_Base_Converter.cpp:354-356 | the pop_back loop strips the trailing zeros |
| RadixConvert.TrailingZerosValue | exe/High-Precision_Base_Converter.cpp:354-356 | stripping trailing zeros does not change the value of a fraction |
| RadixConvert.Convert | exe/High-Precision_Base_Converter.cpp:331-362 | the printed result for a validated numeral, with the corrected multiplication and to_int |
| RadixConvert.ConvertedTextMeaning | exe/High-Precision_Base_Converter.cpp:331-362 | the integer part keeps its value; the fraction has at most 100 digits, no trailing '0', and truncates the input fraction |
| RadixConvert.ConvertedSplit | exe/High-Precision_Base_Converter.cpp:359-363 | the printed result splits at its first '.' back into the integer and fraction texts |
| RadixConvert.IntegerTextMeaning | exe/High-Precision_Base_Converter.cpp:331-332 | the target integer text reads back as the value of the source integer part (an empty part as 0) and has no leading zero |
| RadixConvert.FractionalTextMeaning | exe/High-Precision_Base_Converter.cpp:335-357 | the target fraction has at most 100 digits, does not end in '0', and is the source fraction truncated in the target base |
| FractionStrings.Compare | exe/Fraction.cpp:16-26 | the sign of a - b, leading zeros ignored |
| FractionStrings.SubtractDigits | exe/Fraction.cpp:34-42 | one column gives the digit and the borrow |
| FractionStrings.BorrowColumns | exe/Fraction.cpp:29-43 | the column loop over the longer length leaves a - b plus the final borrow times 10^len |
| FractionStrings.Subtract | exe/Fraction.cpp:28-46 | a - b for a >= b; for a < b the ten's complement a - b + 10^max(len) |
| FractionStrings.CarryColumns | exe/Fraction.cpp:51-56 | the carry loop leaves digits and a carry worth a * d |
| FractionStrings.MultiplyByDigit | exe/Fraction.cpp:48-60 | value a * d; normal input gives normal output |
| FractionStrings.TrialDigit | exe/Fraction.cpp:76-86 | the largest digit whose product fits, and the rest below the divisor |
| FractionStrings.BringDown | exe/Fraction.cpp:72-90 | one digit step: digit * d + rest = 10r + c, with rest below the divisor |
| FractionStrings.Divide | exe/Fraction.cpp:62-94 | q * d + r = a and r < d; ("0", a) when a < d |
| FractionStrings.LongColumn | exe/Fraction.cpp:72-91 | one digit keeps q * d + r equal to the digits read, with r normal and below d |
| FractionStrings.DivisibleBySmall | exe/Fraction.cpp:96-102 | the last digit decides divisibility by 2, and by 5 for any other d |
| FractionStrings.DivideBySmall | exe/Fraction.cpp:104-113 | the normal numeral of floor(s / d) |
| FractionStrings.ShortColumn | exe/Fraction.cpp:107-111 | one digit keeps q * d + rem equal to the digits read, with rem < d |
| FractionModes.SplitDecimal | exe/Fraction.cpp:131-144 | numStr / denStr equals the decimal's magnitude, with denStr a power of ten |
| FractionModes.DecimalToFraction | exe/Fraction.cpp:117-168 | a fraction equal to the decimal, in lowest terms, 0/1 for zero, negative exactly for a non-zero value with '-' |
| FractionModes.CancelFactor | exe/Fraction.cpp:155-162 | cancelling a common 2 or 5 keeps the value and the power-of-ten denominator |
| FractionModes.LowestTerms | exe/Fraction.cpp:155-162 | once 2 and 5 no longer divide both terms, they are coprime |
| FractionModes.Remainders | exe/Fraction.cpp:225-253 | the remainders of the long division, all below d, starting at the first remainder |
| FractionModes.DigitAfter | exe/Fraction.cpp:226-228 | the digit of 10r / d |
| FractionModes.LongDivision | exe/Fraction.cpp:219-254 | the digits of the expansion, stopped at remainder 0 or at the first repeated remainder, fewer than d |
| FractionModes.Pigeonhole | exe/Fraction.cpp:225-254 | distinct non-zero remainders below d number fewer than d, so the loop ends |
| FractionModes.FractionToDecimal | exe/Fraction.cpp:172-255 | an error exactly for a zero denominator; "0" for a zero numerator; otherwise sign and the expansion of n / d |
| FractionModes.RemainderIdentity | exe/Fraction.cpp:225-230 | r0 * 10^k = digits(k) * d + remainder k |
| FractionModes.DescribedValue | exe/Fraction.cpp:209-250 | the printed digits denote n / d: exactly when terminating, and with prefix and cycle when repeating |
| FractionModes.EndsNeverRepeats | exe/Fraction.cpp:232-250 | a division that reaches remainder 0 never repeats a remainder |
| FractionModes.ExpandsUnique | exe/Fraction.cpp:209-250 | at most one expansion of a given sign is what the long division of n / d produces |
| FractionModes.RenderInjective | exe/Fraction.cpp:212-248 | on digit-string parts, two expansions that print the same text are equal |
| FractionModes.PrintedUnique | exe/Fraction.cpp:209-250 | no two expansions the long division produces, for any fractions, print the same text |
| FractionModes.OneThird | exe/Fraction.cpp:241-250 | 1/3 is 0.(3) |
| FractionModes.OneSixth | exe/Fraction.cpp:241-250 | 1/6 is 0.1(6), with the cycle starting where remainder 4 was first met |
| FractionModes.SevenQuarters | exe/Fraction.cpp:232-239 | 7/4 is 1.75 |
| FractionModes.RenderExamples | exe/Fraction.cpp:210-239 | a negative terminating and a negative whole result print with '-' |
| LuckyNumbers.NextLucky | exe/untitled1.cpp:18-22 | the least lucky number at or above i, or 1002002 when there is none |
| LuckyNumbers.LuckyTable.constructor | exe/untitled1.cpp:5-7 | both global arrays start all zero, as C++ globals do |
| LuckyNumbers.LuckyTable.MarkMultiples | exe/untitled1.cpp:14-16 | marks exactly the positive multiples of i * i in the table |
| LuckyNumbers.LuckyTable.MarkLucky | exe/untitled1.cpp:11-17 | a[x] is set exactly for lucky x |
| LuckyNumbers.LuckyRoot | exe/untitled1.cpp:12-17 | every lucky x is j * i * i with j >= 1, i <= 1001, c <= i * i and x <= 1002001 |
| LuckyNumbers.MultipleIsLucky | exe/untitled1.cpp:12-17 | every such multiple within the table is lucky |
| LuckyNumbers.LuckyTable.ScanNext | exe/untitled1.cpp:18-22 | b[x] is the least lucky number at or above x, or the sentinel; b[0] stays 0 |
| LuckyNumbers.LuckyTable.ScanStep | exe/untitled1.cpp:20-21 | one backward pass stores the next lucky number from i on in b[i] and changes no other entry |
| LuckyNumbers.NextLuckyMonotone | exe/untitled1.cpp:18-22 | the next-lucky table is non-decreasing |
| LuckyNumbers.TableOrder | exe/untitled1.cpp:18-22 | b[x] >= x, b[x] = x for a lucky x, and b is non-decreasing |
| LuckyNumbers.LuckyTable.Answer | exe/untitled1.cpp:26-30 | "lucky" exactly for a lucky x; otherwise the next lucky number, above x, with none between |
| LuckyNumbers.LuckyTable.Answers | exe/untitled1.cpp:23-31 | the query loop answers each number in turn |

## Left out

- Every `main`, its menus and all console input and output are left out. The
  programs read with `cin`/`getline` and print with `cout`; the model takes
  the values read as parameters and returns what would be printed. This
  covers the menu loops, the removal of spaces in `exe/Fraction.cpp`, and the
  prompts and re-prompts of the radix converter.
- `FractionModes.DecimalToFraction` returns the sign, numerator and
  denominator; the `-n/d` and `0/1` lines it prints are not rendered.
- `FractionModes.FractionToDecimal` requires numerator and denominator
  magnitudes without leading zeros (an empty numerator is allowed). The
  program does not normalise them: a denominator "00" passes the zero test and
  makes the digit loop run forever, and "03"/"7" stores remainders under two
  spellings, so the printed cycle need not be minimal.
- `FractionModes.DecimalToFraction` requires decimal text (digits around at
  most one '.', after an optional '-'). The program does no validation, and
  its behaviour on other text is not modelled.
- `FractionStrings.Divide` requires a divisor whose value is not zero. The
  program prints an error and calls `exit(1)` only for the exact text "0".
  Its two callers in `fractionToDecimal` (exe/Fraction.cpp:209 and :227)
  rule out only that text as well. A divisor such as "00" passes both tests:
  `divide` then picks the digit 9 at every step and keeps the whole dividend
  as the remainder, and the expansion loop never ends. This is the
  non-terminating case already excluded by the requires of
  `FractionModes.FractionToDecimal` above.
- The clock-seeded `mt19937` generator of `exe/prime.cpp` is not modelled.
  The values it would return are a parameter: one sequence of draws per
  candidate.
- The regular expression of `validateInput` is replaced by a hand-written
  grammar of that one pattern, which is proved equal to a left-to-right scan.
- `sqrt` in `exe/untitled1.cpp` (floating point) is not modelled. The marking
  loop starts at root 1; every root below the integer square root fails the
  `i * i < c` guard, so the marked set is the same. A threshold below 1 is
  refused, because for c = 0 the program's inner loop never ends.
- `LuckyNumbers.LuckyTable.Answer` requires 0 <= x <= 1002001. Any other query
  reads outside the arrays in the program.
- `PrimeArith.Mod` requires m <= 214748364, so that `res * 10 + 9` fits the
  32-bit `int` of the source. The other C++ `int` variables of the engines hold
  digits, carries and small counters, and never come near their limits within
  the stated preconditions.
- `RadixConvert.Convert` models the conversion with the corrected
  multiplication and `to_int` (see Findings). The as-written behaviour is
  captured only by the exhibits named there, not as a whole run.
- `HighPrecisionFraction.Fraction.ToString` and
  `HighPrecisionFraction.Fraction.IsFiniteDecimal` use the corrected
  `isFiniteDecimal` loop (see Findings).
- `PrimeTest.MillerRabin` models the witness loop as written, with `s`
  squarings instead of the textbook `s - 1`. `PrimeTest.ExtraSquaring` shows
  what the extra square can change. This is not listed as a finding: no input
  has been shown to change the verdict.
- `HighPrecisionBigInt.BigInt.DivBy2` and `HighPrecisionBigInt.BigInt.DivBy5` return the
  divided number instead of rewriting the object in place. Their callers only
  ever apply them to a copy, so no caller sees the difference.
- `PrimeArith.Subtract` returns "0" when a < b, as written; callers never pass
  a < b.
- `exe/toolstart.cpp` and `exe/ForegroundProcessController.cpp` are not part of
  this model (process control and OS glue).

## Findings

| source | as written | input that shows it | evidently intended | confidence | as-written member | corrected member |
|---|---|---|---|---|---|---|
| exe/High_Precision.cpp:346-351 | `isFiniteDecimal` halves or fifths a copy `temp` and never stores it back into `d`, so `d` never changes | any value with an even denominator, such as 0.5 (1/2); `toString` calls the loop and never returns | divide `d` by 2 or 5 until it is 1 or has another factor | high, not executed | HighPrecisionFraction.AsWrittenLoopNeverEnds | HighPrecisionFraction.Fraction.IsFiniteDecimal |
| exe/High-Precision_Base_Converter.cpp:90 | `multiply_by_small` inserts the whole final carry as one entry, which is 10 or more for factors above 10; `operator<` then misorders the number | "0.09" from base 11 to base 16: 9 * 16 becomes [14, 4], which compares below 121 | split the carry into decimal digits | high, not executed | RadixBigInt.CarryDigitMisorders | RadixBigInt.BigInt.MulSmall |
| exe/High-Precision_Base_Converter.cpp:55-58 | `to_int` throws unless the number has one entry, but target digits 10..15 are two-digit quotients | "0.75" from base 10 to base 16: the first quotient is 12 | read any quotient below the base | high, not executed | RadixConvert.ThreeQuartersInHex | RadixBigInt.BigInt.ToSmallInt |
| exe/prime.cpp:343-350 | after all attempts fail, `generate_random_prime` returns a fixed 19-digit or 100-digit prime whatever length was asked for | 2 digits with every draw 0: each candidate is 11, which the filter rejects, and the result has 19 digits | a prime of the requested length, or a reported failure | medium, not executed | PrimeTest.FallbackWrongLength | PrimeTest.GenerateRandomPrimeChecked |
