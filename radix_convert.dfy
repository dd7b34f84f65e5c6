/** The free functions and the conversion in main() of the radix converter
    (exe/High-Precision_Base_Converter.cpp): numerals in bases 2..16 with the
    digits 0-9 and A-F (a-f accepted on input), an optional fractional part,
    the integer part converted exactly and the fractional part expanded to at
    most 100 digits. */
module RadixConvert {
  import opened Digits
  import NT = NumberTheory
  import opened Outcomes
  import opened RadixBigInt

  // ---------------------------------------------------------------------
  // Digit characters

  predicate IsHexDigit(c: char)
  {
    '0' <= c <= '9' || 'A' <= c <= 'F' || 'a' <= c <= 'f'
  }

  /** isalpha() in the C locale. */
  predicate IsAlpha(c: char)
  {
    'A' <= c <= 'Z' || 'a' <= c <= 'z'
  }

  /** toupper() in the C locale. */
  function Upper(c: char): char
  {
    if 'a' <= c <= 'z' then (c as int - 32) as char else c
  }

  /** char_to_digit(): a decimal digit, or a letter A-F in either case;
      anything else is an error. */
  function CharToDigit(c: char): (r: Result<int>)
    ensures r.Ok? <==> IsHexDigit(c)
    ensures r.Ok? ==> 0 <= r.value < 16
    ensures r.Err? ==> r.error == InvalidDigit
  {
    if '0' <= c <= '9' then Ok(c as int - '0' as int)
    else if IsAlpha(c) then
      var u := Upper(c);
      if 'A' <= u <= 'F' then Ok(10 + (u as int - 'A' as int)) else Err(InvalidDigit)
    else Err(InvalidDigit)
  }

  /** digit_to_char(): 0-9, then upper-case A-F; char_to_digit() reads it back. */
  function DigitToChar(d: int): (c: char)
    requires 0 <= d < 16
    ensures CharToDigit(c) == Ok(d)
    ensures c == Upper(c)
  {
    if d < 10 then ('0' as int + d) as char else ('A' as int + (d - 10)) as char
  }

  /** Writing back the value of a digit character gives its upper-case form. */
  lemma CharDigitRoundTrip(c: char)
    requires IsHexDigit(c)
    ensures DigitToChar(CharToDigit(c).value) == Upper(c)
  {
    if 'a' <= c <= 'f' {
      assert Upper(c) as int == c as int - 32;
    }
  }

  predicate IsNumeral(s: string)
  {
    forall i | 0 <= i < |s| :: IsHexDigit(s[i])
  }

  /** Every digit of s is below base. */
  predicate DigitsBelow(s: string, base: int)
  {
    forall i | 0 <= i < |s| :: CharToDigit(s[i]).Ok? && CharToDigit(s[i]).value < base
  }

  /** The number a numeral denotes in a base, read from the right. */
  function RadixValue(s: string, base: int): (v: int)
    requires IsNumeral(s) && base >= 2
    ensures v >= 0
  {
    if |s| == 0 then 0
    else
      var front := RadixValue(s[..|s| - 1], base);
      MulNonNegative(front, base);
      front * base + CharToDigit(s[|s| - 1]).value
  }

  /** The numeral of v in a base: its digits, most significant first, with no
      leading zero. */
  function RadixNumeral(v: nat, base: int): (s: string)
    requires 2 <= base <= 16
    ensures |s| >= 1 && IsNumeral(s) && DigitsBelow(s, base)
    ensures |s| > 1 ==> s[0] != '0'
    ensures v > 0 ==> s[0] != '0'
    decreases v
  {
    if v < base then
      assert CharToDigit('0') == Ok(0);
      [DigitToChar(v)]
    else
      NT.DivParts(v, base);
      QuotientFacts(v, base, v / base, v % base);
      var front := RadixNumeral(v / base, base);
      var last := [DigitToChar(v % base)];
      assert (front + last)[0] == front[0];
      front + last
  }

  // ---------------------------------------------------------------------
  // Numbers between bases

  /** src_base_to_decimal_int() as written: result * base + digit for every
      character, with multiply_by_small(), so the value is right but for a
      base above 10 the vector may hold entries above 9. */
  method SrcBaseToDecimalInt(s: string, base: int) returns (r: Result<BigInt>)
    requires 2 <= base <= 16
    ensures r.Err? <==> !IsNumeral(s)
    ensures r.Err? ==> r.error == InvalidDigit
    ensures r.Ok? ==> r.value.WellFormed() && r.value.Val() == RadixValue(s, base)
    ensures r.Ok? && base <= 10 ==> r.value.Valid()
  {
    var result := BigInt([0]);
    assert [0][..0] == [];
    for k := 0 to |s|
      invariant IsNumeral(s[..k]) && result.WellFormed()
      invariant result.Val() == RadixValue(s[..k], base)
      invariant base <= 10 ==> result.Valid()
    {
      var val := CharToDigit(s[k]);
      if val.Err? {
        return Err(InvalidDigit);
      }
      assert s[..k + 1][..k] == s[..k];
      var shifted := result.MultiplyBySmall(base);
      result := shifted.AddSmall(val.value);
    }
    assert s[..|s|] == s;
    return Ok(result);
  }

  /** src_base_to_decimal_int() on the corrected multiplication: a valid number. */
  method SrcBaseToDecimalNormal(s: string, base: int) returns (r: Result<BigInt>)
    requires 2 <= base <= 16
    ensures r.Err? <==> !IsNumeral(s)
    ensures r.Err? ==> r.error == InvalidDigit
    ensures r.Ok? ==> r.value.Valid() && r.value.Val() == RadixValue(s, base)
  {
    var result := BigInt([0]);
    assert [0][..0] == [];
    for k := 0 to |s|
      invariant IsNumeral(s[..k]) && result.Valid()
      invariant result.Val() == RadixValue(s[..k], base)
    {
      var val := CharToDigit(s[k]);
      if val.Err? {
        return Err(InvalidDigit);
      }
      assert s[..k + 1][..k] == s[..k];
      var shifted := result.MulSmall(base);
      result := shifted.AddSmall(val.value);
    }
    assert s[..|s|] == s;
    return Ok(result);
  }

  /** decimal_int_to_dest_base(): "0" for zero, otherwise the remainders of
      repeated division by the base, last remainder first. */
  method DecimalIntToDestBase(num: BigInt, base: int) returns (s: string)
    requires num.WellFormed() && 2 <= base <= 16
    ensures s == RadixNumeral(num.Val(), base)
  {
    if num.IsZero() {
      ZeroIsSingleDigit(num.digits);
      return "0";
    }
    var n := num;
    s := "";
    while !n.IsZero()
      invariant n.WellFormed() && (|s| > 0 ==> n.Trimmed())
      invariant |s| == 0 ==> n == num
      invariant RadixNumeral(num.Val(), base)
        == (if n.Val() > 0 || |s| == 0 then RadixNumeral(n.Val(), base) else []) + s
      decreases n.Val(), if n.Trimmed() then 0 else 1
    {
      var qr := n.DivideBySmall(base);
      var quot, rem := qr.value.0, qr.value.1;
      DestBaseStep(num.Val(), n.Val(), base, quot.Val(), rem, s);
      s := [DigitToChar(rem)] + s;
      n := quot;
    }
  }

  // ---------------------------------------------------------------------
  // Input checks

  /** What validate_number() accepts: not empty, not a lone '.', at most one
      '.', and every other character a digit below the base. */
  predicate ValidNumeral(s: string, base: int)
  {
    |s| >= 1 && s != "." && multiset(s)['.'] <= 1 &&
    forall i | 0 <= i < |s| && s[i] != '.' :: CharToDigit(s[i]).Ok? && CharToDigit(s[i]).value < base
  }

  /** validate_number(): one pass, failing on a second '.' or on a character
      that is not a digit of the base, then the empty and lone-'.' checks. */
  method ValidateNumber(s: string, base: int) returns (ok: bool)
    ensures ok == ValidNumeral(s, base)
  {
    var dotSeen := false;
    for i := 0 to |s|
      invariant multiset(s[..i])['.'] == if dotSeen then 1 else 0
      invariant forall k | 0 <= k < i && s[k] != '.' :: CharToDigit(s[k]).Ok? && CharToDigit(s[k]).value < base
    {
      assert s[..i + 1] == s[..i] + [s[i]];
      var c := s[i];
      if c == '.' {
        if dotSeen {
          DotsInPrefix(s, i + 1);
          return false;
        }
        dotSeen := true;
        continue;
      }
      var val := CharToDigit(c);
      if val.Err? || val.value >= base {
        return false;
      }
    }
    assert s[..|s|] == s;
    if |s| == 0 || (dotSeen && |s| == 1) {
      if |s| == 1 {
        assert s == [s[0]];
      }
      return false;
    }
    return true;
  }

  /** split_number(): the text before the first '.', and the text after it
      (empty when there is no '.'). */
  function SplitNumber(s: string): (parts: (string, string))
    ensures '.' !in parts.0
    ensures '.' !in s ==> parts == (s, "")
    ensures '.' in s ==> parts.0 + "." + parts.1 == s
  {
    var k := FirstDot(s);
    if k == |s| then (s, "")
    else
      assert s[..k] + "." + s[k + 1..] == s;
      (s[..k], s[k + 1..])
  }

  // ---------------------------------------------------------------------
  // The fractional part

  /** The first digits of numerator / denominator in a base: each step
      multiplies the remainder by the base and divides; the expansion stops
      after fuel digits or as soon as the remainder is 0. */
  function FractionText(n: int, d: int, base: int, fuel: nat): (t: string)
    requires 0 <= n < d && 2 <= base <= 16
    ensures |t| <= fuel && IsNumeral(t)
    ensures fuel > 0 ==> |t| >= 1
    decreases fuel
  {
    if fuel == 0 then []
    else
      FractionDigitBound(n, d, base);
      var q := n * base / d;
      var r := n * base % d;
      [DigitToChar(q)] + (if r == 0 then [] else FractionText(r, d, base, fuel - 1))
  }

  /** Every character FractionText writes is a digit below the base. */
  lemma {:induction false} FractionTextDigits(n: int, d: int, base: int, fuel: nat)
    requires 0 <= n < d && 2 <= base <= 16
    ensures DigitsBelow(FractionText(n, d, base, fuel), base)
    decreases fuel
  {
    if fuel > 0 {
      FractionDigitBound(n, d, base);
      var q, r := n * base / d, n * base % d;
      var rest := if r == 0 then [] else FractionText(r, d, base, fuel - 1);
      if r != 0 {
        FractionTextDigits(r, d, base, fuel - 1);
      }
      assert FractionText(n, d, base, fuel) == [DigitToChar(q)] + rest;
    }
  }

  /** The digit loop of main(): at most limit (there 100) digits of
      numerator / denominator in the target base, stopping when the remainder
      is zero. */
  method FractionDigits(numerator: BigInt, denominator: BigInt, destBase: int, limit: nat) returns (frac: string)
    requires numerator.Valid() && denominator.Valid()
    requires numerator.Val() < denominator.Val() && 2 <= destBase <= 16
    ensures frac == FractionText(numerator.Val(), denominator.Val(), destBase, limit)
  {
    ghost var d := denominator.Val();
    ghost var whole := FractionText(numerator.Val(), d, destBase, limit);
    var n := numerator;
    frac := [];
    for i := 0 to limit
      invariant n.Valid() && n.Val() < d
      invariant whole == frac + FractionText(n.Val(), d, destBase, limit - i)
    {
      var done;
      frac, n, done := FractionStep(n, denominator, destBase, whole, frac, limit - i);
      if done {
        break;
      }
    }
  }

  /** One pass of the digit loop: the next digit is written, and the loop
      stops when the remainder is zero. */
  method FractionStep(n: BigInt, denominator: BigInt, destBase: int, ghost whole: string, frac: string, ghost fuel: nat)
    returns (nextFrac: string, rem: BigInt, done: bool)
    requires n.Valid() && denominator.Valid() && n.Val() < denominator.Val() && 2 <= destBase <= 16
    requires fuel > 0 && whole == frac + FractionText(n.Val(), denominator.Val(), destBase, fuel)
    ensures done ==> whole == nextFrac
    ensures !done ==> && rem.Valid() && rem.Val() < denominator.Val()
                      && whole == nextFrac + FractionText(rem.Val(), denominator.Val(), destBase, fuel - 1)
  {
    var digit;
    digit, rem := NextFractionDigit(n, denominator, destBase);
    FractionTextStep(whole, n.Val(), denominator.Val(), destBase, fuel, frac, digit, rem.Val());
    nextFrac := frac + [DigitToChar(digit)];
    done := rem.IsZero();
  }

  /** The loop invariant of the digit loop after one more digit. */
  lemma {:induction false} FractionTextStep(whole: string, n: int, d: int, base: int, fuel: nat, frac: string,
                                            digit: int, r: int)
    requires 0 <= n < d && 2 <= base <= 16 && fuel > 0
    requires digit == n * base / d && r == n * base % d && 0 <= digit < base && 0 <= r < d
    requires whole == frac + FractionText(n, d, base, fuel)
    ensures r == 0 ==> whole == frac + [DigitToChar(digit)]
    ensures r != 0 ==> whole == (frac + [DigitToChar(digit)]) + FractionText(r, d, base, fuel - 1)
  {
    var rest := if r == 0 then [] else FractionText(r, d, base, fuel - 1);
    assert FractionText(n, d, base, fuel) == [DigitToChar(digit)] + rest;
    assert frac + ([DigitToChar(digit)] + rest) == (frac + [DigitToChar(digit)]) + rest;
  }

  /** One pass of the digit loop: numerator * base divided by the
      denominator, the quotient read with the corrected to_int(). */
  method NextFractionDigit(n: BigInt, denominator: BigInt, destBase: int) returns (digit: int, rem: BigInt)
    requires n.Valid() && denominator.Valid()
    requires n.Val() < denominator.Val() && 2 <= destBase <= 16
    ensures digit == n.Val() * destBase / denominator.Val() && 0 <= digit < destBase
    ensures rem.Valid() && rem.Val() == n.Val() * destBase % denominator.Val()
  {
    var shifted := n.MulSmall(destBase);
    var qr := shifted.Divide(denominator);
    var quot := qr.value.0;
    rem := qr.value.1;
    FractionDigitBound(n.Val(), denominator.Val(), destBase);
    NT.DivModUnique(n.Val() * destBase, denominator.Val(), quot.Val(), rem.Val());
    digit := quot.ToSmallInt().value;
  }

  /** "0.75" from base 10 to base 16: the first pass divides 3 * 16 by 4, and
      the quotient 12 is a valid two-digit number. to_int() as written rejects
      it; the corrected reading gives the hexadecimal digit C. */
  lemma ThreeQuartersInHex(quot: BigInt)
    requires quot.Valid() && quot.Val() == 3 * 16 / 4
    ensures quot.ToInt() == Err(NotSingleDigit)
    ensures quot.ToSmallInt() == Ok(12) && DigitToChar(12) == 'C'
  {
  }

  /** The text without its trailing '0' characters. */
  function StripTrailingZeros(s: string): (t: string)
    ensures |t| <= |s| && t == s[..|t|]
    ensures forall i | |t| <= i < |s| :: s[i] == '0'
    ensures |t| == 0 || t[|t| - 1] != '0'
  {
    if |s| > 0 && s[|s| - 1] == '0' then StripTrailingZeros(s[..|s| - 1]) else s
  }

  /** The pop_back() loop after the digit loop. */
  method TrimTrailingZeros(s: string) returns (t: string)
    ensures t == StripTrailingZeros(s)
  {
    t := s;
    while |t| > 0 && t[|t| - 1] == '0'
      invariant StripTrailingZeros(t) == StripTrailingZeros(s)
    {
      t := t[..|t| - 1];
    }
  }

  // ---------------------------------------------------------------------
  // main()

  /** What main() prints for a validated numeral: the integer part (empty
      read as "0") in the target base, then '.' and the fractional digits
      when any are left after trimming trailing zeros. */
  function ConvertedText(input: string, srcBase: int, destBase: int): (result: string)
    requires 2 <= srcBase <= 16 && 2 <= destBase <= 16 && ValidNumeral(input, srcBase)
  {
    var destInt := IntegerText(input, srcBase, destBase);
    var destFrac := FractionalText(input, srcBase, destBase);
    if destFrac == "" then destInt else destInt + "." + destFrac
  }

  /** The integer part of the input, empty read as "0", written in the target base. */
  function IntegerText(input: string, srcBase: int, destBase: int): string
    requires 2 <= srcBase <= 16 && 2 <= destBase <= 16 && ValidNumeral(input, srcBase)
  {
    SplitDigits(input, srcBase);
    var parts := SplitNumber(input);
    var intStr := if parts.0 == "" then "0" else parts.0;
    RadixNumeral(RadixValue(intStr, srcBase), destBase)
  }

  /** The fractional part of the input as at most 100 digits in the target
      base, trailing zeros removed; empty when the input has none. */
  function FractionalText(input: string, srcBase: int, destBase: int): string
    requires 2 <= srcBase <= 16 && 2 <= destBase <= 16 && ValidNumeral(input, srcBase)
  {
    SplitDigits(input, srcBase);
    var fracStr := SplitNumber(input).1;
    RadixValueBound(fracStr, srcBase);
    NT.PowNonNegative(srcBase, |fracStr|);
    if fracStr == "" then ""
    else StripTrailingZeros(FractionText(RadixValue(fracStr, srcBase), NT.Pow(srcBase, |fracStr|), destBase, 100))
  }

  /** main() from split_number() to the assembled result, with the corrected
      multiplication and to_int() in the fractional part. */
  method Convert(input: string, srcBase: int, destBase: int) returns (result: string)
    requires 2 <= srcBase <= 16 && 2 <= destBase <= 16 && ValidNumeral(input, srcBase)
    ensures result == ConvertedText(input, srcBase, destBase)
  {
    SplitDigits(input, srcBase);
    var parts := SplitNumber(input);
    var intStr, fracStr := parts.0, parts.1;
    if intStr == "" {
      intStr := "0";
    }
    var decimalInt := SrcBaseToDecimalInt(intStr, srcBase);
    var destInt := DecimalIntToDestBase(decimalInt.value, destBase);
    var destFrac := "";
    if fracStr != "" {
      var numerator := SrcBaseToDecimalNormal(fracStr, srcBase);
      var denominator := PowerNormal(srcBase, |fracStr|);
      RadixValueBound(fracStr, srcBase);
      var digits := FractionDigits(numerator.value, denominator, destBase, 100);
      destFrac := TrimTrailingZeros(digits);
    }
    result := destInt;
    if destFrac != "" {
      result := result + "." + destFrac;
    }
  }

  // ---------------------------------------------------------------------
  // What the conversions mean

  /** Reading back the numeral of v gives v. */
  lemma {:induction false} RadixNumeralValue(v: nat, base: int)
    requires 2 <= base <= 16
    ensures RadixValue(RadixNumeral(v, base), base) == v
    decreases v
  {
    if v < base {
      RadixValueSnoc([], DigitToChar(v), base);
      assert [] + [DigitToChar(v)] == [DigitToChar(v)];
    } else {
      var q, r := v / base, v % base;
      NT.DivParts(v, base);
      QuotientFacts(v, base, q, r);
      assert RadixNumeral(v, base) == RadixNumeral(q, base) + [DigitToChar(r)];
      RadixNumeralValue(q, base);
      RadixValueSnoc(RadixNumeral(q, base), DigitToChar(r), base);
    }
  }

  /** The numerals digit_to_char() writes: upper-case digits below the base
      and no leading zero (a lone "0" allowed). */
  predicate CanonicalNumeral(t: string, base: int)
  {
    |t| >= 1 && IsNumeral(t) && DigitsBelow(t, base) &&
    (forall i | 0 <= i < |t| :: Upper(t[i]) == t[i]) &&
    (|t| > 1 ==> t[0] != '0')
  }

  /** toupper() on every character. */
  function UpperText(s: string): string
  {
    seq(|s|, i requires 0 <= i < |s| => Upper(s[i]))
  }

  /** A numeral upper-cased and stripped of its leading zeros, or "0" when
      nothing else is left. */
  function CanonicalText(s: string): string
    decreases |s|
  {
    if |s| > 1 && s[0] == '0' then CanonicalText(s[1..])
    else if |s| == 0 then "0"
    else UpperText(s)
  }

  /** The numeral of a value is the only canonical numeral with that value. */
  lemma {:induction false} NumeralUnique(t: string, base: int)
    requires 2 <= base <= 16 && CanonicalNumeral(t, base)
    ensures t == RadixNumeral(RadixValue(t, base), base)
    decreases |t|
  {
    var v := RadixValue(t, base);
    var last := t[|t| - 1];
    var d := CharToDigit(last).value;
    CharDigitRoundTrip(last);
    var front := t[..|t| - 1];
    assert front + [last] == t;
    RadixValueSnoc(front, last, base);
    var q := RadixValue(front, base);
    if |t| == 1 {
      assert front == [];
      QuotientFacts(v, base, 0, d);
    } else {
      assert front[0] == t[0];
      LeadingDigitPositive(front, base);
      NumeralUnique(front, base);
      QuotientFacts(v, base, q, d);
      assert RadixNumeral(v, base) == RadixNumeral(q, base) + [DigitToChar(d)];
    }
  }

  /** A numeral that does not start with '0' is worth more than 0. */
  lemma {:induction false} LeadingDigitPositive(t: string, base: int)
    requires base >= 2 && IsNumeral(t) && |t| >= 1 && t[0] != '0'
    ensures RadixValue(t, base) > 0
    decreases |t|
  {
    var front := t[..|t| - 1];
    assert front + [t[|t| - 1]] == t;
    RadixValueSnoc(front, t[|t| - 1], base);
    if |t| == 1 {
      assert CharToDigit(t[0]).value > 0;
    } else {
      assert front[0] == t[0];
      LeadingDigitPositive(front, base);
      NT.MulMonoStep(0, RadixValue(front, base), base);
    }
  }

  /** Upper-casing a digit keeps it a digit of the same value. */
  lemma UpperDigit(c: char)
    requires IsHexDigit(c)
    ensures IsHexDigit(Upper(c)) && CharToDigit(Upper(c)) == CharToDigit(c)
    ensures Upper(Upper(c)) == Upper(c)
  {
  }

  /** Upper-casing a numeral keeps its digits and its value. */
  lemma {:induction false} UpperTextValue(s: string, base: int)
    requires base >= 2 && IsNumeral(s)
    ensures IsNumeral(UpperText(s)) && RadixValue(UpperText(s), base) == RadixValue(s, base)
    ensures forall i | 0 <= i < |s| :: CharToDigit(UpperText(s)[i]) == CharToDigit(s[i])
    ensures forall i | 0 <= i < |s| :: Upper(UpperText(s)[i]) == UpperText(s)[i]
    decreases |s|
  {
    var u := UpperText(s);
    forall i | 0 <= i < |s|
      ensures IsHexDigit(u[i]) && CharToDigit(u[i]) == CharToDigit(s[i]) && Upper(u[i]) == u[i]
    {
      UpperDigit(s[i]);
    }
    if |s| > 0 {
      var front := s[..|s| - 1];
      assert UpperText(front) == u[..|s| - 1];
      UpperTextValue(front, base);
      assert front + [s[|s| - 1]] == s;
      RadixValueSnoc(front, s[|s| - 1], base);
      assert UpperText(front) + [u[|s| - 1]] == u;
      RadixValueSnoc(UpperText(front), u[|s| - 1], base);
    }
  }

  /** The canonical text of a numeral is canonical and has its value. */
  lemma {:induction false} CanonicalTextValue(s: string, base: int)
    requires 2 <= base <= 16 && IsNumeral(s) && DigitsBelow(s, base)
    ensures CanonicalNumeral(CanonicalText(s), base)
    ensures RadixValue(CanonicalText(s), base) == RadixValue(s, base)
    decreases |s|
  {
    if |s| > 1 && s[0] == '0' {
      var t := s[1..];
      assert [s[0]] + t == s;
      RadixValueCons(s[0], t, base);
      CanonicalTextValue(t, base);
    } else if |s| == 0 {
      RadixValueSnoc([], '0', base);
      assert [] + ['0'] == "0";
    } else {
      UpperTextValue(s, base);
    }
  }

  /** The integer round trip: reading a numeral and writing its value back
      in the same base gives the numeral upper-cased and without leading
      zeros ("0" when it has no other digit). */
  lemma {:induction false} IntegerRoundTrip(s: string, base: int)
    requires 2 <= base <= 16 && IsNumeral(s) && DigitsBelow(s, base)
    ensures RadixNumeral(RadixValue(s, base), base) == CanonicalText(s)
  {
    CanonicalTextValue(s, base);
    NumeralUnique(CanonicalText(s), base);
  }

  /** src_base_to_decimal_int() followed by decimal_int_to_dest_base() into
      the same base, the integer conversion of main() with equal bases. */
  method IntegerRoundTripText(s: string, base: int) returns (t: string)
    requires 2 <= base <= 16 && IsNumeral(s) && DigitsBelow(s, base)
    ensures t == CanonicalText(s)
  {
    var r := SrcBaseToDecimalInt(s, base);
    t := DecimalIntToDestBase(r.value, base);
    IntegerRoundTrip(s, base);
  }

  /** "FF" in base 16, written in base 2, is "11111111". */
  lemma HexToBinary()
    ensures RadixNumeral(RadixValue("FF", 16), 2) == "11111111"
  {
    RadixValueSnoc("", 'F', 16);
    assert "" + ['F'] == "F" && "F" + ['F'] == "FF";
    RadixValueSnoc("F", 'F', 16);
    assert RadixValue("FF", 16) == 255;
  }

  /** "00ff" in base 16 comes back as "FF". */
  lemma HexRoundTrip()
    ensures RadixNumeral(RadixValue("00ff", 16), 16) == "FF"
  {
    IntegerRoundTrip("00ff", 16);
    assert CanonicalText("00ff") == UpperText("ff");
  }

  /** A digit after a numeral: value * base + digit. */
  lemma {:induction false} RadixValueSnoc(front: string, c: char, base: int)
    requires IsNumeral(front) && IsHexDigit(c) && base >= 2
    ensures IsNumeral(front + [c])
    ensures RadixValue(front + [c], base) == RadixValue(front, base) * base + CharToDigit(c).value
  {
    assert (front + [c])[..|front|] == front;
  }

  /** A numeral whose digits are below the base is worth less than base^|s|. */
  lemma {:induction false} RadixValueBound(s: string, base: int)
    requires IsNumeral(s) && DigitsBelow(s, base) && base >= 2
    ensures RadixValue(s, base) < NT.Pow(base, |s|)
  {
    if |s| > 0 {
      var front := s[..|s| - 1];
      assert front + [s[|s| - 1]] == s;
      RadixValueBound(front, base);
      RadixValueSnoc(front, s[|s| - 1], base);
      BoundStep(RadixValue(front, base), NT.Pow(base, |front|), base, CharToDigit(s[|s| - 1]).value);
    }
  }

  /** A digit in front of a numeral adds its value times base^|t|. */
  lemma {:induction false} RadixValueCons(c: char, t: string, base: int)
    requires IsHexDigit(c) && IsNumeral(t) && base >= 2
    ensures IsNumeral([c] + t)
    ensures RadixValue([c] + t, base) == CharToDigit(c).value * NT.Pow(base, |t|) + RadixValue(t, base)
    decreases |t|
  {
    if |t| == 0 {
      RadixValueSnoc([], c, base);
      assert [] + [c] == [c] + t;
    } else {
      var front := t[..|t| - 1];
      var last := t[|t| - 1];
      assert front + [last] == t;
      assert ([c] + front) + [last] == [c] + t;
      RadixValueCons(c, front, base);
      RadixValueSnoc([c] + front, last, base);
      RadixValueSnoc(front, last, base);
      ConsStep(CharToDigit(c).value, NT.Pow(base, |front|), RadixValue(front, base), base, CharToDigit(last).value);
    }
  }

  /** The expansion is the truncation of numerator / denominator to its
      length: 0 <= n * base^|t| - value(t) * d < d, with equality (an exact
      expansion) when it stopped before running out of fuel. */
  lemma {:induction false} FractionTextValue(n: int, d: int, base: int, fuel: nat)
    requires 0 <= n < d && 2 <= base <= 16
    ensures var t := FractionText(n, d, base, fuel);
      0 <= n * NT.Pow(base, |t|) - RadixValue(t, base) * d < d &&
      (|t| < fuel ==> n * NT.Pow(base, |t|) == RadixValue(t, base) * d)
    decreases fuel
  {
    if fuel > 0 {
      var r := n * base % d;
      if r != 0 {
        FractionTextValue(r, d, base, fuel - 1);
      }
      FractionTextValueStep(n, d, base, fuel);
    }
  }

  /** The induction step of FractionTextValue: one more digit in front keeps
      the truncation bound. */
  lemma {:induction false} FractionTextValueStep(n: int, d: int, base: int, fuel: nat)
    requires 0 <= n < d && 2 <= base <= 16 && fuel > 0
    requires var r := n * base % d;
      r != 0 ==> var rest := FractionText(r, d, base, fuel - 1);
        0 <= r * NT.Pow(base, |rest|) - RadixValue(rest, base) * d < d &&
        (|rest| < fuel - 1 ==> r * NT.Pow(base, |rest|) == RadixValue(rest, base) * d)
    ensures var t := FractionText(n, d, base, fuel);
      0 <= n * NT.Pow(base, |t|) - RadixValue(t, base) * d < d &&
      (|t| < fuel ==> n * NT.Pow(base, |t|) == RadixValue(t, base) * d)
  {
    var t := FractionText(n, d, base, fuel);
    var q := n * base / d;
    var r := n * base % d;
    var rest := if r == 0 then [] else FractionText(r, d, base, fuel - 1);
    var p, vrest := NT.Pow(base, |rest|), RadixValue(rest, base);
    assert n * base == q * d + r && 0 <= r < d && NT.Pow(base, |t|) == base * p
        && RadixValue(t, base) == q * p + vrest && |t| == |rest| + 1 by {
      FractionTextUnfold(n, d, base, fuel);
    }
    if r == 0 {
      assert rest == [] && p == 1 && vrest == 0;
    }
    TruncationStep(n, base, d, q, r, p, vrest, NT.Pow(base, |t|), RadixValue(t, base), |t| < fuel);
  }

  /** One digit of the expansion, with its weight. */
  lemma {:induction false} FractionTextUnfold(n: int, d: int, base: int, fuel: nat)
    requires 0 <= n < d && 2 <= base <= 16 && fuel > 0
    ensures var q := n * base / d;
      var r := n * base % d;
      var rest := if r == 0 then [] else FractionText(r, d, base, fuel - 1);
      var t := FractionText(n, d, base, fuel);
      0 <= q < base && 0 <= r < d && n * base == q * d + r &&
      |t| == |rest| + 1 && NT.Pow(base, |t|) == base * NT.Pow(base, |rest|) &&
      RadixValue(t, base) == q * NT.Pow(base, |rest|) + RadixValue(rest, base)
  {
    FractionDigitBound(n, d, base);
    var q := n * base / d;
    var r := n * base % d;
    var c := DigitToChar(q);
    var rest := if r == 0 then [] else FractionText(r, d, base, fuel - 1);
    assert FractionText(n, d, base, fuel) == [c] + rest;
    RadixValueCons(c, rest, base);
    NT.DivParts(n * base, d);
  }

  /** What main() prints means the input: the integer part, read back in
      the target base, is the value of the input's integer part; the
      fractional part has at most 100 digits, no trailing '0', and is the
      input fraction F / base^|f| truncated to its length. */
  lemma {:induction false} ConvertedTextMeaning(input: string, srcBase: int, destBase: int)
    requires 2 <= srcBase <= 16 && 2 <= destBase <= 16 && ValidNumeral(input, srcBase)
    ensures var parts := SplitNumber(input);
      var intStr := if parts.0 == "" then "0" else parts.0;
      var out := SplitNumber(ConvertedText(input, srcBase, destBase));
      IsNumeral(intStr) && IsNumeral(parts.1) && IsNumeral(out.0) && IsNumeral(out.1) &&
      RadixValue(out.0, destBase) == RadixValue(intStr, srcBase) &&
      (|out.0| > 1 ==> out.0[0] != '0') &&
      |out.1| <= 100 && (|out.1| == 0 || out.1[|out.1| - 1] != '0') &&
      0 <= RadixValue(parts.1, srcBase) * NT.Pow(destBase, |out.1|)
             - RadixValue(out.1, destBase) * NT.Pow(srcBase, |parts.1|)
        < NT.Pow(srcBase, |parts.1|)
  {
    ConvertedSplit(input, srcBase, destBase);
    IntegerTextMeaning(input, srcBase, destBase);
    FractionalTextMeaning(input, srcBase, destBase);
  }

  /** The printed result splits back into its integer and fractional texts. */
  lemma {:induction false} ConvertedSplit(input: string, srcBase: int, destBase: int)
    requires 2 <= srcBase <= 16 && 2 <= destBase <= 16 && ValidNumeral(input, srcBase)
    ensures SplitNumber(ConvertedText(input, srcBase, destBase))
      == (IntegerText(input, srcBase, destBase), FractionalText(input, srcBase, destBase))
  {
    var destInt := IntegerText(input, srcBase, destBase);
    var destFrac := FractionalText(input, srcBase, destBase);
    assert IsNumeral(destInt);
    assert forall i | 0 <= i < |destInt| :: destInt[i] != '.';
    SplitJoin(destInt, destFrac);
  }

  /** The integer text reads back, in the target base, as the value of the
      input's integer part, with no leading '0' unless it is "0". */
  lemma {:induction false} IntegerTextMeaning(input: string, srcBase: int, destBase: int)
    requires 2 <= srcBase <= 16 && 2 <= destBase <= 16 && ValidNumeral(input, srcBase)
    ensures var parts := SplitNumber(input);
      var intStr := if parts.0 == "" then "0" else parts.0;
      var t := IntegerText(input, srcBase, destBase);
      IsNumeral(intStr) && IsNumeral(t) && RadixValue(t, destBase) == RadixValue(intStr, srcBase) &&
      (|t| > 1 ==> t[0] != '0')
  {
    SplitDigits(input, srcBase);
    var parts := SplitNumber(input);
    var intStr := if parts.0 == "" then "0" else parts.0;
    RadixNumeralValue(RadixValue(intStr, srcBase), destBase);
  }

  /** The fractional text has at most 100 digits, no trailing '0', and is
      the input fraction F / base^|f| truncated to its length. */
  lemma {:induction false} FractionalTextMeaning(input: string, srcBase: int, destBase: int)
    requires 2 <= srcBase <= 16 && 2 <= destBase <= 16 && ValidNumeral(input, srcBase)
    ensures var fracStr := SplitNumber(input).1;
      var t := FractionalText(input, srcBase, destBase);
      IsNumeral(fracStr) && IsNumeral(t) && |t| <= 100 && (|t| == 0 || t[|t| - 1] != '0') &&
      0 <= RadixValue(fracStr, srcBase) * NT.Pow(destBase, |t|)
             - RadixValue(t, destBase) * NT.Pow(srcBase, |fracStr|)
        < NT.Pow(srcBase, |fracStr|)
  {
    SplitDigits(input, srcBase);
    var fracStr := SplitNumber(input).1;
    var f, p := RadixValue(fracStr, srcBase), NT.Pow(srcBase, |fracStr|);
    assert 0 <= f < p by { RadixValueBound(fracStr, srcBase); }
    if fracStr == "" {
      assert f == 0 && NT.Pow(destBase, 0) == 1;
    } else {
      ConvertedFraction(f, p, destBase);
    }
  }

  /** The fractional digits of the result truncate f / p. */
  lemma {:induction false} ConvertedFraction(f: int, p: int, destBase: int)
    requires 0 <= f < p && 2 <= destBase <= 16
    ensures var t := StripTrailingZeros(FractionText(f, p, destBase, 100));
      IsNumeral(t) && |t| <= 100 && (|t| == 0 || t[|t| - 1] != '0') &&
      0 <= f * NT.Pow(destBase, |t|) - RadixValue(t, destBase) * p < p
  {
    var ft := FractionText(f, p, destBase, 100);
    FractionTextValue(f, p, destBase, 100);
    TruncatedStrip(f, p, destBase, ft);
  }

  /** Splitting a joined numeral gives back its two parts. */
  lemma {:induction false} SplitJoin(a: string, b: string)
    requires '.' !in a
    ensures SplitNumber(a + "." + b) == (a, b)
    ensures SplitNumber(a) == (a, "")
  {
    var s := a + "." + b;
    var k := FirstDot(s);
    assert s[|a|] == '.';
    assert forall i | 0 <= i < |a| :: s[i] == a[i];
    assert k == |a|;
    assert s[..k] == a && s[k + 1..] == b;
  }

  /** Dropping trailing zeros keeps a truncation a truncation. */
  lemma {:induction false} TruncatedStrip(f: int, p: int, base: int, s: string)
    requires IsNumeral(s) && base >= 2 && p >= 1
    requires 0 <= f * NT.Pow(base, |s|) - RadixValue(s, base) * p < p
    ensures var t := StripTrailingZeros(s);
      IsNumeral(t) && 0 <= f * NT.Pow(base, |t|) - RadixValue(t, base) * p < p
  {
    var t := StripTrailingZeros(s);
    var k := |s| - |t|;
    TrailingZerosValue(s, base);
    NT.PowAdd(base, |t|, k);
    PowAtLeastOne(base, k);
    ScaleBack(f, NT.Pow(base, |t|), RadixValue(t, base), p, NT.Pow(base, k));
  }

  lemma {:induction false} PowAtLeastOne(b: int, e: nat)
    requires b >= 1
    ensures NT.Pow(b, e) >= 1
  {
    if e > 0 {
      PowAtLeastOne(b, e - 1);
      NT.MulMonoStep(0, b, NT.Pow(b, e - 1));
    }
  }

  lemma {:induction false} ScaleBack(f: int, pt: int, vt: int, p: int, m: int)
    requires m >= 1 && p >= 1
    requires 0 <= f * (pt * m) - (vt * m) * p < p
    ensures 0 <= f * pt - vt * p < p
  {
    var x := f * pt - vt * p;
    assert f * (pt * m) - (vt * m) * p == x * m;
    if x < 0 {
      NT.MulMonoStep(x, 0, m);
      assert false;
    }
    MulNonNegative(x, m - 1);
    assert x * m == x * (m - 1) + x;
  }

  /** Trailing zeros do not change the value of a fraction: the numeral s
      over base^|s| equals the stripped numeral t over base^|t|. */
  lemma {:induction false} TrailingZerosValue(s: string, base: int)
    requires IsNumeral(s) && base >= 2
    ensures var t := StripTrailingZeros(s);
      IsNumeral(t) && RadixValue(s, base) == RadixValue(t, base) * NT.Pow(base, |s| - |t|)
    decreases |s|
  {
    var t := StripTrailingZeros(s);
    if |s| > 0 && s[|s| - 1] == '0' {
      var front := s[..|s| - 1];
      assert front + ['0'] == s;
      TrailingZerosValue(front, base);
      RadixValueSnoc(front, '0', base);
      ZeroStep(RadixValue(t, base), NT.Pow(base, |front| - |t|), base);
    }
  }

  // ---------------------------------------------------------------------
  // Helpers

  lemma MulNonNegative(a: int, b: int)
    requires a >= 0 && b >= 0
    ensures a * b >= 0
  {
  }

  lemma {:induction false} BoundStep(v: int, p: int, base: int, digit: int)
    requires 0 <= v < p && 0 <= digit < base
    ensures v * base + digit < base * p
  {
    NT.MulMonoStep(v, p, base);
  }

  lemma {:induction false} ConsStep(dv: int, p: int, front: int, base: int, last: int)
    ensures (dv * p + front) * base + last == dv * (base * p) + (front * base + last)
  {
  }

  lemma {:induction false} ZeroStep(vt: int, p: int, base: int)
    ensures vt * p * base + 0 == vt * (base * p)
  {
  }

  lemma {:induction false} FractionDigitBound(n: int, d: int, base: int)
    requires 0 <= n < d && 2 <= base
    ensures 0 <= n * base / d < base && 0 <= n * base % d < d
  {
    var q := n * base / d;
    assert q * d + n * base % d == n * base;
    NT.MulMonoStep(n, d, base);
    assert (base - 1) * d + d == base * d;
    MulNonNegative(n, base);
    if q >= base {
      NT.MulMonoStep(base - 1, q, d);
      assert false;
    }
  }

  /** One step of decimal_int_to_dest_base(). */
  lemma {:induction false} RadixNumeralStep(v: int, base: int, q: int, r: int)
    requires 2 <= base <= 16 && v >= 0 && q >= 0 && 0 <= r < base && q * base + r == v
    ensures q <= v && (v > 0 ==> q < v)
    ensures RadixNumeral(v, base) == (if q > 0 then RadixNumeral(q, base) else []) + [DigitToChar(r)]
  {
    QuotientFacts(v, base, q, r);
  }

  lemma {:induction false} QuotientFacts(v: int, base: int, q: int, r: int)
    requires 2 <= base && v >= 0 && q >= 0 && 0 <= r < base && q * base + r == v
    ensures q == v / base && r == v % base
    ensures q == 0 <==> v < base
    ensures q <= v && (v > 0 ==> q < v)
  {
    NT.DivModUnique(v, base, q, r);
    NT.MulMonoStep(1, base, q);
    if q >= 1 {
      NT.MulMonoStep(0, q, base);
    }
  }

  /** The loop invariant of decimal_int_to_dest_base() after one division. */
  lemma {:induction false} DestBaseStep(total: nat, v: int, base: int, q: int, r: int, s: string)
    requires 2 <= base <= 16 && v >= 0 && q >= 0 && 0 <= r < base && q * base + r == v
    requires v > 0 || |s| == 0
    requires RadixNumeral(total, base) == (if v > 0 || |s| == 0 then RadixNumeral(v, base) else []) + s
    ensures q <= v && (v > 0 ==> q < v)
    ensures RadixNumeral(total, base)
      == (if q > 0 || |[DigitToChar(r)] + s| == 0 then RadixNumeral(q, base) else []) + ([DigitToChar(r)] + s)
  {
    var c := DigitToChar(r);
    var front := if q > 0 then RadixNumeral(q, base) else [];
    assert RadixNumeral(v, base) == front + [c] by { RadixNumeralStep(v, base, q, r); }
    assert RadixNumeral(total, base) == RadixNumeral(v, base) + s;
    assert (front + [c]) + s == front + ([c] + s);
    assert q <= v && (v > 0 ==> q < v) by { QuotientFacts(v, base, q, r); }
  }

  lemma {:induction false} TruncationStep(n: int, base: int, d: int, q: int, r: int, p: int, vrest: int,
                                          pt: int, vt: int, exact: bool)
    requires n * base == q * d + r && 0 <= r * p - vrest * d < d
    requires pt == base * p && vt == q * p + vrest && (exact ==> r * p == vrest * d)
    ensures 0 <= n * pt - vt * d < d
    ensures exact ==> n * pt == vt * d
  {
    assert n * (base * p) == (n * base) * p;
    assert (q * d + r) * p == q * p * d + r * p;
  }

  /** Two dots in a prefix are two dots in the whole text. */
  lemma DotsInPrefix(s: string, k: nat)
    requires k <= |s|
    ensures multiset(s)['.'] >= multiset(s[..k])['.']
  {
    assert s == s[..k] + s[k..];
  }

  /** Both parts of a validated numeral are numerals of digits below the base. */
  lemma SplitDigits(s: string, base: int)
    requires ValidNumeral(s, base)
    ensures var parts := SplitNumber(s);
      IsNumeral(parts.0) && DigitsBelow(parts.0, base) && IsNumeral(parts.1) && DigitsBelow(parts.1, base)
  {
    var parts := SplitNumber(s);
    var k := FirstDot(s);
    if k < |s| {
      assert s == s[..k] + [s[k]] + s[k + 1..];
      assert multiset(s)['.'] == multiset(s[..k])['.'] + 1 + multiset(s[k + 1..])['.'];
      assert forall i | 0 <= i < |parts.1| :: parts.1[i] == s[k + 1 + i];
      assert multiset(s[k + 1..])['.'] == 0;
      assert '.' !in parts.1;
    }
  }
}
