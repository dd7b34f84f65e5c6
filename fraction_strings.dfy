/** The non-negative string arithmetic of the decimal/fraction converter
    (exe/Fraction.cpp): decimal digit strings that may carry leading zeros,
    which compare() ignores and the results drop. */
module FractionStrings {
  import opened Digits
  import NT = NumberTheory
  import PA = PrimeArith

  /** compare(): both sides stripped of leading zeros, then the shorter is
      smaller, and equal lengths are decided by the first differing digit;
      the result is the sign of a - b. */
  function Compare(a: string, b: string): (r: int)
    requires IsDigits(a) && IsDigits(b)
    ensures r == -1 || r == 0 || r == 1
    ensures r < 0 <==> Value(a) < Value(b)
    ensures r == 0 <==> Value(a) == Value(b)
    ensures r > 0 <==> Value(a) > Value(b)
  {
    var sa := StripZeros(a);
    var sb := StripZeros(b);
    StripZerosValue(a);
    StripZerosValue(b);
    LengthLexLessValue(sa, sb);
    LengthLexLessValue(sb, sa);
    NormalUnique(sa, sb);
    if |sa| != |sb| then (if |sa| < |sb| then -1 else 1)
    else if sa == sb then 0
    else if LexLess(sa, sb) then -1
    else 1
  }

  /** subtract(): column subtraction from the right over the longer of the
      two lengths, the last borrow dropped, leading zeros removed. For
      a >= b that is a - b; for a < b it is the ten's complement
      a - b + 10^max(|a|, |b|). */
  method Subtract(a: string, b: string) returns (r: string)
    requires IsDigits(a) && IsDigits(b)
    ensures IsNormal(r)
    ensures Value(a) >= Value(b) ==> Value(r) == Value(a) - Value(b)
    ensures Value(a) < Value(b) ==> Value(r) == Value(a) - Value(b) + Pow10(PA.Max(|a|, |b|))
  {
    var res, borrow := BorrowColumns(a, b);
    ValueBound(res);
    DroppedBorrow(Value(res), borrow, Pow10(|res|), Value(a), Value(b));
    StripZerosValue(res);
    r := StripZeros(res);
  }

  /** The column loop of subtract(): one digit per position of the longer
      operand, counted from the right (the indices i and j of the source run
      down together), a missing digit read as 0. */
  method BorrowColumns(a: string, b: string) returns (res: string, borrow: int)
    requires IsDigits(a) && IsDigits(b)
    ensures IsDigits(res) && |res| == PA.Max(|a|, |b|) && (borrow == 0 || borrow == 1)
    ensures Value(res) - borrow * Pow10(|res|) == Value(a) - Value(b)
  {
    res := "";
    borrow := 0;
    while |res| < PA.Max(|a|, |b|)
      invariant |res| <= PA.Max(|a|, |b|)
      invariant borrow == 0 || borrow == 1
      invariant IsDigits(res)
      invariant Value(res) - borrow * Pow10(|res|) == LowDigits(a, |res|) - LowDigits(b, |res|)
      decreases PA.Max(|a|, |b|) - |res|
    {
      var digitA, digitB := ColumnDigit(a, |res|), ColumnDigit(b, |res|);
      var next, nextBorrow := SubtractDigits(res, borrow, digitA, digitB);
      BorrowStep(a, b, |res|, Value(res), borrow, nextBorrow, digitA, digitB, Value(next));
      res, borrow := next, nextBorrow;
    }
    LowDigitsAll(a, |res|);
    LowDigitsAll(b, |res|);
  }

  /** The digit k places from the right end of s, 0 beyond its start. */
  function ColumnDigit(s: string, k: nat): (d: int)
    requires IsDigits(s)
    ensures 0 <= d <= 9
  {
    if k < |s| then DigitVal(s[|s| - 1 - k]) else 0
  }

  /** One column of subtract(): the digit of da - db - borrow, borrowing ten
      when it is negative, goes in front of res. */
  method SubtractDigits(res: string, borrow: int, da: int, db: int) returns (next: string, nextBorrow: int)
    requires IsDigits(res) && 0 <= borrow <= 1 && 0 <= da <= 9 && 0 <= db <= 9
    ensures IsDigits(next) && |next| == |res| + 1 && 0 <= nextBorrow <= 1
    ensures Value(next) == (da - db - borrow + 10 * nextBorrow) * Pow10(|res|) + Value(res)
  {
    var diff := da - db - borrow;
    nextBorrow := 0;
    if diff < 0 {
      diff := diff + 10;
      nextBorrow := 1;
    }
    next := [DigitChar(diff)] + res;
    ValueCons(DigitChar(diff), res);
  }

  /** multiplyByDigit(): "0" for the digit 0; otherwise one pass from the
      right with a carry, the last carry written in front. */
  method MultiplyByDigit(a: string, d: int) returns (r: string)
    requires IsDigits(a) && 0 <= d <= 9
    ensures IsDigits(r) && Value(r) == Value(a) * d
    ensures IsNormal(a) ==> IsNormal(r)
  {
    if d == 0 {
      PA.ZeroText();
      return "0";
    }
    var res, carry := CarryColumns(a, d);
    if carry != 0 {
      ValueCons(DigitChar(carry), res);
      res := [DigitChar(carry)] + res;
    }
    r := res;
    if IsNormal(a) {
      ProductNormal(a, d, r);
    }
  }

  /** The column loop of multiplyByDigit(), from the last digit to the first. */
  method CarryColumns(a: string, d: int) returns (res: string, carry: int)
    requires IsDigits(a) && 1 <= d <= 9
    ensures IsDigits(res) && |res| == |a| && 0 <= carry <= 8
    ensures Value(res) + carry * Pow10(|res|) == Value(a) * d
  {
    res := "";
    carry := 0;
    var i := |a| - 1;
    while i >= 0
      invariant -1 <= i < |a| && |res| == |a| - 1 - i
      invariant 0 <= carry <= 8
      invariant IsDigits(res)
      invariant Value(res) + carry * Pow10(|res|) == LowDigits(a, |res|) * d
    {
      var prod := DigitVal(a[i]) * d + carry;
      var next := [DigitChar(prod % 10)] + res;
      ValuePrepend(res, prod % 10, prod / 10);
      CarryStep(a, |res|, d, Value(res), carry, prod, Value(next));
      res, carry := next, prod / 10;
      i := i - 1;
    }
    LowDigitsAll(a, |res|);
  }

  /** divide(): ("0", dividend) when the dividend is smaller than the
      divisor; otherwise long division, one digit of the dividend at a time,
      with leading zeros removed from the quotient. A divisor "0" ends the
      program before this point. */
  method Divide(dividend: string, divisor: string) returns (quotient: string, remainder: string)
    requires IsDigits(dividend) && IsDigits(divisor) && Value(divisor) > 0
    ensures IsDigits(quotient) && IsDigits(remainder)
    ensures Value(quotient) * Value(divisor) + Value(remainder) == Value(dividend)
    ensures Value(remainder) < Value(divisor)
    ensures Value(dividend) < Value(divisor) ==> quotient == "0" && remainder == dividend
    ensures Value(dividend) >= Value(divisor) ==> IsNormal(quotient) && IsNormal(remainder)
  {
    if Compare(dividend, divisor) < 0 {
      PA.ZeroText();
      return "0", dividend;
    }
    ghost var d := Value(divisor);
    var quot := "";
    var rem := "";
    for k := 0 to |dividend|
      invariant IsDigits(quot) && IsDigits(rem)
      invariant k > 0 ==> IsNormal(rem)
      invariant Value(rem) < d
      invariant Value(quot) * d + Value(rem) == Value(dividend[..k])
    {
      quot, rem := LongColumn(dividend, k, divisor, quot, rem);
    }
    assert dividend[..|dividend|] == dividend;
    assert |dividend| > 0;
    StripZerosValue(quot);
    quotient := StripZeros(quot);
    remainder := rem;
  }

  /** One pass of divide()'s loop: the next dividend digit is brought down
      and the quotient digit appended. */
  method LongColumn(dividend: string, k: nat, divisor: string, quot: string, rem: string)
    returns (nextQuot: string, nextRem: string)
    requires IsDigits(dividend) && k < |dividend| && IsDigits(divisor) && Value(divisor) > 0
    requires IsDigits(quot) && IsDigits(rem) && Value(rem) < Value(divisor)
    requires Value(quot) * Value(divisor) + Value(rem) == Value(dividend[..k])
    ensures IsDigits(nextQuot) && IsNormal(nextRem) && Value(nextRem) < Value(divisor)
    ensures Value(nextQuot) * Value(divisor) + Value(nextRem) == Value(dividend[..k + 1])
  {
    var digit;
    digit, nextRem := BringDown(rem, dividend[k], divisor);
    ValuePrefixStep(dividend, k);
    ValueAppendDigit(quot, DigitChar(digit));
    QuotientStep(Value(quot), Value(rem), Value(divisor), DigitVal(dividend[k]), digit, Value(nextRem), Value(dividend[..k]));
    nextQuot := quot + [DigitChar(digit)];
  }

  /** One digit of divide(): append it to the remainder, drop leading zeros,
      and take out the largest multiple of the divisor that fits. */
  method BringDown(rem: string, c: char, divisor: string) returns (digit: int, next: string)
    requires IsDigits(rem) && IsDigit(c) && IsDigits(divisor) && 0 <= Value(rem) < Value(divisor)
    ensures 0 <= digit <= 9 && IsNormal(next) && Value(next) < Value(divisor)
    ensures digit * Value(divisor) + Value(next) == 10 * Value(rem) + DigitVal(c)
  {
    ValueAppendDigit(rem, c);
    StripZerosValue(rem + [c]);
    var cur := StripZeros(rem + [c]);
    if Compare(cur, divisor) >= 0 {
      digit, next := TrialDigit(cur, divisor);
    } else {
      digit, next := 0, cur;
    }
  }

  /** The trial loop of divide(): d from 9 down until divisor * d is not
      above the remainder, then that product subtracted. */
  method TrialDigit(cur: string, divisor: string) returns (digit: int, rest: string)
    requires IsNormal(cur) && IsDigits(divisor)
    requires 0 < Value(divisor) <= Value(cur) < 10 * Value(divisor)
    ensures 1 <= digit <= 9 && IsNormal(rest)
    ensures digit * Value(divisor) + Value(rest) == Value(cur) && Value(rest) < Value(divisor)
  {
    digit := 9;
    while true
      invariant 1 <= digit <= 9
      invariant Value(divisor) * (digit + 1) > Value(cur)
      decreases digit
    {
      var prod := MultiplyByDigit(divisor, digit);
      if Compare(cur, prod) >= 0 {
        break;
      }
      digit := digit - 1;
    }
    var prod := MultiplyByDigit(divisor, digit);
    rest := Subtract(cur, prod);
    StripNormal(rest);
    rest := StripZeros(rest);
    TrialBound(digit, Value(divisor), Value(cur));
  }

  /** divisibleBySmall(): the last digit decides; 2 tests evenness and any
      other d is treated as 5. */
  function DivisibleBySmall(s: string, d: int): (r: bool)
    requires IsDigits(s) && |s| >= 1
    ensures d == 2 ==> (r <==> Value(s) % 2 == 0)
    ensures d != 2 ==> (r <==> Value(s) % 5 == 0)
  {
    ValueLast(s);
    LastDigitDecides(Value(s));
    var last := DigitVal(s[|s| - 1]);
    if d == 2 then last % 2 == 0
    else last == 0 || last == 5
  }

  /** divideBySmall(): short division from the left with an int remainder,
      leading zeros removed. */
  method DivideBySmall(s: string, d: int) returns (r: string)
    requires IsDigits(s) && d > 0
    ensures IsNormal(r) && Value(r) == Value(s) / d
  {
    var res := "";
    var rem := 0;
    for k := 0 to |s|
      invariant IsDigits(res) && 0 <= rem < d
      invariant Value(res) * d + rem == Value(s[..k])
    {
      res, rem := ShortColumn(s, k, d, res, rem);
    }
    assert s[..|s|] == s;
    NT.DivModUnique(Value(s), d, Value(res), rem);
    StripZerosValue(res);
    r := StripZeros(res);
  }

  /** One pass of divideBySmall()'s loop: the next digit joins the
      remainder, the digit rem / d is appended, and rem % d carried on. */
  method ShortColumn(s: string, k: nat, d: int, res: string, rem: int) returns (nextRes: string, nextRem: int)
    requires IsDigits(s) && k < |s| && d > 0
    requires IsDigits(res) && 0 <= rem < d && Value(res) * d + rem == Value(s[..k])
    ensures IsDigits(nextRes) && 0 <= nextRem < d && Value(nextRes) * d + nextRem == Value(s[..k + 1])
  {
    var cur := rem * 10 + DigitVal(s[k]);
    ShortStep(Value(res), rem, d, DigitVal(s[k]), Value(s[..k]));
    ValuePrefixStep(s, k);
    ValueAppendDigit(res, DigitChar(cur / d));
    nextRes := res + [DigitChar(cur / d)];
    nextRem := cur % d;
  }

  // ---------------------------------------------------------------------
  // Lemmas behind the loops

  /** A normal string has no leading zeros to remove. */
  lemma {:induction false} StripNormal(s: string)
    requires IsNormal(s)
    ensures StripZeros(s) == s
  {
    StripZerosValue(s);
    NormalUnique(StripZeros(s), s);
  }

  /** The difference invariant of subtract() survives one more column. */
  lemma {:induction false} BorrowStep(a: string, b: string, k: nat, vr: int, borrow: int, nextBorrow: int,
                                      da: int, db: int, vnext: int)
    requires IsDigits(a) && IsDigits(b)
    requires vr - borrow * Pow10(k) == LowDigits(a, k) - LowDigits(b, k)
    requires da == ColumnDigit(a, k) && db == ColumnDigit(b, k)
    requires vnext == (da - db - borrow + 10 * nextBorrow) * Pow10(k) + vr
    ensures vnext - nextBorrow * Pow10(k + 1) == LowDigits(a, k + 1) - LowDigits(b, k + 1)
  {
    LowDigitsStep(a, k);
    LowDigitsStep(b, k);
    PA.SubColumn(vr, Pow10(k), borrow, nextBorrow, da, db, da - db - borrow + 10 * nextBorrow,
                 LowDigits(a, k), LowDigits(b, k), vnext);
  }

  /** With every column done, the borrow left over tells which case it was. */
  lemma {:induction false} DroppedBorrow(v: int, borrow: int, p: int, va: int, vb: int)
    requires 0 <= v < p && (borrow == 0 || borrow == 1)
    requires v - borrow * p == va - vb
    ensures va >= vb ==> v == va - vb
    ensures va < vb ==> v == va - vb + p
  {
  }

  /** The product invariant of multiplyByDigit() survives one more column. */
  lemma {:induction false} CarryStep(a: string, k: nat, d: int, vr: int, carry: int, prod: int, vnext: int)
    requires IsDigits(a) && k < |a| && 0 <= d <= 9 && 0 <= carry <= 8
    requires vr + carry * Pow10(k) == LowDigits(a, k) * d
    requires prod == DigitVal(a[|a| - 1 - k]) * d + carry
    requires vnext + (prod / 10) * Pow10(k + 1) == (prod % 10 + 10 * (prod / 10)) * Pow10(k) + vr
    ensures 0 <= prod / 10 <= 8
    ensures vnext + (prod / 10) * Pow10(k + 1) == LowDigits(a, k + 1) * d
  {
    var da, p := DigitVal(a[|a| - 1 - k]), Pow10(k);
    assert 0 <= prod / 10 <= 8 by { CarryBound(da, d, carry, prod); }
    assert LowDigits(a, k + 1) == da * p + LowDigits(a, k) by { LowDigitsStep(a, k); }
    assert Pow10(k + 1) == 10 * p;
    CarryArith(vr, carry, p, LowDigits(a, k), d, da, prod, prod % 10, prod / 10, vnext);
  }

  /** A digit times a digit plus a carry up to 8 carries at most 8. */
  lemma {:induction false} CarryBound(da: int, d: int, carry: int, prod: int)
    requires 0 <= da <= 9 && 0 <= d <= 9 && 0 <= carry <= 8 && prod == da * d + carry
    ensures 0 <= prod / 10 <= 8
  {
    assert da * d <= 81;
  }

  lemma {:induction false} CarryArith(vr: int, carry: int, p: int, low: int, d: int, da: int, prod: int,
                                      lo: int, hi: int, vnext: int)
    requires vr + carry * p == low * d
    requires prod == da * d + carry && lo + 10 * hi == prod
    requires vnext + hi * (10 * p) == (lo + 10 * hi) * p + vr
    ensures vnext + hi * (10 * p) == (da * p + low) * d
  {
    assert prod * p == da * d * p + carry * p;
    assert (da * p + low) * d == da * d * p + low * d;
  }

  /** A normal non-zero numeral times a digit keeps its length or gains a
      non-zero leading digit, so the product is normal. */
  lemma {:induction false} ProductNormal(a: string, d: int, r: string)
    requires IsNormal(a) && 1 <= d <= 9 && IsDigits(r) && Value(r) == Value(a) * d
    requires |r| == |a| || (|r| == |a| + 1 && r[0] != '0')
    ensures IsNormal(r)
  {
    if |a| > 1 && |r| == |a| {
      FrontLower(a);
      AtLeastOnce(Value(a), d);
      NormalByBound(r);
    }
  }

  lemma {:induction false} AtLeastOnce(v: int, d: int)
    requires v >= 0 && d >= 1
    ensures v * d >= v
  {
    assert v * d == v + v * (d - 1);
  }

  /** A quotient digit appended on the right keeps q * d + r equal to the
      prefix of the dividend read so far. */
  lemma {:induction false} QuotientStep(vq: int, vr: int, d: int, c: int, digit: int, vnext: int, vprefix: int)
    requires vq * d + vr == vprefix
    requires digit * d + vnext == 10 * vr + c
    ensures (10 * vq + digit) * d + vnext == 10 * vprefix + c
  {
    assert (10 * vq + digit) * d == 10 * (vq * d) + digit * d;
  }

  /** The digit the trial loop stops at leaves less than one divisor. */
  lemma {:induction false} TrialBound(digit: int, d: int, v: int)
    requires d * (digit + 1) > v
    ensures v - digit * d < d
  {
    assert d * (digit + 1) == digit * d + d;
  }

  /** The last decimal digit decides divisibility by 2 and by 5. */
  lemma {:induction false} LastDigitDecides(v: nat)
    ensures v % 2 == (v % 10) % 2 && v % 5 == (v % 10) % 5
  {
    assert v == 2 * (5 * (v / 10)) + v % 10;
    NT.ModAddMultiple(v % 10, 5 * (v / 10), 2);
    assert v == 5 * (2 * (v / 10)) + v % 10;
    NT.ModAddMultiple(v % 10, 2 * (v / 10), 5);
  }

  /** One step of divideBySmall(): the digit cur / d is below 10 and the
      invariant moves one digit right. */
  lemma {:induction false} ShortStep(vres: int, rem: int, d: int, c: int, vprefix: int)
    requires d > 0 && 0 <= rem < d && 0 <= c < 10 && vres * d + rem == vprefix
    ensures 0 <= (rem * 10 + c) / d < 10
    ensures (10 * vres + (rem * 10 + c) / d) * d + (rem * 10 + c) % d == 10 * vprefix + c
  {
    var cur := rem * 10 + c;
    var q := cur / d;
    assert q * d + cur % d == cur;
    assert cur < 10 * d;
    QuotientDigit(q, d, cur);
    assert (10 * vres + q) * d == 10 * (vres * d) + q * d;
  }
}
