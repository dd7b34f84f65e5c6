/** The free string functions of the primality tester (exe/prime.cpp). Every
    number is a decimal numeral without leading zeros, as main() produces
    after stripping them. */
module PrimeArith {
  import opened Digits
  import NT = NumberTheory
  import HighPrecisionBigInt

  /** compare(): length first, then character order; its sign is the sign of a - b.
      For equal lengths the program returns std::string::compare, whose
      magnitude is unspecified; every caller tests only the sign, so the
      model returns -1, 0 or 1. */
  function Compare(a: string, b: string): (r: int)
    requires IsNormal(a) && IsNormal(b)
    ensures r == -1 || r == 0 || r == 1
    ensures r < 0 <==> Value(a) < Value(b)
    ensures r == 0 <==> Value(a) == Value(b)
    ensures r > 0 <==> Value(a) > Value(b)
  {
    LengthLexLessValue(a, b);
    LengthLexLessValue(b, a);
    NormalUnique(a, b);
    if |a| != |b| then (if |a| < |b| then -1 else 1)
    else if a == b then 0
    else if LexLess(a, b) then -1
    else 1
  }

  /** How many digits of a string of length len are still unread after k
      columns: the index of the next digit, plus one. */
  function Unread(len: nat, k: nat): nat
  {
    if k <= len then len - k else 0
  }

  function Max(x: nat, y: nat): nat
  {
    if x < y then y else x
  }

  /** add(): column addition from the right while a digit or a carry is left. */
  method Add(a: string, b: string) returns (r: string)
    requires IsNormal(a) && IsNormal(b)
    ensures IsNormal(r) && Value(r) == Value(a) + Value(b)
  {
    r := "";
    var carry := 0;
    var i, j := |a| - 1, |b| - 1;
    while i >= 0 || j >= 0 || carry != 0
      invariant i + 1 == Unread(|a|, |r|) && j + 1 == Unread(|b|, |r|)
      invariant carry == 0 || carry == 1
      invariant IsDigits(r)
      invariant Value(r) + carry * Pow10(|r|) == LowDigits(a, |r|) + LowDigits(b, |r|)
      invariant |r| > Max(|a|, |b|) ==> |r| == Max(|a|, |b|) + 1 && carry == 0 && r[0] == '1'
      decreases i + j + 2, carry
    {
      var da, db := 0, 0;
      if i >= 0 {
        da := DigitVal(a[i]);
        i := i - 1;
      }
      if j >= 0 {
        db := DigitVal(b[j]);
        j := j - 1;
      }
      var next, nextCarry := AddDigits(r, carry, da, db);
      AddInvariantStep(a, b, |r|, Value(r), carry, da, db, Value(next), nextCarry);
      r, carry := next, nextCarry;
    }
    LowDigitsAll(a, |r|);
    LowDigitsAll(b, |r|);
    SumIsNormal(a, b, r);
  }

  /** One column of add(): the digit of carry + da + db goes in front of r. */
  method AddDigits(r: string, carry: int, da: int, db: int) returns (next: string, nextCarry: int)
    requires IsDigits(r) && 0 <= carry <= 1 && 0 <= da <= 9 && 0 <= db <= 9
    ensures IsDigits(next) && |next| == |r| + 1 && next[0] == DigitChar((carry + da + db) % 10)
    ensures nextCarry == (carry + da + db) / 10 && 0 <= nextCarry <= 1
    ensures Value(next) + nextCarry * Pow10(|next|) == Value(r) + (carry + da + db) * Pow10(|r|)
  {
    var sum := carry + da + db;
    next := [DigitChar(sum % 10)] + r;
    ValuePrepend(r, sum % 10, sum / 10);
    nextCarry := sum / 10;
    assert sum % 10 + 10 * (sum / 10) == sum;
  }

  /** subtract(): "0" when a < b; otherwise column subtraction with borrow and
      the leading zeros removed. */
  method Subtract(a: string, b: string) returns (r: string)
    requires IsNormal(a) && IsNormal(b)
    ensures IsNormal(r)
    ensures Value(a) >= Value(b) ==> Value(r) == Value(a) - Value(b)
    ensures Value(a) < Value(b) ==> r == "0"
  {
    if Compare(a, b) < 0 {
      return "0";
    }
    var res := Borrowing(a, b);
    while |res| > 1 && res[0] == '0'
      invariant IsDigits(res) && |res| >= 1 && Value(res) == Value(a) - Value(b)
    {
      FrontZero(res);
      res := res[1..];
    }
    r := res;
  }

  /** The borrow loop of subtract(), for a >= b: one column per digit of a. */
  method Borrowing(a: string, b: string) returns (res: string)
    requires IsNormal(a) && IsNormal(b) && Value(a) >= Value(b)
    ensures IsDigits(res) && |res| == |a| && Value(res) == Value(a) - Value(b)
  {
    if |b| > |a| {
      LengthOrder(a, b);
    }
    res := "";
    var carry := 0;
    var i, j := |a| - 1, |b| - 1;
    while i >= 0 || j >= 0 || carry != 0
      invariant |res| <= |a| && i + 1 == |a| - |res| && j + 1 == Unread(|b|, |res|)
      invariant carry == 0 || carry == 1
      invariant |res| == |a| ==> carry == 0
      invariant IsDigits(res)
      invariant Value(res) - carry * Pow10(|res|) == LowDigits(a, |res|) - LowDigits(b, |res|)
      decreases i + 1
    {
      var digitA := DigitVal(a[i]);
      i := i - 1;
      var digitB := 0;
      if j >= 0 {
        digitB := DigitVal(b[j]);
        j := j - 1;
      }
      res, carry := BorrowColumn(a, b, res, carry, digitA, digitB);
    }
    LowDigitsAll(a, |res|);
    LowDigitsAll(b, |res|);
  }

  /** One column of subtract(): the digit of a minus the digit of b and the
      borrow, made non-negative by borrowing 10. */
  method BorrowColumn(a: string, b: string, res: string, carry: int, digitA: int, digitB: int)
    returns (next: string, borrow: int)
    requires IsNormal(a) && IsNormal(b) && Value(a) >= Value(b) && |b| <= |a|
    requires |res| < |a| && (carry == 0 || carry == 1) && IsDigits(res)
    requires Value(res) - carry * Pow10(|res|) == LowDigits(a, |res|) - LowDigits(b, |res|)
    requires digitA == DigitVal(a[|a| - 1 - |res|])
    requires digitB == (if |res| < |b| then DigitVal(b[|b| - 1 - |res|]) else 0)
    ensures |next| == |res| + 1 && IsDigits(next) && (borrow == 0 || borrow == 1)
    ensures |next| == |a| ==> borrow == 0
    ensures Value(next) - borrow * Pow10(|next|) == LowDigits(a, |next|) - LowDigits(b, |next|)
  {
    var diff := digitA - digitB - carry;
    borrow := 0;
    if diff < 0 {
      diff := diff + 10;
      borrow := 1;
    }
    next := [DigitChar(diff)] + res;
    ValueCons(DigitChar(diff), res);
    SubInvariantStep(a, b, |res|, Value(res), carry, borrow, digitA, digitB, diff, Value(next));
    if |next| == |a| {
      assert borrow == 0 by {
        LowDigitsAll(a, |next|);
        LowDigitsAll(b, |next|);
        ValueBound(next);
        NoFinalBorrow(Value(a) - Value(b), Value(next), borrow, Pow10(|next|));
      }
    }
  }

  lemma {:induction false} NoFinalBorrow(diff: int, v: int, borrow: int, p: int)
    requires diff >= 0 && 0 <= v < p && (borrow == 0 || borrow == 1) && v - borrow * p == diff
    ensures borrow == 0
  {
  }

  /** divide_by_2(): halve digit by digit from the left, then drop leading zeros. */
  method DivideBy2(a: string) returns (r: string)
    requires IsDigits(a)
    ensures IsNormal(r) && Value(r) == Value(a) / 2
  {
    var res := "";
    var carry := 0;
    var k := 0;
    while k < |a|
      invariant 0 <= k <= |a| && |res| == k && IsDigits(res)
      invariant carry == 0 || carry == 1
      invariant Value(res) * 2 + carry == Value(a[..k])
    {
      var cur := carry * 10 + DigitVal(a[k]);
      ValuePrefixStep(a, k);
      ValueAppendDigit(res, DigitChar(cur / 2));
      HalveStep(Value(res), carry, DigitVal(a[k]), Value(a[..k]));
      res := res + [DigitChar(cur / 2)];
      carry := cur % 2;
      k := k + 1;
    }
    assert a[..|a|] == a;
    NT.DivModUnique(Value(a), 2, Value(res), carry);
    StripZerosValue(res);
    r := StripZeros(res);
  }

  /** mod(): the remainder by a small int, digit by digit; res * 10 + 9 must
      fit in a 32-bit int. */
  method Mod(a: string, m: int) returns (r: int)
    requires IsDigits(a) && 0 < m <= 214748364
    ensures r == Value(a) % m
  {
    r := 0;
    var k := 0;
    while k < |a|
      invariant 0 <= k <= |a|
      invariant r == Value(a[..k]) % m
    {
      ValuePrefixStep(a, k);
      ModDigitStep(Value(a[..k]), DigitVal(a[k]), m, r);
      r := (r * 10 + DigitVal(a[k])) % m;
      k := k + 1;
    }
    assert a[..|a|] == a;
  }

  /** multiply(): the schoolbook product, "0" when a factor is "0". */
  method Multiply(a: string, b: string) returns (r: string)
    requires IsNormal(a) && IsNormal(b)
    ensures IsNormal(r) && Value(r) == Value(a) * Value(b)
  {
    if a == "0" || b == "0" {
      ZeroText();
      return "0";
    }
    var res := HighPrecisionBigInt.Products(a, b);
    r := HighPrecisionBigInt.ProductText(res);
  }

  /** mod_big(): a itself when a < n; otherwise bring down one digit at a
      time, drop leading zeros and subtract n while the remainder is at least n.
      With n = 0 the subtraction loop would never end. */
  method ModBig(a: string, n: string) returns (r: string)
    requires IsNormal(a) && IsNormal(n) && Value(n) > 0
    ensures IsNormal(r) && Value(r) == Value(a) % Value(n)
    ensures Value(a) < Value(n) ==> r == a
  {
    ghost var N := Value(n);
    if Compare(a, n) < 0 {
      NT.DivModUnique(Value(a), N, 0, Value(a));
      return a;
    }
    var remainder := "0";
    ZeroText();
    assert a[..0] == "";
    NT.DivModUnique(0, N, 0, 0);
    var k := 0;
    while k < |a|
      invariant 0 <= k <= |a|
      invariant IsNormal(remainder) && Value(remainder) == Value(a[..k]) % N
    {
      ghost var v := Value(a[..k]);
      ValuePrefixStep(a, k);
      ModDigitStep(v, DigitVal(a[k]), N, Value(remainder));
      remainder := BringDown(remainder, a[k], n);
      k := k + 1;
    }
    assert a[..|a|] == a;
    r := remainder;
  }

  /** One digit of mod_big: append it, drop leading zeros, subtract n while
      the remainder is at least n. */
  method BringDown(remainder0: string, digit: char, n: string) returns (remainder: string)
    requires IsNormal(remainder0) && IsDigit(digit) && IsNormal(n) && Value(n) > 0
    ensures IsNormal(remainder)
    ensures Value(remainder) == (10 * Value(remainder0) + DigitVal(digit)) % Value(n)
  {
    ghost var target := (10 * Value(remainder0) + DigitVal(digit)) % Value(n);
    ValueAppendDigit(remainder0, digit);
    remainder := remainder0 + [digit];
    while |remainder| > 1 && remainder[0] == '0'
      invariant IsDigits(remainder) && |remainder| >= 1 && Value(remainder) % Value(n) == target
    {
      FrontZero(remainder);
      remainder := remainder[1..];
    }
    while Compare(remainder, n) >= 0
      invariant IsNormal(remainder) && Value(remainder) % Value(n) == target
      decreases Value(remainder)
    {
      NT.ModAddMultiple(Value(remainder) - Value(n), 1, Value(n));
      remainder := Subtract(remainder, n);
    }
    NT.DivModUnique(Value(remainder), Value(n), 0, Value(remainder));
  }

  /** The inner loop of multiply_mod: a copy of a multiplied in place by one
      digit from the right, with the final carry written in front. */
  method MultiplyDigit(a: string, digit: int) returns (temp: string)
    requires IsNormal(a) && a != "0" && 1 <= digit <= 9
    ensures IsNormal(temp) && temp != "0" && Value(temp) == Value(a) * digit
  {
    assert Value(a) * digit >= Value(a) by {
      MulLess(0, digit, Value(a));
    }
    temp := a;
    var carry := 0;
    var j := |temp| - 1;
    ghost var low: string := [];
    assert temp == a[..j + 1] + low;
    while j >= 0
      invariant -1 <= j < |a| && |low| == |a| - 1 - j && IsDigits(low)
      invariant temp == a[..j + 1] + low
      invariant 0 <= carry < 10
      invariant Value(low) + carry * Pow10(|low|) == Value(a[j + 1..]) * digit
    {
      temp, carry, low := MultiplyColumn(a, digit, temp, j, carry, low);
      j := j - 1;
    }
    assert temp == low && a[0..] == a;
    temp := AttachCarry(a, digit, temp, carry);
  }

  /** The end of that loop: a non-zero final carry is written in front. */
  method AttachCarry(a: string, digit: int, low: string, carry: int) returns (temp: string)
    requires IsNormal(a) && a != "0" && 1 <= digit <= 9 && 0 <= carry < 10
    requires IsDigits(low) && |low| == |a| && Value(a) * digit >= Value(a)
    requires Value(low) + carry * Pow10(|low|) == Value(a) * digit
    ensures IsNormal(temp) && temp != "0" && Value(temp) == Value(a) * digit
  {
    temp := low;
    if carry > 0 {
      ValuePrepend(temp, carry, 0);
      temp := [DigitChar(carry)] + temp;
    }
    ProductIsNormal(a, temp);
  }

  /** One column of that loop: digit j of the copy becomes the low digit of
      digit * a[j] + carry, and the rest is carried. low is the part of the
      copy already rewritten. */
  method MultiplyColumn(a: string, digit: int, temp: string, j: int, carry: int, ghost low: string)
    returns (next: string, nextCarry: int, ghost nextLow: string)
    requires IsDigits(a) && 0 <= j < |a| && 1 <= digit <= 9 && 0 <= carry < 10
    requires IsDigits(low) && |low| == |a| - 1 - j && temp == a[..j + 1] + low
    requires Value(low) + carry * Pow10(|low|) == Value(a[j + 1..]) * digit
    ensures IsDigits(nextLow) && |nextLow| == |low| + 1 && next == a[..j] + nextLow
    ensures 0 <= nextCarry < 10
    ensures Value(nextLow) + nextCarry * Pow10(|nextLow|) == Value(a[j..]) * digit
  {
    assert temp[j] == a[j];
    var d := DigitVal(temp[j]);
    ColumnBound(d, digit, carry);
    var product := d * digit + carry;
    next := temp[j := DigitChar(product % 10)];
    nextLow := [DigitChar(product % 10)] + low;
    assert next == a[..j] + nextLow;
    HighPrecisionBigInt.MulDigitStep(a, j, digit, low, carry, nextLow);
    nextCarry := product / 10;
  }

  lemma {:induction false} ColumnBound(d: int, digit: int, carry: int)
    requires 0 <= d < 10 && 1 <= digit <= 9 && 0 <= carry < 10
    ensures 0 <= d * digit + carry <= 90
  {
    MulLess(d, 10, digit);
  }

  /** multiply_mod(): "0" when a factor is "0"; otherwise, for each non-zero
      digit of b from the right, add a * digit shifted to its place and reduce
      modulo n. */
  method MultiplyMod(a: string, b: string, n: string) returns (r: string)
    requires IsNormal(a) && IsNormal(b) && IsNormal(n)
    requires Value(n) > 0 || a == "0" || b == "0"
    ensures IsNormal(r)
    ensures a == "0" || b == "0" ==> r == "0"
    ensures Value(n) > 0 ==> Value(r) == (Value(a) * Value(b)) % Value(n)
  {
    if a == "0" || b == "0" {
      ZeroText();
      assert Value(a) * Value(b) == 0;
      return "0";
    }
    var result := "0";
    ZeroText();
    var i := |b| - 1;
    assert b[|b|..] == [];
    assert Value(a) * Value(b[i + 1..]) == 0;
    NT.DivModUnique(0, Value(n), 0, 0);
    while i >= 0
      invariant -1 <= i < |b|
      invariant IsNormal(result) && Value(result) == (Value(a) * Value(b[i + 1..])) % Value(n)
    {
      result := MultiplyModRow(a, b, n, i, result);
      i := i - 1;
    }
    assert b[0..] == b;
    r := result;
  }

  /** One row of multiply_mod: for a non-zero digit b[i], a * b[i] shifted to
      its place is added and the sum reduced modulo n. */
  method MultiplyModRow(a: string, b: string, n: string, i: int, result: string) returns (next: string)
    requires IsNormal(a) && a != "0" && IsDigits(b) && IsNormal(n) && Value(n) > 0 && 0 <= i < |b|
    requires IsNormal(result) && Value(result) == (Value(a) * Value(b[i + 1..])) % Value(n)
    ensures IsNormal(next) && Value(next) == (Value(a) * Value(b[i..])) % Value(n)
  {
    ghost var before := Value(b[i + 1..]);
    ValueSuffixStep(b, i);
    var digit := DigitVal(b[i]);
    if digit == 0 {
      return result;
    }
    var temp := MultiplyDigit(a, digit);
    var shift := |b| - 1 - i;
    ValueTrailingZeros(temp, shift);
    ShiftedIsNormal(temp, shift);
    temp := temp + Zeros(shift);
    var sum := Add(result, temp);
    ModAccumulate(Value(a), before, digit, Pow10(shift), Value(n), Value(result));
    next := ModBig(sum, n);
  }

  /** power_mod(): square-and-multiply, reading b's bits by halving it. */
  method PowerMod(a0: string, b0: string, n: string) returns (result: string)
    requires IsNormal(a0) && IsNormal(b0) && IsNormal(n)
    requires Value(n) > 0 || a0 == "0" || b0 == "0"
    ensures IsNormal(result)
    ensures Value(b0) == 0 ==> result == "1"
    ensures Value(n) > 0 ==> Value(result) % Value(n) == NT.Pow(Value(a0), Value(b0)) % Value(n)
    ensures Value(n) >= 2 ==> Value(result) == NT.Pow(Value(a0), Value(b0)) % Value(n)
  {
    result := "1";
    OneText();
    var a, b := a0, b0;
    ZeroText();
    while Compare(b, "0") > 0
      invariant IsNormal(a) && IsNormal(b) && IsNormal(result)
      invariant Value(n) > 0 || a == "0" || Value(b) == 0
      invariant Value(b) <= Value(b0)
      invariant Value(b) == Value(b0) ==> result == "1" && a == a0
      invariant Value(n) > 0 ==>
        (Value(result) * NT.Pow(Value(a), Value(b))) % Value(n) == NT.Pow(Value(a0), Value(b0)) % Value(n)
      invariant Value(n) >= 2 ==> Value(result) < Value(n)
      decreases Value(b)
    {
      ghost var r0, x, e := Value(result), Value(a), Value(b);
      ValueLast(b);
      ParityOfLast(Value(b));
      var odd := DigitVal(b[|b| - 1]) % 2 == 1;
      if odd {
        result := MultiplyMod(result, a, n);
      }
      a := MultiplyMod(a, a, n);
      b := DivideBy2(b);
      if Value(n) > 0 {
        PowerStep(r0, x, e, Value(n), Value(result), Value(a), odd);
      }
    }
    if Value(n) >= 2 {
      NT.DivModUnique(Value(result), Value(n), 0, Value(result));
    }
    if Value(b0) == 0 {
      OneText();
    }
  }

  // ---------------------------------------------------------------------
  // Lemmas behind the loops

  lemma ZeroText()
    ensures IsNormal("0") && Value("0") == 0
  {
    assert "0"[..0] == "";
  }

  lemma OneText()
    ensures IsNormal("1") && Value("1") == 1
  {
    assert "1"[..0] == "";
  }

  /** The sum invariant of add() survives one more column. */
  lemma {:induction false} AddInvariantStep(a: string, b: string, k: nat, vr: int, carry: int, da: int, db: int, vnext: int, c: int)
    requires IsDigits(a) && IsDigits(b)
    requires vr + carry * Pow10(k) == LowDigits(a, k) + LowDigits(b, k)
    requires da == (if k < |a| then DigitVal(a[|a| - 1 - k]) else 0)
    requires db == (if k < |b| then DigitVal(b[|b| - 1 - k]) else 0)
    requires vnext + c * Pow10(k + 1) == vr + (carry + da + db) * Pow10(k)
    ensures vnext + c * Pow10(k + 1) == LowDigits(a, k + 1) + LowDigits(b, k + 1)
  {
    LowDigitsStep(a, k);
    LowDigitsStep(b, k);
    AddColumn(vr, Pow10(k), carry, da, db, LowDigits(a, k), LowDigits(b, k), vnext, c);
  }

  lemma {:induction false} AddColumn(vr: int, p: int, carry: int, da: int, db: int, va: int, vb: int, vnext: int, c: int)
    requires vr + carry * p == va + vb
    requires vnext + c * (10 * p) == vr + (carry + da + db) * p
    ensures vnext + c * (10 * p) == (va + da * p) + (vb + db * p)
  {
    assert (carry + da + db) * p == carry * p + da * p + db * p;
  }

  /** The sum of two normal numerals, as add() leaves it, is normal. */
  lemma {:induction false} SumIsNormal(a: string, b: string, r: string)
    requires IsNormal(a) && IsNormal(b) && IsDigits(r)
    requires Unread(|a|, |r|) == 0 && Unread(|b|, |r|) == 0
    requires Value(r) == Value(a) + Value(b)
    requires |r| > Max(|a|, |b|) ==> |r| == Max(|a|, |b|) + 1 && r[0] == '1'
    ensures IsNormal(r)
  {
    NormalByBound(r);
    if |r| == Max(|a|, |b|) && |r| > 1 {
      if |a| == |r| {
        FrontLower(a);
      } else {
        FrontLower(b);
      }
    }
  }

  /** The difference invariant of subtract() survives one more column. */
  lemma {:induction false} SubInvariantStep(a: string, b: string, k: nat, vr: int, carry: int, borrow: int, da: int, db: int, diff: int, vnext: int)
    requires IsDigits(a) && IsDigits(b) && k < |a|
    requires vr - carry * Pow10(k) == LowDigits(a, k) - LowDigits(b, k)
    requires da == DigitVal(a[|a| - 1 - k])
    requires db == (if k < |b| then DigitVal(b[|b| - 1 - k]) else 0)
    requires diff == da - db - carry + 10 * borrow
    requires vnext == diff * Pow10(k) + vr
    ensures vnext - borrow * Pow10(k + 1) == LowDigits(a, k + 1) - LowDigits(b, k + 1)
  {
    LowDigitsStep(a, k);
    LowDigitsStep(b, k);
    SubColumn(vr, Pow10(k), carry, borrow, da, db, diff, LowDigits(a, k), LowDigits(b, k), vnext);
  }

  lemma {:induction false} SubColumn(vr: int, p: int, carry: int, borrow: int, da: int, db: int, diff: int, va: int, vb: int, vnext: int)
    requires vr - carry * p == va - vb
    requires diff == da - db - carry + 10 * borrow
    requires vnext == diff * p + vr
    ensures vnext - borrow * (10 * p) == (va + da * p) - (vb + db * p)
  {
    assert diff * p == da * p - db * p - carry * p + borrow * (10 * p);
  }

  lemma {:induction false} HalveStep(vr: int, carry: int, d: int, va: int)
    requires vr * 2 + carry == va
    ensures (10 * vr + (carry * 10 + d) / 2) * 2 + (carry * 10 + d) % 2 == 10 * va + d
  {
    var cur := carry * 10 + d;
    assert (cur / 2) * 2 + cur % 2 == cur;
  }

  lemma {:induction false} ModDigitStep(v: nat, d: nat, m: nat, rem: nat)
    requires m > 0 && rem == v % m
    ensures (10 * rem + d) % m == (10 * v + d) % m
  {
    assert 10 * rem == rem * 10;
    NT.ModAddMultiple((v % m) * 10 + d, (v / m) * 10, m);
    assert (v % m) * 10 + d + (v / m) * 10 * m == 10 * v + d;
  }

  lemma {:induction false} ParityOfLast(v: nat)
    ensures v % 2 == (v % 10) % 2
  {
    assert v == 2 * (5 * (v / 10)) + v % 10;
    NT.ModAddMultiple(v % 10, 5 * (v / 10), 2);
  }

  lemma {:induction false} ProductIsNormal(a: string, temp: string)
    requires IsNormal(a) && a != "0" && IsDigits(temp) && Value(temp) >= Value(a)
    requires |temp| == |a| || (|temp| == |a| + 1 && temp[0] != '0')
    ensures IsNormal(temp) && temp != "0"
  {
    if |temp| == |a| + 1 {
      return;
    }
    assert Value(a) >= 1 by {
      NormalUnique(a, "0");
      ZeroText();
    }
    if |a| > 1 {
      assert Value(temp) >= Pow10(|temp| - 1) by {
        FrontLower(a);
      }
      NormalByBound(temp);
    } else {
      assert Value(temp) != Value("0") by {
        ZeroText();
      }
    }
  }

  lemma {:induction false} ShiftedIsNormal(temp: string, k: nat)
    requires IsNormal(temp) && temp != "0"
    ensures IsNormal(temp + Zeros(k))
  {
    ValueTrailingZeros(temp, k);
    if |temp| == 1 {
      assert temp[0] != '0';
    }
  }

  /** One row of multiply_mod keeps the running result equal to a times the
      digits of b read so far, modulo n. */
  lemma {:induction false} ModAccumulate(va: nat, before: nat, digit: nat, p: nat, n: nat, vr: nat)
    requires n > 0 && vr == (va * before) % n
    ensures (vr + va * digit * p) % n == (va * (digit * p + before)) % n
  {
    NT.ModAddMultiple(va * before % n + va * digit * p, va * before / n, n);
    assert va * before % n + va * digit * p + (va * before / n) * n == va * (digit * p + before);
  }

  /** One round of power_mod keeps result * a^b congruent to a0^b0. */
  lemma {:induction false} PowerStep(r: nat, x: nat, e: nat, n: nat, r': nat, x': nat, odd: bool)
    requires n > 0 && e > 0 && odd == (e % 2 == 1)
    requires odd ==> r' == (r * x) % n
    requires !odd ==> r' == r
    requires x' == (x * x) % n
    ensures (r' * NT.Pow(x', e / 2)) % n == (r * NT.Pow(x, e)) % n
  {
    var h := e / 2;
    var y := NT.Pow(x, 2 * h);
    var z := NT.Pow(x', h);
    NT.PowMod(x * x, h, n);
    NT.PowSquare(x, h);
    assert z % n == y % n;
    NT.ModMulRight(r', z, n);
    NT.ModMulRight(r', y, n);
    assert (r' * z) % n == (r' * y) % n;
    if odd {
      NT.PowAdd(x, 2 * h, 1);
      assert NT.Pow(x, 1) == x;
      assert e == 2 * h + 1;
      OddRound(r, x, y, n, r', NT.Pow(x, e));
    } else {
      assert e == 2 * h;
    }
  }

  lemma {:induction false} OddRound(r: int, x: int, y: int, n: int, r': int, p: int)
    requires n > 0 && r' == (r * x) % n && p == y * x
    ensures (r' * y) % n == (r * p) % n
  {
    NT.ModMulRight(y, r * x, n);
    assert r' * y == y * r';
    assert y * (r * x) == r * p;
  }
}
