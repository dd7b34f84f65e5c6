/** The vector<int> big integer of the radix converter
    (exe/High-Precision_Base_Converter.cpp): decimal digits, most significant
    first. Its operations are const and return new numbers, so it is a
    datatype whose methods return values.

    Two invariants matter. WellFormed (non-empty, no negative entry) is kept by
    every operation as written. Valid (every entry a digit 0..9, no leading
    zero) is what the size-first comparison needs; multiply_by_small breaks it
    for factors of 11 and more, and MulSmall is the corrected multiplication. */
module RadixBigInt {
  import opened Digits
  import NT = NumberTheory
  import opened Outcomes

  datatype BigInt = BigInt(digits: seq<int>)
  {
    predicate WellFormed()
    {
      |digits| >= 1 && NonNegative(digits)
    }

    /** What trim() leaves: no leading zero unless the number is a single 0. */
    predicate Trimmed()
    {
      WellFormed() && (|digits| > 1 ==> digits[0] != 0)
    }

    predicate Valid()
    {
      IsNormalSeq(digits)
    }

    function Val(): int
    {
      SeqValue(digits)
    }

    /** is_zero(): the single digit 0, which is exactly the value 0 once trimmed. */
    function IsZero(): (r: bool)
      ensures Trimmed() ==> (r <==> Val() == 0)
    {
      ZeroIsSingleDigit(digits);
      |digits| == 1 && digits[0] == 0
    }

    /** to_int() as written: the entry of a one-entry number; anything longer
        is an error, even a valid number as small as 10. */
    function ToInt(): (r: Result<int>)
      ensures Valid() ==> (r.Ok? <==> Val() < 10)
      ensures r.Ok? ==> r.value == Val()
      ensures r.Err? ==> r.error == NotSingleDigit
    {
      DigitsForBound(digits, 1);
      if |digits| != 1 then Err(NotSingleDigit) else Ok(digits[0])
    }

    /** to_int() as its callers need it: any valid number below 100, which
        covers every digit value 0..15 of a base up to 16. */
    function ToSmallInt(): (r: Result<int>)
      ensures Valid() ==> (r.Ok? <==> Val() < 100)
      ensures r.Ok? ==> r.value == Val()
      ensures r.Err? ==> r.error == OutOfRange
    {
      DigitsForBound(digits, 2);
      if |digits| > 2 then Err(OutOfRange) else Ok(SeqValue(digits))
    }

    /** operator<: the shorter vector is smaller, equal lengths compare digit by
        digit; on valid numbers this is numeric order. */
    function Less(other: BigInt): (r: bool)
      ensures Valid() && other.Valid() ==> (r <==> Val() < other.Val())
    {
      SizeOrder(digits, other.digits);
      SizeLexLess(digits, other.digits)
    }

    /** operator==: equal digit vectors; on valid numbers, equal values. */
    function Eq(other: BigInt): (r: bool)
      ensures Valid() && other.Valid() ==> (r <==> Val() == other.Val())
    {
      ValueEquality(digits, other.digits);
      digits == other.digits
    }

    function LessEq(other: BigInt): (r: bool)
      ensures Valid() && other.Valid() ==> (r <==> Val() <= other.Val())
    {
      Less(other) || Eq(other)
    }

    /** multiply_by_small() as written: the column loop, then the whole final
        carry put in front as one entry, which is 10 or more when the top
        column overflows by that much (9 * 16 = 144 leaves the entry 14). */
    method MultiplyBySmall(x: int) returns (r: BigInt)
      requires WellFormed() && x >= 0
      ensures r.WellFormed() && r.Val() == Val() * x
      ensures x == 0 ==> r.digits == [0]
      ensures x == 1 ==> r == this
      ensures x >= 2 ==> |digits| <= |r.digits| <= |digits| + 1
      ensures x >= 2 ==> AllDigits(r.digits[|r.digits| - |digits|..])
      ensures x >= 2 && |r.digits| > |digits| ==> r.digits[0] == Val() * x / Pow10(|digits|) > 0
      ensures x >= 2 && |r.digits| == |digits| ==> Val() * x < Pow10(|digits|)
      ensures Valid() && x <= 10 ==> r.Valid()
    {
      if x == 0 {
        assert [0][..0] == [];
        return BigInt([0]);
      }
      if x == 1 {
        return this;
      }
      var res, carry := MultiplyColumns(digits, x);
      r := BigInt(Attach(carry, res));
      AttachShape(digits, x, res, carry);
    }

    /** multiply_by_small() with the final carry split into digits: a valid
        number stays valid. */
    method MulSmall(x: int) returns (r: BigInt)
      requires Valid() && x >= 0
      ensures r.Valid() && r.Val() == Val() * x
    {
      if x == 0 {
        assert [0][..0] == [];
        return BigInt([0]);
      }
      if x == 1 {
        return this;
      }
      var res, carry := MultiplyColumns(digits, x);
      var out := res;
      while carry > 0
        invariant AllDigits(out) && |out| >= |digits| && carry >= 0
        invariant |out| == |digits| ==> out == res
        invariant SeqValue(out) + carry * Pow10(|out|) == Val() * x
        invariant |out| > |digits| ==> carry > 0 || out[0] != 0
        decreases carry
      {
        CarryPrepend(out, carry);
        out := [carry % 10] + out;
        carry := carry / 10;
      }
      MulGrows(Val(), x);
      LongerIsNormal(digits, out);
      r := BigInt(out);
    }

    /** add_small(): the carry starts at x and runs left while it is not 0;
        a carry left over goes in front. */
    method AddSmall(x: int) returns (r: BigInt)
      requires WellFormed() && x >= 0
      ensures r.WellFormed() && r.Val() == Val() + x
      ensures x == 0 ==> r == this
      ensures Valid() && x <= 15 ==> r.Valid()
    {
      if x == 0 {
        return this;
      }
      var res := digits;
      var carry := x;
      var i := |res| - 1;
      while i >= 0 && carry != 0
        invariant -1 <= i < |res| && |res| == |digits|
        invariant NonNegative(res) && carry >= 0
        invariant AllDigits(digits) ==> AllDigits(res)
        invariant SeqValue(res) + carry * Pow10(|res| - 1 - i) == Val() + x
        invariant i == |res| - 1 ==> carry == x
        invariant AllDigits(digits) && x <= 15 && i < |res| - 1 ==> carry <= 2
      {
        AddColumnStep(res, i, carry, Val() + x);
        var sum := res[i] + carry;
        res := res[i := sum % 10];
        carry := sum / 10;
        i := i - 1;
      }
      r := BigInt(Attach(carry, res));
      AddShape(digits, x, res, carry, i);
    }

    /** divide_by_small(): an error for x = 0, otherwise the quotient (trimmed)
        and the remainder of short division. */
    method DivideBySmall(x: int) returns (r: Result<(BigInt, int)>)
      requires WellFormed() && x >= 0
      ensures r.Err? <==> x == 0
      ensures r.Err? ==> r.error == DivisionByZero
      ensures r.Ok? ==> r.value.0.Trimmed() && 0 <= r.value.1 < x
      ensures r.Ok? ==> r.value.0.Val() * x + r.value.1 == Val()
      ensures r.Ok? && Valid() ==> r.value.0.Valid()
    {
      if x == 0 {
        return Err(DivisionByZero);
      }
      var quot, remainder := ShortDivision(digits, x);
      var trimmed := Trim(quot);
      assert forall j | 0 <= j < |trimmed| :: trimmed[j] == quot[|quot| - |trimmed| + j];
      return Ok((BigInt(trimmed), remainder));
    }

    /** subtract(), for this >= other: borrow from right to left over this
        number's digits, then trim. */
    method Subtract(other: BigInt) returns (r: BigInt)
      requires Valid() && other.Valid() && other.Val() <= Val()
      ensures r.Valid() && r.Val() == Val() - other.Val()
    {
      NoLongerThan(digits, other.digits);
      var res := Borrowing(digits, other.digits);
      var trimmed := Trim(res);
      assert forall j | 0 <= j < |trimmed| :: trimmed[j] == res[|res| - |trimmed| + j];
      r := BigInt(trimmed);
    }

    /** divide(): an error for a zero divisor, (0, this) when this < divisor,
        otherwise long division with trial quotients 9 down to 1. */
    method Divide(divisor: BigInt) returns (r: Result<(BigInt, BigInt)>)
      requires Valid() && divisor.Valid()
      ensures r.Err? <==> divisor.Val() == 0
      ensures r.Err? ==> r.error == DivisionByZero
      ensures r.Ok? ==> r.value.0.Valid() && r.value.1.Valid()
      ensures r.Ok? ==> r.value.0.Val() * divisor.Val() + r.value.1.Val() == Val()
      ensures r.Ok? ==> r.value.1.Val() < divisor.Val()
      ensures r.Ok? && Val() < divisor.Val() ==> r.value.0.Val() == 0 && r.value.1 == this
    {
      if divisor.IsZero() {
        return Err(DivisionByZero);
      }
      if Less(divisor) {
        assert [0][..0] == [];
        return Ok((BigInt([0]), this));
      }
      var q, rem := LongDivision(digits, divisor);
      return Ok((q, rem));
    }
  }

  /** BigInt(const string&): every character must be a decimal digit; the
      empty string is 0; leading zeros are trimmed. */
  method FromString(s: string) returns (r: Result<BigInt>)
    ensures r.Err? <==> !IsDigits(s)
    ensures r.Err? ==> r.error == InvalidDigit
    ensures r.Ok? ==> r.value.Valid() && r.value.Val() == Value(s)
  {
    var ok, ds := ReadDigits(s);
    if !ok {
      return Err(InvalidDigit);
    }
    if |ds| == 0 {
      assert [0][..0] == [];
      ds := [0];
    }
    var trimmed := Trim(ds);
    assert forall j | 0 <= j < |trimmed| :: trimmed[j] == ds[|ds| - |trimmed| + j];
    return Ok(BigInt(trimmed));
  }

  /** The character loop of BigInt(const string&): the digit values of s,
      or failure at the first character that is not a decimal digit. */
  method ReadDigits(s: string) returns (ok: bool, ds: seq<int>)
    ensures ok <==> IsDigits(s)
    ensures ok ==> |ds| == |s| && AllDigits(ds) && SeqValue(ds) == Value(s)
  {
    ds := [];
    for k := 0 to |s|
      invariant |ds| == k && AllDigits(ds) && IsDigits(s[..k])
      invariant SeqValue(ds) == Value(s[..k])
    {
      if !IsDigit(s[k]) {
        return false, ds;
      }
      assert s[..k + 1] == s[..k] + [s[k]];
      ValueAppendDigit(s[..k], s[k]);
      SeqValueAppend(ds, DigitVal(s[k]));
      ds := ds + [DigitVal(s[k])];
    }
    assert s[..|s|] == s;
    ok := true;
  }

  /** BigInt(int): only 0..15; the digits are put in front one by one. */
  method FromSmall(n: int) returns (r: Result<BigInt>)
    ensures r.Err? <==> n < 0 || n > 15
    ensures r.Err? ==> r.error == OutOfRange
    ensures r.Ok? ==> r.value.Valid() && r.value.Val() == n
  {
    if n < 0 || n > 15 {
      return Err(OutOfRange);
    }
    if n == 0 {
      assert [0][..0] == [];
      return Ok(BigInt([0]));
    }
    var ds: seq<int> := [];
    var m := n;
    while m > 0
      invariant 0 <= m && AllDigits(ds)
      invariant SeqValue(ds) + m * Pow10(|ds|) == n
      invariant |ds| > 0 ==> m > 0 || ds[0] != 0
      decreases m
    {
      CarryPrepend(ds, m);
      ds := [m % 10] + ds;
      m := m / 10;
    }
    return Ok(BigInt(ds));
  }

  /** Puts a non-zero final carry in front as one entry, as
      multiply_by_small() and add_small() do. */
  function Attach(carry: int, res: seq<int>): seq<int>
  {
    if carry != 0 then [carry] + res else res
  }

  /** The column loop of multiply_by_small(): every position gets
      (digit * x + carry) % 10, right to left, and the last carry is returned. */
  method MultiplyColumns(ds: seq<int>, x: int) returns (res: seq<int>, carry: int)
    requires NonNegative(ds) && x >= 0
    ensures |res| == |ds| && AllDigits(res) && carry >= 0
    ensures SeqValue(res) + carry * Pow10(|ds|) == SeqValue(ds) * x
    ensures AllDigits(ds) && x <= 10 ==> carry <= 9
  {
    res := seq(|ds|, _ => 0);
    carry := 0;
    SeqValueZeroPrefix(res, |res|);
    assert res[|res|..] == [] && ds[|ds|..] == [];
    var i := |ds| - 1;
    while i >= 0
      invariant -1 <= i < |ds|
      invariant |res| == |ds| && AllDigits(res) && carry >= 0
      invariant forall k | 0 <= k <= i :: res[k] == 0
      invariant SeqValue(res) + carry * Pow10(|ds| - 1 - i) == SeqLow(ds, |ds| - 1 - i) * x
      invariant AllDigits(ds) && x <= 10 ==> carry <= 9
    {
      res, carry := MultiplyColumn(ds, x, i, res, carry);
      i := i - 1;
    }
    SeqLowAll(ds);
  }

  /** One column of multiply_by_small(): the digit times x plus the carry,
      its last decimal digit written and the rest carried. */
  method MultiplyColumn(ds: seq<int>, x: int, i: nat, res: seq<int>, carry: int) returns (nextRes: seq<int>, nextCarry: int)
    requires NonNegative(ds) && x >= 0 && carry >= 0
    requires i < |ds| == |res| && AllDigits(res)
    requires forall k | 0 <= k <= i :: res[k] == 0
    requires SeqValue(res) + carry * Pow10(|ds| - 1 - i) == SeqLow(ds, |ds| - 1 - i) * x
    requires AllDigits(ds) && x <= 10 ==> carry <= 9
    ensures |nextRes| == |ds| && AllDigits(nextRes) && nextCarry >= 0
    ensures forall k | 0 <= k < i :: nextRes[k] == 0
    ensures SeqValue(nextRes) + nextCarry * Pow10(|ds| - 1 - (i - 1)) == SeqLow(ds, |ds| - 1 - (i - 1)) * x
    ensures AllDigits(ds) && x <= 10 ==> nextCarry <= 9
  {
    ColumnStep(ds, x, i, res, carry);
    var prod := ds[i] * x + carry;
    nextRes := res[i := prod % 10];
    nextCarry := prod / 10;
  }

  /** The digit loop of divide_by_small(): remainder * 10 + digit gives the
      next quotient digit and the next remainder. */
  method ShortDivision(digits: seq<int>, x: int) returns (quot: seq<int>, remainder: int)
    requires NonNegative(digits) && x > 0
    ensures |quot| == |digits| && NonNegative(quot) && 0 <= remainder < x
    ensures AllDigits(digits) ==> AllDigits(quot)
    ensures SeqValue(quot) * x + remainder == SeqValue(digits)
  {
    quot := [];
    remainder := 0;
    assert digits[..0] == [];
    for k := 0 to |digits|
      invariant |quot| == k && NonNegative(quot) && 0 <= remainder < x
      invariant AllDigits(digits) ==> AllDigits(quot)
      invariant SeqValue(quot) * x + remainder == SeqValue(digits[..k])
    {
      ShortDivisionStep(digits, k, x, quot, remainder);
      remainder := remainder * 10 + digits[k];
      quot := quot + [remainder / x];
      remainder := remainder % x;
    }
    assert digits[..|digits|] == digits;
  }

  /** trim(): drop leading zeros while more than one entry is left. */
  method Trim(ds: seq<int>) returns (r: seq<int>)
    requires |ds| >= 1 && NonNegative(ds)
    ensures |r| >= 1 && NonNegative(r) && (|r| > 1 ==> r[0] != 0)
    ensures SeqValue(r) == SeqValue(ds)
    ensures |r| <= |ds| && r == ds[|ds| - |r|..]
    ensures forall k | 0 <= k < |ds| - |r| :: ds[k] == 0
  {
    r := ds;
    while |r| > 1 && r[0] == 0
      invariant 1 <= |r| <= |ds| && r == ds[|ds| - |r|..]
      invariant forall k | 0 <= k < |ds| - |r| :: ds[k] == 0
      invariant SeqValue(r) == SeqValue(ds)
    {
      SeqValueSuffixStep(r, 0);
      assert r[0..] == r;
      r := r[1..];
    }
  }

  /** The borrow loop of subtract(): one column per digit of a, the missing
      digits of b read as 0. */
  method Borrowing(a: seq<int>, b: seq<int>) returns (res: seq<int>)
    requires IsNormalSeq(a) && IsNormalSeq(b) && |b| <= |a| && SeqValue(b) <= SeqValue(a)
    ensures |res| == |a| && AllDigits(res) && SeqValue(res) == SeqValue(a) - SeqValue(b)
  {
    res := a;
    var borrow := 0;
    var i, j := |a| - 1, |b| - 1;
    assert b[|b|..] == [];
    while i >= 0
      invariant -1 <= i < |a| && j == i - (|a| - |b|)
      invariant |res| == |a| && AllDigits(res) && (borrow == 0 || borrow == 1)
      invariant SeqValue(res) == SeqValue(a) - SeqLow(b, Below(|b|, |a| - 1 - i)) + borrow * Pow10(|a| - 1 - i)
    {
      res, borrow := BorrowColumn(a, b, i, j, res, borrow);
      i, j := i - 1, j - 1;
    }
    SeqLowAll(b);
    SeqValueBound(res);
    NoFinalBorrow(SeqValue(res), SeqValue(a) - SeqValue(b), borrow, Pow10(|a|));
  }

  /** One column of subtract(): the digit of b (0 past its front) and the
      borrow are taken from the digit of a, borrowing 10 when it is short. */
  method BorrowColumn(a: seq<int>, b: seq<int>, i: nat, j: int, res: seq<int>, borrow: int)
    returns (nextRes: seq<int>, nextBorrow: int)
    requires IsNormalSeq(b) && i < |a| == |res| && |b| <= |a| && j == i - (|a| - |b|)
    requires AllDigits(res) && (borrow == 0 || borrow == 1)
    requires SeqValue(res) == SeqValue(a) - SeqLow(b, Below(|b|, |a| - 1 - i)) + borrow * Pow10(|a| - 1 - i)
    ensures |nextRes| == |a| && AllDigits(nextRes) && (nextBorrow == 0 || nextBorrow == 1)
    ensures SeqValue(nextRes)
      == SeqValue(a) - SeqLow(b, Below(|b|, |a| - 1 - (i - 1))) + nextBorrow * Pow10(|a| - 1 - (i - 1))
  {
    var sub := (if j >= 0 then b[j] else 0) + borrow;
    var next;
    if res[i] < sub {
      next, nextBorrow := res[i] + 10 - sub, 1;
    } else {
      next, nextBorrow := res[i] - sub, 0;
    }
    BorrowStep(a, b, i, res, borrow, sub - borrow, next, nextBorrow);
    nextRes := res[i := next];
  }

  /** How many of the len entries of a vector the first k columns reach. */
  function Below(len: nat, k: nat): nat
  {
    if k <= len then k else len
  }

  /** The long-division loop of divide(), run when the dividend is at least
      the divisor. */
  method LongDivision(digits: seq<int>, divisor: BigInt) returns (q: BigInt, rem: BigInt)
    requires IsNormalSeq(digits) && divisor.Valid() && divisor.Val() > 0
    ensures q.Valid() && rem.Valid()
    ensures q.Val() * divisor.Val() + rem.Val() == SeqValue(digits) && rem.Val() < divisor.Val()
  {
    ghost var d := divisor.Val();
    var quot: seq<int> := [];
    rem := BigInt([0]);
    assert [0][..0] == [] && digits[..0] == [];
    for k := 0 to |digits|
      invariant rem.Valid() && rem.Val() < d
      invariant AllDigits(quot) && (|quot| > 0 ==> quot[0] != 0)
      invariant SeqValue(quot) * d + rem.Val() == SeqValue(digits[..k])
    {
      quot, rem := DivisionColumn(digits, k, quot, rem, divisor);
    }
    assert digits[..|digits|] == digits;
    if |quot| == 0 {
      assert [0][..0] == [];
      quot := [0];
    }
    var trimmed := Trim(quot);
    assert forall j | 0 <= j < |trimmed| :: trimmed[j] == quot[|quot| - |trimmed| + j];
    q := BigInt(trimmed);
  }

  /** One pass of divide()'s loop: the next digit is brought down and the
      quotient digit appended, a leading 0 skipped. */
  method DivisionColumn(digits: seq<int>, k: nat, quot: seq<int>, rem: BigInt, divisor: BigInt)
    returns (nextQuot: seq<int>, nextRem: BigInt)
    requires IsNormalSeq(digits) && k < |digits| && divisor.Valid()
    requires rem.Valid() && rem.Val() < divisor.Val()
    requires AllDigits(quot) && (|quot| > 0 ==> quot[0] != 0)
    requires SeqValue(quot) * divisor.Val() + rem.Val() == SeqValue(digits[..k])
    ensures nextRem.Valid() && nextRem.Val() < divisor.Val()
    ensures AllDigits(nextQuot) && (|nextQuot| > 0 ==> nextQuot[0] != 0)
    ensures SeqValue(nextQuot) * divisor.Val() + nextRem.Val() == SeqValue(digits[..k + 1])
  {
    var digit;
    digit, nextRem := BringDownDigit(rem, digits[k], divisor);
    LongDivisionStep(digits, k, quot, digit, divisor.Val(), rem.Val(), nextRem.Val());
    if digit == 0 && |quot| == 0 {
      nextQuot := quot;
    } else {
      nextQuot := quot + [digit];
    }
  }

  /** One step of divide()'s loop: remainder * 10 + digit, then the trial
      quotient when that reaches the divisor (0 otherwise). */
  method BringDownDigit(remainder: BigInt, digit: int, divisor: BigInt) returns (q: int, rest: BigInt)
    requires remainder.Valid() && divisor.Valid() && remainder.Val() < divisor.Val()
    requires 0 <= digit < 10
    ensures 0 <= q <= 9 && rest.Valid() && rest.Val() < divisor.Val()
    ensures q * divisor.Val() + rest.Val() == 10 * remainder.Val() + digit
    ensures q == 0 <==> 10 * remainder.Val() + digit < divisor.Val()
  {
    var shifted := remainder.MultiplyBySmall(10);
    var current := shifted.AddSmall(digit);
    if current.Less(divisor) {
      return 0, current;
    }
    BroughtDownBound(remainder.Val(), digit, divisor.Val());
    q, rest := TrialQuotient(current, divisor);
  }

  /** The trial loop of divide(): the largest q in 9..1 with divisor * q not
      above the remainder, and what is left after subtracting it. */
  method TrialQuotient(remainder: BigInt, divisor: BigInt) returns (q: int, rest: BigInt)
    requires remainder.Valid() && divisor.Valid()
    requires 0 < divisor.Val() <= remainder.Val() < divisor.Val() * 10
    ensures 1 <= q <= 9 && rest.Valid()
    ensures q * divisor.Val() + rest.Val() == remainder.Val() && rest.Val() < divisor.Val()
  {
    var trial := 9;
    while true
      invariant 1 <= trial <= 9
      invariant divisor.Val() * (trial + 1) > remainder.Val()
      decreases trial
    {
      var prod := divisor.MultiplyBySmall(trial);
      if prod.LessEq(remainder) {
        rest := remainder.Subtract(prod);
        TrialRest(trial, divisor.Val(), remainder.Val());
        return trial, rest;
      }
      trial := trial - 1;
    }
  }

  /** BigInt::power() as written: 1 multiplied exp times by base with
      multiply_by_small(), so the value is right but the vector is a valid
      number only for bases up to 10. */
  method Power(base: int, exp: int) returns (r: BigInt)
    requires base >= 0
    ensures r.WellFormed() && r.Val() == NT.Pow(base, if exp < 0 then 0 else exp)
    ensures base <= 10 ==> r.Valid()
  {
    r := BigInt([1]);
    assert [1][..0] == [];
    var i := 0;
    while i < exp
      invariant 0 <= i <= if exp < 0 then 0 else exp
      invariant r.WellFormed() && r.Val() == NT.Pow(base, i)
      invariant base <= 10 ==> r.Valid()
    {
      r := PowerStep(r, base, i);
      i := i + 1;
    }
  }

  /** One pass of power()'s loop: one more factor base. */
  method PowerStep(r: BigInt, base: int, ghost i: nat) returns (next: BigInt)
    requires base >= 0 && r.WellFormed() && r.Val() == NT.Pow(base, i)
    requires base <= 10 ==> r.Valid()
    ensures next.WellFormed() && next.Val() == NT.Pow(base, i + 1)
    ensures base <= 10 ==> next.Valid()
  {
    next := r.MultiplyBySmall(base);
    assert NT.Pow(base, i + 1) == base * NT.Pow(base, i);
  }

  /** power() built on the corrected multiplication: a valid number. */
  method PowerNormal(base: int, exp: int) returns (r: BigInt)
    requires base >= 0
    ensures r.Valid() && r.Val() == NT.Pow(base, if exp < 0 then 0 else exp)
  {
    r := BigInt([1]);
    assert [1][..0] == [];
    var i := 0;
    while i < exp
      invariant 0 <= i <= if exp < 0 then 0 else exp
      invariant r.Valid() && r.Val() == NT.Pow(base, i)
    {
      r := r.MulSmall(base);
      i := i + 1;
    }
  }

  // ---------------------------------------------------------------------
  // The carry entry of multiply_by_small()

  /** Any result multiply_by_small() may give for 9 * 16 is the vector
      [14, 4]: worth 144, yet operator< puts it below 100 because it is
      shorter. */
  lemma CarryDigitMisorders(r: BigInt)
    requires r.WellFormed() && r.Val() == 9 * 16
    requires 1 <= |r.digits| <= 2 && AllDigits(r.digits[|r.digits| - 1..])
    requires |r.digits| > 1 ==> r.digits[0] == 9 * 16 / Pow10(1) > 0
    requires |r.digits| == 1 ==> 9 * 16 < Pow10(1)
    ensures r.digits == [14, 4]
    ensures r.Less(BigInt([1, 0, 0])) && BigInt([1, 0, 0]).Val() < r.Val()
  {
    assert |r.digits| == 2;
    assert r.digits[..1] == [r.digits[0]];
    assert r.digits[..1][..0] == [];
    assert BigInt([1, 0, 0]).Val() == 100 by {
      assert [1, 0, 0][..2] == [1, 0];
      assert [1, 0][..1] == [1];
      assert [1][..0] == [];
    }
  }

  // ---------------------------------------------------------------------
  // Facts the comparisons and accessors rest on

  lemma ZeroIsSingleDigit(ds: seq<int>)
    ensures |ds| >= 1 && NonNegative(ds) && (|ds| > 1 ==> ds[0] != 0) ==>
      ((|ds| == 1 && ds[0] == 0) <==> SeqValue(ds) == 0)
  {
    if |ds| >= 1 && NonNegative(ds) && (|ds| > 1 ==> ds[0] != 0) {
      SeqValueFront(ds);
      Pow10Mono(0, |ds| - 1);
      if |ds| == 1 {
        assert ds[..0] == [];
      }
    }
  }

  /** A valid number has at most n digits exactly when it is below 10^n; a
      one-entry vector is worth its entry. */
  lemma DigitsForBound(ds: seq<int>, n: nat)
    ensures |ds| == 1 ==> SeqValue(ds) == ds[0]
    ensures n == 2 ==> Pow10(n) == 100
    ensures IsNormalSeq(ds) && n >= 1 ==> (|ds| <= n <==> SeqValue(ds) < Pow10(n))
  {
    if |ds| == 1 {
      assert ds[..0] == [];
    }
    if n == 2 {
      assert Pow10(2) == 10 * Pow10(1);
    }
    if IsNormalSeq(ds) && n >= 1 {
      if |ds| > n {
        Pow10Mono(n, |ds| - 1);
        SeqFrontLower(ds);
      } else {
        SeqValueBound(ds);
        Pow10Mono(|ds|, n);
      }
    }
  }

  lemma SizeOrder(s: seq<int>, t: seq<int>)
    ensures IsNormalSeq(s) && IsNormalSeq(t) ==> (SizeLexLess(s, t) <==> SeqValue(s) < SeqValue(t))
  {
    if IsNormalSeq(s) && IsNormalSeq(t) {
      SizeLexLessValue(s, t);
    }
  }

  lemma ValueEquality(s: seq<int>, t: seq<int>)
    ensures IsNormalSeq(s) && IsNormalSeq(t) ==> (s == t <==> SeqValue(s) == SeqValue(t))
  {
    if IsNormalSeq(s) && IsNormalSeq(t) {
      SeqNormalUnique(s, t);
    }
  }

  /** A smaller valid number is not longer. */
  lemma NoLongerThan(a: seq<int>, b: seq<int>)
    requires IsNormalSeq(a) && IsNormalSeq(b) && SeqValue(b) <= SeqValue(a)
    ensures |b| <= |a|
  {
    SeqValueBound(a);
    DigitsForBound(b, |a|);
  }

  /** A vector of digits at least as long and as large as a valid number,
      whose extra length starts with a non-zero digit, is valid. */
  lemma LongerIsNormal(ds: seq<int>, out: seq<int>)
    requires IsNormalSeq(ds) && AllDigits(out) && |out| >= |ds|
    requires SeqValue(out) >= SeqValue(ds)
    requires |out| > |ds| ==> out[0] != 0
    ensures IsNormalSeq(out)
  {
    if |out| == |ds| && |ds| > 1 {
      SeqFrontLower(ds);
      SeqNormalByBound(out);
    }
  }

  lemma MulGrows(v: int, x: int)
    requires v >= 0 && x >= 1
    ensures v * x >= v
  {
  }

  // ---------------------------------------------------------------------
  // Loop steps and shapes

  /** One column of multiply_by_small(), on a still-zero entry. */
  lemma {:induction false} ColumnStep(ds: seq<int>, x: int, i: nat, res: seq<int>, carry: int)
    requires NonNegative(ds) && x >= 0 && carry >= 0
    requires i < |ds| == |res| && res[i] == 0
    requires SeqValue(res) + carry * Pow10(|ds| - 1 - i) == SeqLow(ds, |ds| - 1 - i) * x
    requires AllDigits(ds) && x <= 10 ==> carry <= 9
    ensures var prod := ds[i] * x + carry;
      prod >= 0 && (AllDigits(ds) && x <= 10 ==> prod / 10 <= 9) &&
      SeqValue(res[i := prod % 10]) + (prod / 10) * Pow10(|ds| - 1 - (i - 1))
        == SeqLow(ds, |ds| - 1 - (i - 1)) * x
  {
    var prod := ds[i] * x + carry;
    var k := |ds| - 1 - i;
    var p := Pow10(k);
    assert ds[i] * x >= 0;
    SeqLowStep(ds, k);
    SeqValueUpdate(res, i, prod % 10);
    assert Pow10(k + 1) == 10 * p;
    MulColumn(SeqValue(res), p, carry, ds[i], x, SeqLow(ds, k), prod);
    if AllDigits(ds) && x <= 10 {
      SmallProduct(ds[i], x, carry);
    }
  }

  lemma {:induction false} MulColumn(vres: int, p: int, carry: int, d: int, x: int, low: int, prod: int)
    requires vres + carry * p == low * x && prod == d * x + carry
    ensures vres + (prod % 10) * p + (prod / 10) * (10 * p) == (d * p + low) * x
  {
    assert (prod / 10) * (10 * p) == (10 * (prod / 10)) * p;
    assert (prod % 10) * p + (10 * (prod / 10)) * p == prod * p;
    assert prod * p == d * x * p + carry * p;
  }

  lemma {:induction false} SmallProduct(d: int, x: int, carry: int)
    requires 0 <= d < 10 && 0 <= x <= 10 && 0 <= carry <= 9
    ensures (d * x + carry) / 10 <= 9
  {
    assert d * x <= 9 * x <= 90;
  }

  /** What multiply_by_small() returns after its column loop. */
  lemma {:induction false} AttachShape(ds: seq<int>, x: int, res: seq<int>, carry: int)
    requires NonNegative(ds) && |ds| >= 1 && x >= 2
    requires |res| == |ds| && AllDigits(res) && carry >= 0
    requires SeqValue(res) + carry * Pow10(|ds|) == SeqValue(ds) * x
    requires AllDigits(ds) && x <= 10 ==> carry <= 9
    ensures var out := Attach(carry, res);
      |out| >= 1 && NonNegative(out) && SeqValue(out) == SeqValue(ds) * x &&
      |ds| <= |out| <= |ds| + 1 && AllDigits(out[|out| - |ds|..]) &&
      (|out| > |ds| ==> out[0] == SeqValue(ds) * x / Pow10(|ds|) > 0) &&
      (|out| == |ds| ==> SeqValue(ds) * x < Pow10(|ds|)) &&
      (IsNormalSeq(ds) && x <= 10 ==> IsNormalSeq(out))
  {
    var out := Attach(carry, res);
    SeqValueBound(res);
    if carry != 0 {
      SeqValueCons(carry, res);
      assert out[|out| - |ds|..] == res;
      NT.DivModUnique(SeqValue(ds) * x, Pow10(|ds|), carry, SeqValue(res));
    } else {
      assert out[|out| - |ds|..] == res;
      if IsNormalSeq(ds) {
        MulGrows(SeqValue(ds), x);
        LongerIsNormal(ds, out);
      }
    }
  }

  /** One column of add_small(). */
  lemma {:induction false} AddColumnStep(res: seq<int>, i: nat, carry: int, target: int)
    requires i < |res| && SeqValue(res) + carry * Pow10(|res| - 1 - i) == target
    ensures var sum := res[i] + carry;
      SeqValue(res[i := sum % 10]) + (sum / 10) * Pow10(|res| - 1 - (i - 1)) == target
  {
    var sum := res[i] + carry;
    var p := Pow10(|res| - 1 - i);
    SeqValueUpdate(res, i, sum % 10);
    assert Pow10(|res| - 1 - (i - 1)) == 10 * p;
    CarryWeight(sum % 10, sum / 10, res[i], p);
    assert sum % 10 + 10 * (sum / 10) == sum;
  }

  /** What add_small() returns after its carry loop. */
  lemma {:induction false} AddShape(ds: seq<int>, x: int, res: seq<int>, carry: int, i: int)
    requires |ds| >= 1 && NonNegative(ds) && x >= 1
    requires |res| == |ds| && NonNegative(res) && carry >= 0 && -1 <= i < |res|
    requires SeqValue(res) + carry * Pow10(|res| - 1 - i) == SeqValue(ds) + x
    requires i >= 0 ==> carry == 0
    requires AllDigits(ds) ==> AllDigits(res)
    requires AllDigits(ds) && x <= 15 && i < |res| - 1 ==> carry <= 2
    ensures var out := Attach(carry, res);
      |out| >= 1 && NonNegative(out) && SeqValue(out) == SeqValue(ds) + x &&
      (IsNormalSeq(ds) && x <= 15 ==> IsNormalSeq(out))
  {
    var out := Attach(carry, res);
    if carry != 0 {
      SeqValueCons(carry, res);
    } else if IsNormalSeq(ds) {
      LongerIsNormal(ds, out);
    }
  }

  /** One digit of divide_by_small(). */
  lemma {:induction false} ShortDivisionStep(digits: seq<int>, k: nat, x: int, quot: seq<int>, remainder: int)
    requires k < |digits| && NonNegative(digits) && x > 0 && 0 <= remainder < x
    requires SeqValue(quot) * x + remainder == SeqValue(digits[..k])
    ensures var cur := remainder * 10 + digits[k];
      cur / x >= 0 && (digits[k] < 10 ==> cur / x < 10) &&
      SeqValue(quot + [cur / x]) * x + cur % x == SeqValue(digits[..k + 1])
  {
    SeqValuePrefixStep(digits, k);
    SeqValueAppend(quot, (remainder * 10 + digits[k]) / x);
    ShortDivisionArith(SeqValue(quot), x, remainder, digits[k], SeqValue(digits[..k]));
  }

  lemma {:induction false} ShortDivisionArith(vq: int, x: int, remainder: int, digit: int, prefix: int)
    requires x > 0 && 0 <= remainder < x && 0 <= digit && vq * x + remainder == prefix
    ensures var cur := remainder * 10 + digit;
      cur / x >= 0 && (digit < 10 ==> cur / x < 10) &&
      (10 * vq + cur / x) * x + cur % x == 10 * prefix + digit
  {
    var cur := remainder * 10 + digit;
    assert (cur / x) * x + cur % x == cur;
    assert (10 * vq + cur / x) * x == 10 * (vq * x) + (cur / x) * x;
    if digit < 10 {
      assert remainder * 10 <= (x - 1) * 10;
      QuotientDigit(cur / x, x, cur);
    }
  }

  /** One column of subtract(): next and nextBorrow are what the column
      leaves, bd the digit of b under it (0 past its front). */
  lemma {:induction false} BorrowStep(a: seq<int>, b: seq<int>, i: nat, res: seq<int>, borrow: int,
                                      bd: int, next: int, nextBorrow: int)
    requires i < |a| == |res| && |b| <= |a|
    requires bd == if i - (|a| - |b|) >= 0 then b[i - (|a| - |b|)] else 0
    requires next - res[i] == 10 * nextBorrow - bd - borrow
    requires SeqValue(res) == SeqValue(a) - SeqLow(b, Below(|b|, |a| - 1 - i)) + borrow * Pow10(|a| - 1 - i)
    ensures SeqValue(res[i := next])
      == SeqValue(a) - SeqLow(b, Below(|b|, |a| - 1 - (i - 1))) + nextBorrow * Pow10(|a| - 1 - (i - 1))
  {
    var col := |a| - 1 - i;
    if i - (|a| - |b|) >= 0 {
      SeqLowStep(b, col);
    }
    SeqValueUpdate(res, i, next);
    assert Pow10(col + 1) == 10 * Pow10(col);
    BorrowArith(next - res[i], nextBorrow, bd, borrow, Pow10(col));
  }

  /** subtract() on a >= b ends without a borrow. */
  lemma {:induction false} NoFinalBorrow(vres: int, diff: int, borrow: int, p: int)
    requires 0 <= vres < p && diff >= 0 && (borrow == 0 || borrow == 1)
    requires vres == diff + borrow * p
    ensures borrow == 0
  {
  }

  lemma {:induction false} BorrowArith(delta: int, nextBorrow: int, bd: int, borrow: int, p: int)
    requires delta == 10 * nextBorrow - bd - borrow
    ensures delta * p == nextBorrow * (10 * p) - bd * p - borrow * p
  {
  }

  /** One digit of divide()'s loop, on the quotient and the dividend prefix. */
  lemma {:induction false} LongDivisionStep(digits: seq<int>, k: nat, quot: seq<int>, q: int, d: int, before: int, rest: int)
    requires k < |digits| && SeqValue(quot) * d + before == SeqValue(digits[..k])
    requires q * d + rest == 10 * before + digits[k]
    ensures SeqValue(quot + [q]) * d + rest == SeqValue(digits[..k + 1])
    ensures |quot| == 0 && q == 0 ==> SeqValue(quot) * d + rest == SeqValue(digits[..k + 1])
  {
    SeqValuePrefixStep(digits, k);
    SeqValueAppend(quot, q);
    assert (10 * SeqValue(quot) + q) * d == 10 * (SeqValue(quot) * d) + q * d;
  }

  lemma {:induction false} BroughtDownBound(r: int, digit: int, d: int)
    requires 0 <= r < d && 0 <= digit < 10
    ensures 10 * r + digit < d * 10
  {
    assert 10 * r <= 10 * (d - 1);
  }

  lemma {:induction false} TrialRest(q: int, d: int, r: int)
    requires d * q <= r < d * (q + 1)
    ensures r - d * q < d && q * d == d * q
  {
    assert d * (q + 1) == d * q + d;
  }

  lemma {:induction false} CarryPrepend(out: seq<int>, carry: int)
    requires carry > 0
    ensures SeqValue([carry % 10] + out) + (carry / 10) * Pow10(|out| + 1) == SeqValue(out) + carry * Pow10(|out|)
  {
    SeqValueCons(carry % 10, out);
    assert Pow10(|out| + 1) == 10 * Pow10(|out|);
    CarrySplit(carry, Pow10(|out|));
  }

  /** A carry split into its last decimal digit and the rest, scaled by p. */
  lemma {:induction false} CarrySplit(carry: int, p: int)
    ensures (carry % 10) * p + (carry / 10) * (10 * p) == carry * p
  {
    assert (carry / 10) * (10 * p) == (10 * (carry / 10)) * p;
    assert (carry % 10) * p + (10 * (carry / 10)) * p == carry * p;
  }
}
