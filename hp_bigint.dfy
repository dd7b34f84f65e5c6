/** The unsigned string-backed big integer of the decimal fraction calculator
    (exe/High_Precision.cpp). A BigInt is passed and returned by value
    everywhere, so it is a datatype; its digit string is private and the class
    keeps it in normal form. */
module HighPrecisionBigInt {
  import opened Digits
  import NumberTheory
  import opened Outcomes

  datatype BigInt = BigInt(digits: string)
  {
    /** The class invariant: digits, never empty, no leading zero unless "0". */
    predicate Valid() { IsNormal(digits) }

    function Val(): nat
      requires Valid()
    {
      Value(digits)
    }

    // -------------------------------------------------------------------
    // Comparisons (operator==, !=, <, <=, >, >=)

    function Eq(other: BigInt): (r: bool)
      requires Valid() && other.Valid()
      ensures r <==> Val() == other.Val()
    {
      NormalUnique(digits, other.digits);
      digits == other.digits
    }

    function NotEq(other: BigInt): (r: bool)
      requires Valid() && other.Valid()
      ensures r <==> Val() != other.Val()
    {
      !Eq(other)
    }

    /** Length first, then std::string order. */
    function Less(other: BigInt): (r: bool)
      requires Valid() && other.Valid()
      ensures r <==> Val() < other.Val()
    {
      LengthLexLessValue(digits, other.digits);
      if |digits| != |other.digits| then |digits| < |other.digits|
      else LexLess(digits, other.digits)
    }

    function LessEq(other: BigInt): (r: bool)
      requires Valid() && other.Valid()
      ensures r <==> Val() <= other.Val()
    {
      !other.Less(this)
    }

    function Greater(other: BigInt): (r: bool)
      requires Valid() && other.Valid()
      ensures r <==> Val() > other.Val()
    {
      other.Less(this)
    }

    function GreaterEq(other: BigInt): (r: bool)
      requires Valid() && other.Valid()
      ensures r <==> Val() >= other.Val()
    {
      !Less(other)
    }

    // -------------------------------------------------------------------
    // Arithmetic

    /** Schoolbook addition over zero-padded operands, right to left. */
    method Add(other: BigInt) returns (r: BigInt)
      requires Valid() && other.Valid()
      ensures r.Valid() && r.Val() == Val() + other.Val()
    {
      var n := if |digits| < |other.digits| then |other.digits| else |digits|;
      var a := PadTo(digits, n);
      var b := PadTo(other.digits, n);
      var result := AddColumns(a, b);
      r := FromString(result);
    }

    /** Schoolbook subtraction with borrow; the caller guarantees this >= other. */
    method Sub(other: BigInt) returns (r: BigInt)
      requires Valid() && other.Valid() && Val() >= other.Val()
      ensures r.Valid() && r.Val() == Val() - other.Val()
    {
      var n := if |digits| < |other.digits| then |other.digits| else |digits|;
      var a := PadTo(digits, n);
      var b := PadTo(other.digits, n);
      var result := SubColumns(a, b);
      r := FromString(result);
    }

    /** Schoolbook multiplication into a vector of |a| + |b| positions. */
    method Mul(other: BigInt) returns (r: BigInt)
      requires Valid() && other.Valid()
      ensures r.Valid() && r.Val() == Val() * other.Val()
    {
      var a, b := digits, other.digits;
      if a == "0" || b == "0" {
        return BigInt("0");
      }
      var res := Products(a, b);
      var s := ProductText(res);
      r := FromString(s);
    }

    /** Long division, one dividend digit at a time; the quotient digit is found by
        repeated subtraction. The caller has ruled out a zero divisor. */
    method LongDivide(other: BigInt) returns (q: BigInt, rem: BigInt)
      requires Valid() && other.Valid() && other.Val() > 0
      ensures q.Valid() && rem.Valid()
      ensures q.Val() * other.Val() + rem.Val() == Val() && rem.Val() < other.Val()
      ensures Val() < other.Val() ==> q == BigInt("0") && rem == this
    {
      if Less(other) {
        ZeroValue();
      return BigInt("0"), this;
      }
      q, rem := DivideDigits(other);
    }

    /** The digit loop of divmod: bring down the next digit, then subtract the
        divisor while the remainder is at least the divisor. */
    method DivideDigits(other: BigInt) returns (q: BigInt, rem: BigInt)
      requires Valid() && other.Valid() && other.Val() > 0
      ensures q.Valid() && rem.Valid()
      ensures q.Val() * other.Val() + rem.Val() == Val() && rem.Val() < other.Val()
    {
      var quotient := "";
      rem := BigInt("0");
      ghost var d := other.Val();
      var k := 0;
      while k < |digits|
        invariant 0 <= k <= |digits|
        invariant IsDigits(quotient)
        invariant rem.Valid() && rem.Val() < d
        invariant Value(quotient) * d + rem.Val() == Value(digits[..k])
      {
        quotient, rem := DivideDigit(digits, k, other, quotient, rem);
        k := k + 1;
      }
      assert digits[..k] == digits;
      q := FromString(quotient);
    }

    /** divmod: throws on a zero divisor; otherwise quotient and remainder. */
    method DivMod(other: BigInt) returns (r: Result<(BigInt, BigInt)>)
      requires Valid() && other.Valid()
      ensures r.Err? <==> other.Val() == 0
      ensures r.Err? ==> r.error == DivisionByZero
      ensures r.Ok? ==>
        && r.value.0.Valid() && r.value.1.Valid()
        && r.value.0.Val() * other.Val() + r.value.1.Val() == Val()
        && r.value.1.Val() < other.Val()
      ensures r.Ok? && Val() < other.Val() ==> r.value == (BigInt("0"), this)
    {
      if other.Eq(BigInt("0")) {
        return Err(DivisionByZero);
      }
      var q, rem := LongDivide(other);
      return Ok((q, rem));
    }

    method Mod(other: BigInt) returns (r: Result<BigInt>)
      requires Valid() && other.Valid()
      ensures r.Err? <==> other.Val() == 0
      ensures r.Ok? ==> r.value.Valid() && r.value.Val() == Val() % other.Val()
    {
      var d := DivMod(other);
      if d.Err? {
        return Err(d.error);
      }
      NumberTheory.DivModUnique(Val(), other.Val(), d.value.0.Val(), d.value.1.Val());
      return Ok(d.value.1);
    }

    /** Appends exp zeros; "0" stays "0". */
    function MulPow10(exp: nat): (r: BigInt)
      requires Valid()
      ensures r.Valid() && r.Val() == Val() * Pow10(exp)
    {
      if digits == "0" then
        ZeroValue();
        assert this == BigInt("0");
        this
      else
        ValueTrailingZeros(digits, exp);
        FromString(digits + Zeros(exp))
    }

    /** The short division shared by divBy2 and divBy5: quotient digits
        (possibly with leading zeros) and the final remainder. */
    method ShortDivide(d: nat) returns (quot: string, carry: nat)
      requires Valid() && (d == 2 || d == 5)
      ensures IsDigits(quot) && carry < d
      ensures Value(quot) * d + carry == Val()
    {
      quot := "";
      carry := 0;
      var k := 0;
      while k < |digits|
        invariant 0 <= k <= |digits|
        invariant IsDigits(quot) && carry < d
        invariant Value(quot) * d + carry == Value(digits[..k])
      {
        quot, carry := ShortDivideDigit(digits, k, d, quot, carry);
        k := k + 1;
      }
      assert digits[..k] == digits;
    }

    /** divBy2 updates *this in place; here the updated number is returned as
        `after`, and equals this when the division is not exact. */
    method DivBy2() returns (ok: bool, after: BigInt)
      requires Valid()
      ensures ok <==> Val() % 2 == 0
      ensures after.Valid()
      ensures ok ==> after.Val() == Val() / 2
      ensures !ok ==> after == this
    {
      var quot, carry := ShortDivide(2);
      if carry != 0 {
        NumberTheory.DivModUnique(Val(), 2, Value(quot), carry);
        return false, this;
      }
      NumberTheory.DivModUnique(Val(), 2, Value(quot), 0);
      return true, FromString(quot);
    }

    /** divBy5, as divBy2 with divisor 5. */
    method DivBy5() returns (ok: bool, after: BigInt)
      requires Valid()
      ensures ok <==> Val() % 5 == 0
      ensures after.Valid()
      ensures ok ==> after.Val() == Val() / 5
      ensures !ok ==> after == this
    {
      var quot, carry := ShortDivide(5);
      if carry != 0 {
        NumberTheory.DivModUnique(Val(), 5, Value(quot), carry);
        return false, this;
      }
      NumberTheory.DivModUnique(Val(), 5, Value(quot), 0);
      return true, FromString(quot);
    }

    /** The carry loop shared by mul2 and mul5. */
    method Scale(m: nat) returns (r: BigInt)
      requires Valid() && (m == 2 || m == 5)
      ensures r.Valid() && r.Val() == Val() * m
    {
      var a := digits;
      var carry := 0;
      var result := "";
      var i := |a|;
      assert a[i..] == [];
      while i > 0
        invariant 0 <= i <= |a|
        invariant IsDigits(result) && |result| == |a| - i
        invariant 0 <= carry < m
        invariant Value(result) + carry * Pow10(|result|) == Value(a[i..]) * m
      {
        i := i - 1;
        result, carry := ScaleDigit(a, i, m, result, carry);
      }
      assert a[0..] == a;
      assert Value(result) + carry * Pow10(|result|) == Val() * m;
      if carry != 0 {
        ValuePrepend(result, carry, 0);
        result := [DigitChar(carry)] + result;
      }
      assert Value(result) == Val() * m;
      r := FromString(result);
    }

    method Mul2() returns (r: BigInt)
      requires Valid()
      ensures r.Valid() && r.Val() == 2 * Val()
    {
      r := Scale(2);
    }

    method Mul5() returns (r: BigInt)
      requires Valid()
      ensures r.Valid() && r.Val() == 5 * Val()
    {
      r := Scale(5);
    }
  }

  /** BigInt::gcd, Euclid's algorithm by recursion on the remainder. */
  method Gcd(a: BigInt, b: BigInt) returns (g: BigInt)
    requires a.Valid() && b.Valid()
    ensures g.Valid() && g.Val() == NumberTheory.Gcd(a.Val(), b.Val())
    ensures NumberTheory.Divides(g.Val(), a.Val()) && NumberTheory.Divides(g.Val(), b.Val())
    decreases b.Val()
  {
    if b.Eq(BigInt("0")) {
      NumberTheory.GcdDivides(a.Val(), b.Val());
      return a;
    }
    var m := a.Mod(b);
    g := Gcd(b, m.value);
    NumberTheory.GcdDivides(a.Val(), b.Val());
  }

  /** The zero padding both add and sub apply to the shorter operand. */
  method PadTo(s: string, n: nat) returns (r: string)
    requires IsDigits(s) && |s| <= n
    ensures IsDigits(r) && |r| == n && Value(r) == Value(s)
  {
    ValueLeadingZeros(n - |s|, s);
    r := Zeros(n - |s|) + s;
  }

  /** BigInt(const string&): any digit string, leading zeros removed. */
  function FromString(s: string): (b: BigInt)
    requires IsDigits(s)
    ensures b.Valid() && b.Val() == Value(s)
  {
    StripZerosValue(s);
    BigInt(StripZeros(s))
  }

  /** The partial products of a * b accumulated position by position, with the
      carry of each step pushed one position up. */
  method Products(a: string, b: string) returns (res: seq<int>)
    requires IsDigits(a) && IsDigits(b)
    ensures |res| == |a| + |b| && AllDigits(res)
    ensures SeqValue(res) == Value(a) * Value(b)
  {
    res := seq(|a| + |b|, _ => 0);
    SeqValueZeroPrefix(res, |res|);
    assert res[|res|..] == [];
    var i := |a|;
    assert a[i..] == [];
    while i > 0
      invariant 0 <= i <= |a| && |res| == |a| + |b|
      invariant AllDigits(res)
      invariant forall k | 0 <= k < i :: res[k] == 0
      invariant SeqValue(res) == Value(a[i..]) * Value(b)
    {
      i := i - 1;
      res := AddRow(res, a, b, i);
    }
    assert a[0..] == a;
  }

  /** The digits of the product vector as text, skipping leading zeros; "0"
      when every position is zero. */
  method ProductText(res: seq<int>) returns (s: string)
    requires AllDigits(res)
    ensures IsNormal(s) && Value(s) == SeqValue(res)
  {
    s := "";
    var k := 0;
    while k < |res|
      invariant 0 <= k <= |res|
      invariant IsDigits(s) && Value(s) == SeqValue(res[..k])
      invariant |s| > 0 ==> s[0] != '0'
    {
      SeqValuePrefixStep(res, k);
      if !(|s| == 0 && res[k] == 0) {
        ValueAppendDigit(s, DigitChar(res[k]));
        s := s + [DigitChar(res[k])];
      }
      k := k + 1;
    }
    assert res[..|res|] == res;
    if |s| == 0 {
      s := "0";
      assert s[..0] == "";
    }
  }

  /** The inner loop of mul: adds digit i of a times b into the positions
      i .. i + |b|, carrying as it goes. */
  method AddRow(res0: seq<int>, a: string, b: string, i: nat) returns (res: seq<int>)
    requires IsDigits(a) && IsDigits(b) && i < |a| && |res0| == |a| + |b|
    requires AllDigits(res0) && forall k | 0 <= k <= i :: res0[k] == 0
    requires SeqValue(res0) == Value(a[i + 1..]) * Value(b)
    ensures |res| == |res0| && AllDigits(res)
    ensures forall k | 0 <= k < i :: res[k] == 0
    ensures SeqValue(res) == Value(a[i..]) * Value(b)
  {
    res := res0;
    var da := DigitVal(a[i]);
    var j := |b|;
    assert b[j..] == [];
    while j > 0
      invariant 0 <= j <= |b| && |res| == |a| + |b|
      invariant forall k | 0 <= k < |res| && k != i + j :: 0 <= res[k] < 10
      invariant 0 <= res[i + j] <= 18
      invariant forall k | 0 <= k < i :: res[k] == 0
      invariant SeqValue(res) == Value(a[i + 1..]) * Value(b) + da * Value(b[j..]) * Pow10(|a| - 1 - i)
    {
      j := j - 1;
      res := AddColumn(res, a, b, i, j, Value(a[i + 1..]) * Value(b));
    }
    assert b[0..] == b;
    assert NonNegative(res);
    RowDone(res, a, b, i);
  }

  /** The add loop over two operands padded to the same length, right to
      left, with a final carry digit in front when one is left. */
  method AddColumns(a: string, b: string) returns (result: string)
    requires IsDigits(a) && IsDigits(b) && |a| == |b|
    ensures IsDigits(result) && Value(result) == Value(a) + Value(b)
  {
    var carry := 0;
    result := "";
    var i := |a|;
    assert a[i..] == [] && b[i..] == [];
    while i > 0
      invariant 0 <= i <= |a|
      invariant IsDigits(result) && |result| == |a| - i
      invariant 0 <= carry <= 1
      invariant Value(result) + carry * Pow10(|result|) == Value(a[i..]) + Value(b[i..])
    {
      i := i - 1;
      result, carry := AddDigit(a, b, i, result, carry);
    }
    assert a[0..] == a && b[0..] == b;
    if carry != 0 {
      ValuePrepend(result, carry, 0);
      result := [DigitChar(carry)] + result;
    }
  }

  /** The sub loop over two operands padded to the same length, right to
      left; with a >= b no borrow is left at the end. */
  method SubColumns(a: string, b: string) returns (result: string)
    requires IsDigits(a) && IsDigits(b) && |a| == |b| && Value(a) >= Value(b)
    ensures IsDigits(result) && Value(result) == Value(a) - Value(b)
  {
    var borrow := 0;
    result := "";
    var i := |a|;
    assert a[i..] == [] && b[i..] == [];
    while i > 0
      invariant 0 <= i <= |a|
      invariant IsDigits(result) && |result| == |a| - i
      invariant 0 <= borrow <= 1
      invariant Value(result) - borrow * Pow10(|result|) == Value(a[i..]) - Value(b[i..])
    {
      i := i - 1;
      result, borrow := SubDigit(a, b, i, result, borrow);
    }
    assert a[0..] == a && b[0..] == b;
    assert borrow == 0 by {
      ValueBound(result);
      NoFinalBorrow(Value(result), borrow, Pow10(|result|), Value(a) - Value(b));
    }
  }

  /** A difference that is not negative leaves no borrow out of the top column. */
  lemma {:induction false} NoFinalBorrow(v: int, borrow: int, p: int, diff: int)
    requires 0 <= borrow <= 1 && v < p && diff >= 0 && v - borrow * p == diff
    ensures borrow == 0
  {
  }

  /** One pass of the add loop, on column i from the right. */
  method AddDigit(a: string, b: string, i: nat, result: string, carry: int) returns (next: string, nextCarry: int)
    requires IsDigits(a) && IsDigits(b) && |a| == |b| && i < |a|
    requires IsDigits(result) && |result| == |a| - i - 1 && 0 <= carry <= 1
    requires Value(result) + carry * Pow10(|result|) == Value(a[i + 1..]) + Value(b[i + 1..])
    ensures IsDigits(next) && |next| == |a| - i && 0 <= nextCarry <= 1
    ensures Value(next) + nextCarry * Pow10(|next|) == Value(a[i..]) + Value(b[i..])
  {
    var sum := DigitVal(a[i]) + DigitVal(b[i]) + carry;
    next := [DigitChar(sum % 10)] + result;
    AddStep(a, b, i, result, carry, next);
    nextCarry := sum / 10;
  }

  /** One pass of the sub loop, on column i from the right: borrow 10 when
      the difference is negative. */
  method SubDigit(a: string, b: string, i: nat, result: string, borrow: int) returns (next: string, nextBorrow: int)
    requires IsDigits(a) && IsDigits(b) && |a| == |b| && i < |a|
    requires IsDigits(result) && |result| == |a| - i - 1 && 0 <= borrow <= 1
    requires Value(result) - borrow * Pow10(|result|) == Value(a[i + 1..]) - Value(b[i + 1..])
    ensures IsDigits(next) && |next| == |a| - i && 0 <= nextBorrow <= 1
    ensures Value(next) - nextBorrow * Pow10(|next|) == Value(a[i..]) - Value(b[i..])
  {
    var diff := DigitVal(a[i]) - DigitVal(b[i]) - borrow;
    if diff < 0 {
      diff := diff + 10;
      nextBorrow := 1;
    } else {
      nextBorrow := 0;
    }
    next := [DigitChar(diff)] + result;
    SubStep(a, b, i, result, diff, borrow, nextBorrow, next);
  }

  /** One pass of the divmod digit loop: rem * 10 plus the next digit, then
      the divisor subtracted as often as it fits; that count is the next
      quotient digit. */
  method DivideDigit(digits: string, k: nat, other: BigInt, quotient: string, rem: BigInt)
    returns (nextQuotient: string, nextRem: BigInt)
    requires IsDigits(digits) && k < |digits| && other.Valid() && other.Val() > 0
    requires IsDigits(quotient) && rem.Valid() && rem.Val() < other.Val()
    requires Value(quotient) * other.Val() + rem.Val() == Value(digits[..k])
    ensures IsDigits(nextQuotient) && nextRem.Valid() && nextRem.Val() < other.Val()
    ensures Value(nextQuotient) * other.Val() + nextRem.Val() == Value(digits[..k + 1])
  {
    var ten := BigInt("10");
    TenValue();
    var shifted := rem.Mul(ten);
    var next := FromString([digits[k]]);
    SingleDigitValue(digits[k]);
    var current := shifted.Add(next);
    assert current.Val() == 10 * rem.Val() + DigitVal(digits[k]);
    var qd;
    qd, nextRem := SubtractCount(current, other);
    QuotientDigit(qd, other.Val(), current.Val());
    ValuePrefixStep(digits, k);
    ValueAppendDigit(quotient, DigitChar(qd));
    LongDivisionStep(Value(quotient), other.Val(), rem.Val(), qd, nextRem.Val(), Value(digits[..k]), DigitVal(digits[k]));
    nextQuotient := quotient + [DigitChar(qd)];
  }

  /** The inner divmod loop: subtract the divisor while the remainder is at
      least the divisor, counting the subtractions. */
  method SubtractCount(current: BigInt, other: BigInt) returns (qd: nat, rem: BigInt)
    requires current.Valid() && other.Valid() && other.Val() > 0
    ensures rem.Valid() && rem.Val() < other.Val() && qd * other.Val() + rem.Val() == current.Val()
  {
    ghost var d := other.Val();
    rem := current;
    qd := 0;
    while rem.GreaterEq(other)
      invariant rem.Valid()
      invariant qd * d + rem.Val() == current.Val()
      decreases rem.Val()
    {
      ghost var before := rem.Val();
      rem := rem.Sub(other);
      CountStep(qd, d, before);
      qd := qd + 1;
    }
  }

  /** One pass of the inner mul loop: digit i of a times digit j of b is
      added at i + j + 1, its tens carried into i + j. */
  method AddColumn(res: seq<int>, a: string, b: string, i: nat, j: nat, ghost above: int) returns (next: seq<int>)
    requires IsDigits(a) && IsDigits(b) && i < |a| && j < |b| && |res| == |a| + |b|
    requires forall k | 0 <= k < |res| && k != i + j + 1 :: 0 <= res[k] < 10
    requires 0 <= res[i + j + 1] <= 18
    requires forall k | 0 <= k < i :: res[k] == 0
    requires SeqValue(res) == above + DigitVal(a[i]) * Value(b[j + 1..]) * Pow10(|a| - 1 - i)
    ensures |next| == |res|
    ensures forall k | 0 <= k < |next| && k != i + j :: 0 <= next[k] < 10
    ensures 0 <= next[i + j] <= 18
    ensures forall k | 0 <= k < i :: next[k] == 0
    ensures SeqValue(next) == above + DigitVal(a[i]) * Value(b[j..]) * Pow10(|a| - 1 - i)
  {
    var da := DigitVal(a[i]);
    var prod := da * DigitVal(b[j]);
    DigitProduct(da, DigitVal(b[j]));
    var sum := prod + res[i + j + 1];
    assert 0 <= sum / 10 <= 9;
    next := res[i + j + 1 := sum % 10][i + j := res[i + j] + sum / 10];
    ColumnStep(res, next, a, b, i, j, above);
  }

  /** One pass of the mul2 / mul5 carry loop, on digit i from the right. */
  method ScaleDigit(a: string, i: nat, m: nat, result: string, carry: nat) returns (next: string, nextCarry: nat)
    requires IsDigits(a) && i < |a| && (m == 2 || m == 5) && carry < m
    requires IsDigits(result) && |result| == |a| - i - 1
    requires Value(result) + carry * Pow10(|result|) == Value(a[i + 1..]) * m
    ensures IsDigits(next) && |next| == |a| - i && nextCarry < m
    ensures Value(next) + nextCarry * Pow10(|next|) == Value(a[i..]) * m
  {
    var prod := DigitVal(a[i]) * m + carry;
    next := [DigitChar(prod % 10)] + result;
    MulDigitStep(a, i, m, result, carry, next);
    ScaleCarry(DigitVal(a[i]), m, carry);
    nextCarry := prod / 10;
  }

  /** A digit times m plus a carry below m carries less than m. */
  lemma {:induction false} ScaleCarry(da: int, m: int, carry: int)
    requires 0 <= da <= 9 && 0 <= carry < m
    ensures 0 <= (da * m + carry) / 10 < m
  {
    assert da * m <= 9 * m;
  }

  /** One pass of the divBy2 / divBy5 loop, on digit k from the left. */
  method ShortDivideDigit(digits: string, k: nat, d: nat, quot: string, carry: nat) returns (next: string, nextCarry: nat)
    requires IsDigits(digits) && k < |digits| && (d == 2 || d == 5)
    requires IsDigits(quot) && carry < d && Value(quot) * d + carry == Value(digits[..k])
    ensures IsDigits(next) && nextCarry < d && Value(next) * d + nextCarry == Value(digits[..k + 1])
  {
    var cur := carry * 10 + DigitVal(digits[k]);
    ValuePrefixStep(digits, k);
    QuotientDigit(cur / d, d, cur);
    ValueAppendDigit(quot, DigitChar(cur / d));
    ShortDivisionStep(Value(quot), d, carry, DigitVal(digits[k]));
    next := quot + [DigitChar(cur / d)];
    nextCarry := cur % d;
  }

  // ---------------------------------------------------------------------
  // Arithmetic steps of the loops above

  lemma ZeroValue()
    ensures BigInt("0").Valid() && BigInt("0").Val() == 0
  {
    assert "0"[..0] == "";
  }

  lemma TenValue()
    ensures BigInt("10").Valid() && BigInt("10").Val() == 10
  {
    assert "10"[..1] == "1" && "1"[..0] == "";
  }

  lemma SingleDigitValue(c: char)
    requires IsDigit(c)
    ensures IsDigits([c]) && Value([c]) == DigitVal(c)
  {
    assert [c][..0] == [];
  }

  lemma {:induction false} CountStep(qd: int, d: int, before: int)
    ensures (qd + 1) * d + (before - d) == qd * d + before
  {
  }

  lemma {:induction false} LongDivisionStep(vq: int, b: int, ro: int, qd: int, rem: int, prefix: int, digit: int)
    requires vq * b + ro == prefix && qd * b + rem == 10 * ro + digit
    ensures (10 * vq + qd) * b + rem == 10 * prefix + digit
  {
    assert (10 * vq + qd) * b == 10 * (vq * b) + qd * b;
  }

  lemma {:induction false} ShortDivisionStep(vq: int, d: int, carry: int, digit: int)
    ensures (10 * vq + (carry * 10 + digit) / d) * d + (carry * 10 + digit) % d
      == 10 * (vq * d + carry) + digit
    requires d > 0
  {
    var cur := carry * 10 + digit;
    assert cur == (cur / d) * d + cur % d;
    assert (10 * vq + cur / d) * d == 10 * vq * d + (cur / d) * d;
  }

  /** One column of the addition loop. */
  lemma {:induction false} AddStep(a: string, b: string, i: nat, result: string, carry: int, next: string)
    requires IsDigits(a) && IsDigits(b) && |a| == |b| && i < |a|
    requires IsDigits(result) && |result| == |a| - i - 1
    requires Value(result) + carry * Pow10(|result|) == Value(a[i + 1..]) + Value(b[i + 1..])
    requires 0 <= carry
    requires next == [DigitChar((DigitVal(a[i]) + DigitVal(b[i]) + carry) % 10)] + result
    ensures IsDigits(next) && |next| == |result| + 1
    ensures Value(next) + ((DigitVal(a[i]) + DigitVal(b[i]) + carry) / 10) * Pow10(|next|)
      == Value(a[i..]) + Value(b[i..])
  {
    var sum := DigitVal(a[i]) + DigitVal(b[i]) + carry;
    ValuePrepend(result, sum % 10, sum / 10);
    ValueSuffixStep(a, i);
    ValueSuffixStep(b, i);
    var p := Pow10(|result|);
    assert |a| - i - 1 == |result|;
    assert sum % 10 + 10 * (sum / 10) == sum;
    Distribute3(DigitVal(a[i]), DigitVal(b[i]), carry, p);
  }

  /** One column of the subtraction loop; diff is already corrected into 0..9. */
  lemma {:induction false} SubStep(a: string, b: string, i: nat, result: string, diff: int, borrowIn: int, borrow: int, next: string)
    requires IsDigits(a) && IsDigits(b) && |a| == |b| && i < |a|
    requires IsDigits(result) && |result| == |a| - i - 1
    requires 0 <= diff < 10
    requires Value(result) - borrowIn * Pow10(|result|) == Value(a[i + 1..]) - Value(b[i + 1..])
    requires diff - 10 * borrow == DigitVal(a[i]) - DigitVal(b[i]) - borrowIn
    requires next == [DigitChar(diff)] + result
    ensures IsDigits(next) && |next| == |result| + 1
    ensures Value(next) - borrow * Pow10(|next|) == Value(a[i..]) - Value(b[i..])
  {
    ValuePrepend(result, diff, -borrow);
    ValueSuffixStep(a, i);
    ValueSuffixStep(b, i);
    var p := Pow10(|result|);
    assert |a| - i - 1 == |result|;
    assert (-borrow) * Pow10(|result| + 1) == -(borrow * Pow10(|result| + 1));
    SubIdentity(DigitVal(a[i]), DigitVal(b[i]), borrowIn, p, Value(result), Value(a[i + 1..]), Value(b[i + 1..]));
  }

  /** One column of the mul2 / mul5 loop. */
  lemma {:induction false} MulDigitStep(a: string, i: nat, m: int, result: string, carry: int, next: string)
    requires IsDigits(a) && i < |a| && m >= 0 && carry >= 0
    requires IsDigits(result) && |result| == |a| - i - 1
    requires Value(result) + carry * Pow10(|result|) == Value(a[i + 1..]) * m
    requires next == [DigitChar((DigitVal(a[i]) * m + carry) % 10)] + result
    ensures IsDigits(next) && |next| == |result| + 1
    ensures Value(next) + ((DigitVal(a[i]) * m + carry) / 10) * Pow10(|next|) == Value(a[i..]) * m
  {
    var da := DigitVal(a[i]);
    var prod := da * m + carry;
    ValuePrepend(result, prod % 10, prod / 10);
    ValueSuffixStep(a, i);
    assert |a| - i - 1 == |result|;
    assert prod % 10 + 10 * (prod / 10) == prod;
    ScaleIdentity(da, m, carry, Pow10(|result|), Value(a[i + 1..]));
  }

  lemma {:induction false} ScaleIdentity(da: int, m: int, carry: int, p: int, rest: int)
    ensures (da * m + carry) * p + rest * m == (da * p + rest) * m + carry * p
  {
    assert (da * m + carry) * p == (da * m) * p + carry * p;
    assert (da * p + rest) * m == (da * p) * m + rest * m;
    assert (da * m) * p == (da * p) * m;
  }

  lemma {:induction false} SubIdentity(da: int, db: int, bin: int, p: int, vr: int, va: int, vb: int)
    requires vr - bin * p == va - vb
    ensures (da - db - bin) * p + vr == (da * p + va) - (db * p + vb)
  {
    assert (da - db - bin) * p == da * p - db * p - bin * p;
  }

  lemma {:induction false} Distribute3(x: int, y: int, z: int, p: int)
    ensures (x + y + z) * p == x * p + y * p + z * p
  {
  }

  /** One inner step of the multiplication: digit j of b times digit i of a. */
  lemma {:induction false} ColumnStep(res: seq<int>, next: seq<int>, a: string, b: string, i: nat, j: nat, above: int)
    requires IsDigits(a) && IsDigits(b) && i < |a| && j < |b| && |res| == |a| + |b|
    requires var sum := DigitVal(a[i]) * DigitVal(b[j]) + res[i + j + 1];
      next == res[i + j + 1 := sum % 10][i + j := res[i + j] + sum / 10]
    requires SeqValue(res) == above + DigitVal(a[i]) * Value(b[j + 1..]) * Pow10(|a| - 1 - i)
    ensures SeqValue(next) == above + DigitVal(a[i]) * Value(b[j..]) * Pow10(|a| - 1 - i)
  {
    var da, db := DigitVal(a[i]), DigitVal(b[j]);
    var k, ka, kb := |res| - 1 - (i + j + 1), |a| - 1 - i, |b| - 1 - j;
    ValueSuffixStep(b, j);
    assert k == kb + ka;
    Pow10Add(kb, ka);
    SeqCarryUpdate(res, next, i + j + 1, da * db);
    ColumnArith(SeqValue(next), SeqValue(res), above, da, db, Pow10(kb), Pow10(ka), Value(b[j + 1..]),
                Pow10(k), Value(b[j..]));
  }

  lemma {:induction false} ColumnArith(vnext: int, vres: int, above: int, da: int, db: int, pb: int, pa: int,
                                       rb: int, p: int, vb: int)
    requires vnext == vres + (da * db) * p && p == pb * pa && vb == db * pb + rb
    requires vres == above + da * rb * pa
    ensures vnext == above + da * vb * pa
  {
    ProductStep(da, db, pb, rb, pa);
  }

  /** After a full row the value is a[i..] * b and position i holds a digit. */
  lemma {:induction false} RowDone(res: seq<int>, a: string, b: string, i: nat)
    requires IsDigits(a) && IsDigits(b) && i < |a| && |res| == |a| + |b|
    requires NonNegative(res) && forall k | 0 <= k < i :: res[k] == 0
    requires SeqValue(res) == Value(a[i + 1..]) * Value(b) + DigitVal(a[i]) * Value(b) * Pow10(|a| - 1 - i)
    ensures SeqValue(res) == Value(a[i..]) * Value(b) && res[i] < 10
  {
    ValueSuffixStep(a, i);
    RowStep(DigitVal(a[i]), Pow10(|a| - 1 - i), Value(a[i + 1..]), Value(b));
    ValueBound(a[i..]);
    ValueBound(b);
    ProductBound(Value(a[i..]), Value(b), Pow10(|a| - i), Pow10(|b|));
    Pow10Add(|a| - i, |b|);
    assert |res| - i == |a| - i + |b|;
    SeqLeadingDigit(res, i);
  }

  lemma {:induction false} DigitProduct(x: int, y: int)
    requires 0 <= x < 10 && 0 <= y < 10
    ensures 0 <= x * y <= 81
  {
    assert x * y <= 9 * y;
  }

  lemma {:induction false} ProductStep(da: int, db: int, pb: int, rest: int, pa: int)
    ensures da * (db * pb + rest) * pa == da * rest * pa + (da * db) * (pb * pa)
  {
    assert da * (db * pb + rest) == da * db * pb + da * rest;
    assert (da * db * pb + da * rest) * pa == (da * db * pb) * pa + da * rest * pa;
  }

  lemma {:induction false} RowStep(da: int, pa: int, rest: int, vb: int)
    ensures (da * pa + rest) * vb == rest * vb + da * vb * pa
  {
  }

  lemma {:induction false} ProductBound(x: nat, y: nat, px: nat, py: nat)
    requires x < px && y < py
    ensures x * y < px * py
  {
    assert x * y <= x * py;
    assert x * py < px * py;
  }
}
