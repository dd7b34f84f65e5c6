/** The signed, always-reduced fraction of the decimal fraction calculator
    (exe/High_Precision.cpp). Its reduce() rewrites the fields in place, so it
    is a class; every arithmetic operation returns a new object. */
module HighPrecisionFraction {
  import opened Digits
  import NT = NumberTheory
  import opened Outcomes
  import opened HighPrecisionBigInt

  class Fraction {
    var sign: int
    var num: BigInt
    var den: BigInt

    /** sign is +1 or -1, num and den are normal numerals, den is positive. */
    predicate Valid()
      reads this
    {
      (sign == 1 || sign == -1) && num.Valid() && den.Valid() && den.Val() > 0
    }

    /** Lowest terms, and zero is always +0/1. */
    predicate Reduced()
      reads this
      requires Valid()
    {
      NT.Gcd(num.Val(), den.Val()) == 1 && (num.Val() == 0 ==> sign == 1)
    }

    /** The signed numerator and the denominator of the rational number denoted. */
    function Numer(): int
      reads this
      requires Valid()
    {
      sign * num.Val()
    }

    function Denom(): nat
      reads this
      requires Valid()
    {
      den.Val()
    }

    /** reduce(): divides num and den by their gcd; a zero numerator becomes +0/1. */
    method Reduce()
      requires (sign == 1 || sign == -1) && num.Valid() && den.Valid() && den.Val() > 0
      modifies this
      ensures Valid() && Reduced()
      ensures Numer() * old(den.Val()) == old(sign * num.Val()) * Denom()
      ensures old(num.Val()) != 0 ==> sign == old(sign)
    {
      if num.Eq(BigInt("0")) {
        den := BigInt("1");
        sign := 1;
        OneValue();
        NT.GcdZeroLeft(1);
        return;
      }
      var g := Gcd(num, den);
      NT.GcdPositive(num.Val(), den.Val());
      var n := num.DivMod(g);
      var d := den.DivMod(g);
      LowestTerms(num.Val(), den.Val(), g.Val(), n.value.0.Val(), n.value.1.Val(), d.value.0.Val(), d.value.1.Val(), sign);
      num := n.value.0;
      den := d.value.0;
    }

    /** Fraction(): zero. */
    constructor ()
      ensures Valid() && Reduced() && Numer() == 0
    {
      sign := 1;
      num := BigInt("0");
      den := BigInt("1");
      new;
      ZeroValue();
      OneValue();
      NT.GcdZeroLeft(1);
    }

    /** Fraction(int s, BigInt n, BigInt d): the fraction s*n/d in lowest terms. */
    constructor FromParts(s: int, n: BigInt, d: BigInt)
      requires (s == 1 || s == -1) && n.Valid() && d.Valid() && d.Val() > 0
      ensures Valid() && Reduced()
      ensures Numer() * d.Val() == s * n.Val() * Denom()
      ensures n.Val() != 0 ==> sign == s
    {
      sign := s;
      num := n;
      den := d;
      new;
      Reduce();
    }

    /** The copy that sub() takes of its argument before flipping the sign. */
    constructor Copy(other: Fraction)
      ensures sign == other.sign && num == other.num && den == other.den
    {
      sign := other.sign;
      num := other.num;
      den := other.den;
    }

    /** Fraction(const string&): an optional '-', digits, an optional '.' and
        fractional digits, read as sign * (int ++ frac) / 10^|frac|. */
    constructor Parse(s: string)
      requires DecimalText(s)
      ensures Valid() && Reduced()
      ensures Numer() * Pow10(|FracPart(s)|) == TextSign(s) * Value(IntPart(s) + FracPart(s)) * Denom()
    {
      var sg, intPart, fracPart := SplitDecimal(s);
      assert sg == TextSign(s) && intPart == IntPart(s) && fracPart == FracPart(s) by {
        FirstDotSplit(Unsigned(s), intPart, fracPart);
      }
      var n, d := ScaledDecimal(intPart, fracPart);
      sign := sg;
      num := n;
      den := d;
      new;
      Reduce();
      if num.Eq(BigInt("0")) {
        sign := 1;
      }
      ParsedValue(Numer(), Denom(), sg, n.Val(), d.Val(), Value(intPart + fracPart), Pow10(|fracPart|));
    }

    // -------------------------------------------------------------------
    // Arithmetic

    /** add(): same signs add magnitudes; opposite signs subtract the smaller
        cross product from the larger and take the sign of the larger. */
    method Add(other: Fraction) returns (r: Fraction)
      requires Valid() && other.Valid()
      ensures fresh(r) && r.Valid() && r.Reduced()
      ensures r.Numer() * (Denom() * other.Denom())
        == (Numer() * other.Denom() + other.Numer() * Denom()) * r.Denom()
    {
      var newDen := den.Mul(other.den);
      var left := num.Mul(other.den);
      var right := other.num.Mul(den);
      var newSign := sign;
      var newNum;
      if sign != other.sign {
        if left.Less(right) {
          newSign := other.sign;
          newNum := right.Sub(left);
        } else {
          newSign := sign;
          newNum := left.Sub(right);
        }
      } else {
        newNum := left.Add(right);
      }
      SignedSum(sign, other.sign, left.Val(), right.Val(), newSign, newNum.Val());
      r := new Fraction.FromParts(newSign, newNum, newDen);
      CrossTerms(sign, num.Val(), other.sign, other.num.Val(), den.Val(), other.den.Val());
    }

    /** sub(): add the argument with its sign flipped. */
    method Sub(other: Fraction) returns (r: Fraction)
      requires Valid() && other.Valid()
      ensures fresh(r) && r.Valid() && r.Reduced()
      ensures r.Numer() * (Denom() * other.Denom())
        == (Numer() * other.Denom() - other.Numer() * Denom()) * r.Denom()
    {
      var negOther := new Fraction.Copy(other);
      negOther.sign := -other.sign;
      ghost var a, b, da, db := Numer(), other.Numer(), Denom(), other.Denom();
      assert negOther.Numer() == -b && negOther.Denom() == db;
      r := Add(negOther);
      NegatedTerm(a, b, da, db, r.Numer(), r.Denom());
    }

    method Mul(other: Fraction) returns (r: Fraction)
      requires Valid() && other.Valid()
      ensures fresh(r) && r.Valid() && r.Reduced()
      ensures r.Numer() * (Denom() * other.Denom()) == Numer() * other.Numer() * r.Denom()
    {
      var newNum := num.Mul(other.num);
      var newDen := den.Mul(other.den);
      var newSign := sign * other.sign;
      r := new Fraction.FromParts(newSign, newNum, newDen);
      ProductTerms(sign, num.Val(), other.sign, other.num.Val(), r.Numer(), r.Denom(), den.Val() * other.den.Val());
    }

    /** div(): throws on a zero divisor. */
    method Div(other: Fraction) returns (r: Result<Fraction>)
      requires Valid() && other.Valid()
      ensures r.Err? <==> other.Numer() == 0
      ensures r.Err? ==> r.error == DivisionByZero
      ensures r.Ok? ==> fresh(r.value) && r.value.Valid() && r.value.Reduced()
      ensures r.Ok? ==> r.value.Numer() * Denom() * other.Numer() == Numer() * other.Denom() * r.value.Denom()
    {
      if other.num.Eq(BigInt("0")) {
        return Err(DivisionByZero);
      }
      var newNum := num.Mul(other.den);
      var newDen := den.Mul(other.num);
      var newSign := sign * other.sign;
      var q := new Fraction.FromParts(newSign, newNum, newDen);
      QuotientTerms(sign, num.Val(), other.sign, other.num.Val(), den.Val(), other.den.Val(), q.Numer(), q.Denom());
      return Ok(q);
    }

    // -------------------------------------------------------------------
    // Printing

    /** isFiniteDecimal() with the halving / fifthing result kept in d: true
        exactly when the value is 0 or the denominator divides a power of ten. */
    method IsFiniteDecimal() returns (finite: bool)
      requires Valid()
      ensures finite <==> Numer() == 0 || NT.DividesPowerOfTen(Denom())
    {
      if num.Eq(BigInt("0")) {
        return true;
      }
      var d := den;
      ghost var m: nat := 1;
      ghost var k: nat := 0;
      NT.DividesIntro(1, Pow10(0), 1);
      OneValue();
      while d.NotEq(BigInt("1"))
        invariant d.Valid() && d.Val() * m == Denom() && NT.Divides(m, Pow10(k))
        decreases d.Val()
      {
        var temp := d;
        var halved, afterTwo := temp.DivBy2();
        if halved {
          FactorStep(d.Val(), 2, afterTwo.Val(), m, k);
          d, m, k := afterTwo, 2 * m, k + 1;
          continue;
        }
        var fifthed, afterFive := temp.DivBy5();
        if fifthed {
          FactorStep(d.Val(), 5, afterFive.Val(), m, k);
          d, m, k := afterFive, 5 * m, k + 1;
          continue;
        }
        NotFinite(d.Val(), m, Denom());
        return false;
      }
      assert NT.Divides(Denom(), Pow10(k));
      return true;
    }

    /** The sign text printed before a non-zero value. */
    function SignText(): string
      reads this
    {
      if sign == -1 then "-" else ""
    }

    /** toDecimalString(): integer part, then the long-division digits of the
        remainder until it is 0; only called for terminating values. */
    method ToDecimalString() returns (s: string)
      requires Valid() && (Numer() == 0 || NT.DividesPowerOfTen(Denom()))
      ensures Numer() == 0 ==> s == "0"
      ensures Numer() != 0 ==> DecimalExpansion(s, SignText(), num.Val(), Denom())
    {
      if num.Eq(BigInt("0")) {
        return "0";
      }
      s := NonZeroDecimal(SignText(), num, den);
    }

    /** toFractionString(): "-"? numerator, and "/" denominator unless it is 1. */
    function ToFractionString(): (s: string)
      reads this
      requires Valid()
      ensures Numer() == 0 ==> s == "0"
      ensures Numer() != 0 && Denom() == 1 ==> s == SignText() + Canon(num.Val())
      ensures Numer() != 0 && Denom() != 1 ==> s == SignText() + Canon(num.Val()) + "/" + Canon(Denom())
    {
      if num.Eq(BigInt("0")) then "0"
      else
        var tail := if den.NotEq(BigInt("1")) then "/" + den.digits else "";
        FractionTextParts(num, den);
        SignText() + num.digits + tail
    }

    /** toString(): decimal text when the value terminates, fraction text otherwise. */
    method ToString() returns (s: string)
      requires Valid()
      ensures Numer() == 0 ==> s == "0"
      ensures Numer() != 0 && NT.DividesPowerOfTen(Denom()) ==> DecimalExpansion(s, SignText(), num.Val(), Denom())
      ensures !NT.DividesPowerOfTen(Denom()) ==> s == ToFractionString()
    {
      var finite := IsFiniteDecimal();
      if finite {
        s := ToDecimalString();
      } else {
        s := ToFractionString();
      }
    }
  }

  /** The non-zero branch of toDecimalString(): the sign, the integer part
      num / den, and the fraction digits when the remainder is not 0. */
  method NonZeroDecimal(signText: string, num: BigInt, den: BigInt) returns (s: string)
    requires num.Valid() && den.Valid() && den.Val() > 0 && NT.DividesPowerOfTen(den.Val())
    ensures DecimalExpansion(s, signText, num.Val(), den.Val())
  {
    var qr := num.DivMod(den);
    var integer, remainder := qr.value.0, qr.value.1;
    DecimalHead(num.Val(), den.Val(), integer, remainder.Val());
    var head := signText + integer.digits;
    if remainder.Eq(BigInt("0")) {
      s := head;
      ExpansionFromParts(s, signText, num.Val(), den.Val(), integer.digits, "");
      return;
    }
    var frac := FractionDigits(remainder, den);
    s := head + "." + frac;
    ExpansionFromParts(s, signText, num.Val(), den.Val(), integer.digits, frac);
  }

  /** The digit loop of toDecimalString(): multiply the remainder by ten,
      emit the quotient digit, keep the remainder, until it is 0. */
  method FractionDigits(start: BigInt, den: BigInt) returns (frac: string)
    requires start.Valid() && den.Valid() && 0 < start.Val() < den.Val()
    requires NT.DividesPowerOfTen(den.Val())
    ensures IsDigits(frac) && |frac| > 0 && frac[|frac| - 1] != '0'
    ensures Value(frac) * den.Val() == start.Val() * Pow10(|frac|)
  {
    var ten := BigInt("10");
    TenValue();
    ZeroValue();
    ghost var d := den.Val();
    ghost var r0 := start.Val();
    ghost var t := FiniteSteps(d, r0);
    var remainder := start;
    frac := "";
    while remainder.NotEq(BigInt("0"))
      invariant remainder.Valid() && remainder.Val() < d
      invariant IsDigits(frac)
      invariant Value(frac) * d + remainder.Val() == r0 * Pow10(|frac|)
      invariant NT.Divides(d, remainder.Val() * Pow10(t))
      invariant remainder.Val() == 0 ==> |frac| > 0 && frac[|frac| - 1] != '0'
      decreases t
    {
      ghost var r := remainder.Val();
      RemainderNeedsSteps(d, r, t);
      var shifted := remainder.Mul(ten);
      var step := shifted.DivMod(den);
      var digit, rest := step.value.0, step.value.1;
      ghost var q, r' := digit.Val(), rest.Val();
      QuotientDigit(q, d, 10 * r);
      SingleNumeral(digit);
      ExpansionStep(Value(frac), d, r, q, r', r0, Pow10(|frac|));
      RemainderStep(d, r, t, q, r');
      ValueAppendDigit(frac, digit.digits[0]);
      LastDigit(q, d, r, r');
      frac := frac + digit.digits;
      remainder := rest;
      t := t - 1;
    }
  }

  // ---------------------------------------------------------------------
  // The isFiniteDecimal loop as written: `temp` is halved or fifthed but the
  // result is never stored back into `d`.

  datatype LoopStep = Again(d: nat) | Done(finite: bool)

  /** One pass of the loop body as written, on the value of d. */
  function FiniteDecimalStepAsWritten(d: nat): (step: LoopStep)
    ensures d == 1 ==> step == Done(true)
    ensures step.Again? ==> step.d == d
  {
    if d == 1 then Done(true)
    else if d % 2 == 0 then Again(d)
    else if d % 5 == 0 then Again(d)
    else Done(false)
  }

  /** For a denominator such as 2 (the value 0.5) the loop state never changes,
      so the loop as written never exits. */
  lemma AsWrittenLoopNeverEnds(d: nat, n: nat)
    requires d != 1 && (d % 2 == 0 || d % 5 == 0)
    ensures IterateAsWritten(d, n) == Again(d)
  {
    if n > 0 {
      AsWrittenLoopNeverEnds(d, n - 1);
    }
  }

  function IterateAsWritten(d: nat, n: nat): LoopStep
  {
    if n == 0 then Again(d)
    else match FiniteDecimalStepAsWritten(d)
      case Again(d') => IterateAsWritten(d', n - 1)
      case Done(f) => Done(f)
  }

  lemma AsWrittenHalfNeverEnds(n: nat)
    ensures IterateAsWritten(2, n) == Again(2)
  {
    AsWrittenLoopNeverEnds(2, n);
  }

  // ---------------------------------------------------------------------
  // Decimal text

  /** The first steps of the string constructor: strip a leading '-' and cut
      the rest at its first '.'. */
  method SplitDecimal(s: string) returns (sg: int, intPart: string, fracPart: string)
    ensures sg == if |s| > 0 && s[0] == '-' then -1 else 1
    ensures '.' !in intPart
    ensures '.' !in Unsigned(s) ==> intPart == Unsigned(s) && fracPart == ""
    ensures '.' in Unsigned(s) ==> Unsigned(s) == intPart + "." + fracPart
  {
    var str := s;
    sg := 1;
    if |str| > 0 && str[0] == '-' {
      sg := -1;
      str := str[1..];
    }
    var dot := FirstDot(str);
    if dot == |str| {
      intPart, fracPart := str, "";
    } else {
      intPart, fracPart := str[..dot], str[dot + 1..];
      assert intPart + "." + fracPart == str;
    }
  }

  /** The rest of the string constructor before reduce(): numerator
      int * 10^scale + frac and denominator 10^scale, where frac has lost its
      trailing zeros and scale is its length. */
  method ScaledDecimal(i: string, f: string) returns (n: BigInt, d: BigInt)
    requires IsDigits(i) && IsDigits(f)
    ensures n.Valid() && d.Valid() && d.Val() > 0
    ensures n.Val() * Pow10(|f|) == Value(i + f) * d.Val()
  {
    var intNum := IntegerPart(i);
    var fracPart := DropTrailingZeros(f);
    n, d := ComposeDecimal(intNum, fracPart);
    DecimalScaling(i, f, fracPart, intNum.Val(), n.Val());
    ScaledValue(n.Val(), d.Val(), Value(i + f), Pow10(|f|), Pow10(|f| - |fracPart|));
  }

  /** The integer digits as a number: "" reads as "0", leading zeros go. */
  method IntegerPart(i: string) returns (intNum: BigInt)
    requires IsDigits(i)
    ensures intNum.Valid() && intNum.Val() == Value(i)
  {
    var intPart := i;
    if |intPart| == 0 {
      intPart := "0";
      SingleDigitValue('0');
    }
    StripZerosValue(intPart);
    intPart := StripZeros(intPart);
    intNum := FromString(intPart);
  }

  /** numerator int * 10^scale + frac and denominator 10^scale, or int/1 when
      there are no fractional digits. */
  method ComposeDecimal(intNum: BigInt, fracPart: string) returns (n: BigInt, d: BigInt)
    requires intNum.Valid() && IsDigits(fracPart)
    ensures n.Valid() && d.Valid()
    ensures n.Val() == intNum.Val() * Pow10(|fracPart|) + Value(fracPart) && d.Val() == Pow10(|fracPart|)
  {
    OneValue();
    if |fracPart| == 0 {
      n := intNum;
      d := BigInt("1");
    } else {
      var fracNum := FromString(fracPart);
      var scale := |fracPart|;
      var shifted := intNum.MulPow10(scale);
      n := shifted.Add(fracNum);
      d := BigInt("1").MulPow10(scale);
    }
  }

  /** The fractional digits without their trailing zeros. */
  method DropTrailingZeros(f: string) returns (g: string)
    requires IsDigits(f)
    ensures IsDigits(g) && (|g| > 0 ==> g[|g| - 1] != '0')
    ensures |g| <= |f| && f == g + Zeros(|f| - |g|)
  {
    g := f;
    while |g| > 0 && g[|g| - 1] == '0'
      invariant IsDigits(g) && |g| <= |f| && f == g + Zeros(|f| - |g|)
    {
      assert g == g[..|g| - 1] + ['0'];
      assert ['0'] + Zeros(|f| - |g|) == Zeros(|f| - |g| + 1);
      g := g[..|g| - 1];
    }
  }

  /** A terminating expansion: the sign text, the integer quotient, and either
      nothing (exact division) or '.' and digits that represent the remainder
      exactly and do not end in '0'. */
  ghost predicate DecimalExpansion(s: string, signText: string, n: nat, d: nat)
    requires d > 0
  {
    var head := signText + Canon(n / d);
    |s| >= |head| && s[..|head|] == head
    && var tail := s[|head|..];
    (n % d == 0 ==> tail == "")
    && (n % d != 0 ==>
          && |tail| >= 2 && tail[0] == '.' && IsDigits(tail[1..])
          && Value(tail[1..]) * d == (n % d) * Pow10(|tail| - 1)
          && tail[|tail| - 1] != '0')
  }

  // ---------------------------------------------------------------------
  // Lemmas behind the operations

  lemma FractionTextParts(n: BigInt, d: BigInt)
    requires n.Valid() && d.Valid()
    ensures Canon(n.Val()) == n.digits && Canon(d.Val()) == d.digits
    ensures d.digits == "1" <==> d.Val() == 1
  {
    CanonOfNormal(n.digits);
    CanonOfNormal(d.digits);
    OneValue();
    NormalUnique(d.digits, "1");
  }

  lemma OneValue()
    ensures BigInt("1").Valid() && BigInt("1").Val() == 1
  {
    assert "1"[..0] == "";
  }

  lemma SingleNumeral(b: BigInt)
    requires b.Valid() && b.Val() < 10
    ensures |b.digits| == 1 && DigitVal(b.digits[0]) == b.Val()
  {
    if |b.digits| > 1 {
      Pow10Mono(1, |b.digits| - 1);
      FrontLower(b.digits);
    }
    assert b.digits[..0] == "";
  }

  /** Dividing a non-zero numerator and a denominator by their gcd leaves a
      fraction in lowest terms with the same value. */
  lemma {:induction false} LowestTerms(n: nat, d: nat, g: nat, qn: nat, rn: nat, qd: nat, rd: nat, s: int)
    requires n > 0 && d > 0 && g == NT.Gcd(n, d)
    requires qn * g + rn == n && rn < g && qd * g + rd == d && rd < g
    ensures qd > 0 && qn > 0 && NT.Gcd(qn, qd) == 1
    ensures s * qn * d == s * n * qd
  {
    NT.GcdPositive(n, d);
    NT.GcdQuotientsCoprime(n, d);
    NT.DividesElim(g, n);
    NT.DividesElim(g, d);
    NT.DivModUnique(n, g, qn, rn);
    NT.DivModUnique(d, g, qd, rd);
    assert qn * d == qn * (g * qd) == (g * qn) * qd;
  }

  /** The value of the decimal text survives dropping trailing fractional zeros. */
  lemma {:induction false} DecimalScaling(i: string, f: string, g: string, iv: nat, nv: nat)
    requires IsDigits(i) && IsDigits(f) && IsDigits(g) && Value(i) == iv
    requires |g| <= |f| && f == g + Zeros(|f| - |g|) && nv == iv * Pow10(|g|) + Value(g)
    ensures Value(i + f) == nv * Pow10(|f| - |g|)
    ensures Pow10(|f|) == Pow10(|g|) * Pow10(|f| - |g|)
  {
    var z := |f| - |g|;
    ValueConcat(i, f);
    ValueTrailingZeros(g, z);
    Pow10Add(|g|, z);
    ScaleSum(iv, Pow10(|g|), Pow10(z), Value(g));
  }

  lemma {:induction false} ScaleSum(x: int, p: int, q: int, y: int)
    ensures x * (p * q) + y * q == (x * p + y) * q
  {
  }

  lemma {:induction false} ScaledValue(n: nat, d: nat, v: nat, p: nat, w: nat)
    requires v == n * w && p == d * w
    ensures n * p == v * d
  {
    assert n * (d * w) == (n * w) * d;
  }

  /** Reducing n/d to numer/denom keeps the value that n/d gives the text. */
  lemma {:induction false} ParsedValue(numer: int, denom: nat, sg: int, n: nat, d: nat, v: nat, p: nat)
    requires d > 0 && numer * d == sg * n * denom && n * p == v * d
    ensures numer * p == sg * v * denom
  {
    var lhs, rhs := numer * p, sg * v * denom;
    assert lhs * d == (numer * d) * p == sg * denom * (n * p);
    assert rhs * d == sg * denom * (v * d);
    if lhs < rhs {
      MulLess(lhs, rhs, d);
      assert false;
    } else if rhs < lhs {
      MulLess(rhs, lhs, d);
      assert false;
    }
  }

  /** The numerator add() builds equals the signed sum of the cross products. */
  lemma {:induction false} SignedSum(s: int, t: int, x: nat, y: nat, ns: int, nn: int)
    requires (s == 1 || s == -1) && (t == 1 || t == -1)
    requires s == t ==> ns == s && nn == x + y
    requires s != t && x < y ==> ns == t && nn == y - x
    requires s != t && x >= y ==> ns == s && nn == x - y
    ensures ns * nn == s * x + t * y
  {
  }

  lemma {:induction false} NegatedTerm(a: int, b: int, da: int, db: int, rn: int, rd: int)
    requires rn * (da * db) == (a * db + (-b) * da) * rd
    ensures rn * (da * db) == (a * db - b * da) * rd
  {
    assert (-b) * da == -(b * da);
  }

  lemma {:induction false} CrossTerms(s: int, n: nat, t: int, m: nat, d: nat, e: nat)
    ensures s * (n * e) + t * (m * d) == (s * n) * e + (t * m) * d
  {
  }

  lemma {:induction false} ProductTerms(s: int, n: nat, t: int, m: nat, rn: int, rd: nat, dd: nat)
    requires rn * dd == (s * t) * (n * m) * rd
    ensures rn * dd == (s * n) * (t * m) * rd
  {
    assert (s * t) * (n * m) == (s * n) * (t * m);
  }

  lemma {:induction false} QuotientTerms(s: int, n: nat, t: int, m: nat, d: nat, e: nat, rn: int, rd: nat)
    requires t == 1 || t == -1
    requires rn * (d * m) == (s * t) * (n * e) * rd
    ensures rn * d * (t * m) == (s * n) * e * rd
  {
    assert rn * d * (t * m) == t * (rn * (d * m));
    assert t * ((s * t) * (n * e) * rd) == (t * t) * ((s * n) * e * rd);
  }

  /** Moving a factor 2 or 5 from the running denominator to the removed part. */
  lemma {:induction false} FactorStep(d: nat, f: nat, q: nat, m: nat, k: nat)
    requires (f == 2 || f == 5) && d > 0 && d % f == 0 && q == d / f && NT.Divides(m, Pow10(k))
    ensures q * (f * m) == d * m && q < d && NT.Divides(f * m, Pow10(k + 1))
  {
    NT.TwoDividesTen(m, k);
    NT.DivModUnique(d, f, d / f, 0);
    assert q * (f * m) == (q * f) * m;
  }

  lemma {:induction false} NotFinite(d: nat, m: nat, den: nat)
    requires d > 1 && d % 2 != 0 && d % 5 != 0 && d * m == den
    ensures !NT.DividesPowerOfTen(den)
  {
    if NT.DividesPowerOfTen(den) {
      var k: nat :| NT.Divides(den, Pow10(k));
      NT.DividesIntro(d, den, m);
      NT.DividesTrans(d, den, Pow10(k));
      NT.CoprimeToTenDividesPow10(d, k);
      assert false;
    }
  }

  /** A denominator dividing 10^t leaves at most t digits to produce. */
  lemma {:induction false} FiniteSteps(den: nat, r: nat) returns (t: nat)
    requires den > 0 && NT.DividesPowerOfTen(den)
    ensures NT.Divides(den, r * Pow10(t))
  {
    var k: nat :| NT.Divides(den, Pow10(k));
    NT.DividesMul(den, Pow10(k), r);
    assert Pow10(k) * r == r * Pow10(k);
    t := k;
  }

  lemma {:induction false} RemainderNeedsSteps(den: nat, r: nat, t: nat)
    requires den > 0 && 0 < r < den && NT.Divides(den, r * Pow10(t))
    ensures t > 0
  {
    if t == 0 {
      NT.DividesLessEq(den, r);
      assert false;
    }
  }

  lemma {:induction false} RemainderStep(den: nat, r: nat, t: nat, q: nat, r': nat)
    requires den > 0 && t > 0 && NT.Divides(den, r * Pow10(t)) && q * den + r' == 10 * r
    ensures NT.Divides(den, r' * Pow10(t - 1))
  {
    var w := Pow10(t - 1);
    var big := r * Pow10(t);
    NT.DividesElim(den, big);
    var c := big / den;
    RemainderAlgebra(r, r', q, den, w, c);
    var k := c - q * w;
    if k < 0 {
      MulLess(k, 0, den);
      assert false;
    }
    NT.DividesIntro(den, r' * w, k);
  }

  lemma {:induction false} RemainderAlgebra(r: int, r': int, q: int, den: int, w: int, c: int)
    requires q * den + r' == 10 * r && r * (10 * w) == den * c
    ensures r' * w == den * (c - q * w)
  {
    assert r' * w == (10 * r - q * den) * w == r * (10 * w) - (q * den) * w;
  }

  /** The digit that leaves remainder 0 is not 0, since the remainder was not. */
  lemma {:induction false} LastDigit(q: nat, d: nat, r: nat, r': nat)
    requires r > 0 && q * d + r' == 10 * r
    ensures r' == 0 ==> q != 0
  {
  }

  lemma {:induction false} DecimalHead(n: nat, d: nat, q: BigInt, r: nat)
    requires d > 0 && q.Valid() && q.Val() * d + r == n && r < d
    ensures q.digits == Canon(n / d) && r == n % d
  {
    NT.DivModUnique(n, d, q.Val(), r);
    CanonOfNormal(q.digits);
  }

  lemma {:induction false} ExpansionFromParts(s: string, signText: string, n: nat, d: nat, head: string, frac: string)
    requires d > 0 && head == Canon(n / d)
    requires n % d == 0 ==> frac == "" && s == signText + head
    requires n % d != 0 ==> s == signText + head + "." + frac
    requires n % d != 0 ==> IsDigits(frac) && |frac| > 0 && frac[|frac| - 1] != '0'
    requires n % d != 0 ==> Value(frac) * d == (n % d) * Pow10(|frac|)
    ensures DecimalExpansion(s, signText, n, d)
  {
    var h := signText + head;
    assert s[..|h|] == h;
    if n % d != 0 {
      assert s[|h|..] == "." + frac;
      assert ("." + frac)[1..] == frac;
    }
  }

  lemma {:induction false} ExpansionStep(vf: nat, den: nat, r: nat, q: nat, r': nat, r0: nat, p: nat)
    requires vf * den + r == r0 * p && q * den + r' == 10 * r
    ensures (10 * vf + q) * den + r' == r0 * (10 * p)
  {
    assert (10 * vf + q) * den == 10 * (vf * den) + q * den;
  }
}
