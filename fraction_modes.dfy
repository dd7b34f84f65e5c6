/** The two modes of the decimal/fraction converter (exe/Fraction.cpp): a
    decimal written as a fraction in lowest terms, and a fraction written as a
    decimal whose repeating part is found by remembering the remainders of the
    long division. */
module FractionModes {
  import opened Digits
  import opened Outcomes
  import NT = NumberTheory
  import FS = FractionStrings

  // ---------------------------------------------------------------------
  // Mode 1: decimal to fraction

  /** The magnitude of a decimal text scaled by 10^(digits after the point):
      "12.34" gives 1234, "7" gives 7, "5." gives 5. */
  function Scaled(s: string): nat
    requires DecimalText(s)
  {
    Value(IntPart(s)) * Pow10(|FracPart(s)|) + Value(FracPart(s))
  }

  /** decimalToFraction() after the spaces are removed: the sign is dropped,
      the digits around the point become a numerator over a power of ten, and
      factors 2 and then 5 are cancelled while both sides have them. A zero
      value is "0/1" whatever the sign. */
  method DecimalToFraction(input: string) returns (negative: bool, num: string, den: string)
    requires DecimalText(input)
    ensures IsNormal(num) && IsNormal(den) && Value(den) > 0
    ensures Value(num) * Pow10(|FracPart(input)|) == Value(den) * Scaled(input)
    ensures NT.Gcd(Value(num), Value(den)) == 1
    ensures Value(num) == 0 ==> den == "1"
    ensures negative <==> TextSign(input) == -1 && Value(num) != 0
  {
    var numStr, denStr, k := SplitDecimal(input);
    num, den := ReduceFraction(numStr, denStr, k, Pow10(|FracPart(input)|), Scaled(input));
    negative := |input| > 0 && input[0] == '-' && num != "0";
  }

  /** The numerator's leading zeros are stripped; a zero numerator gives
      "0/1", any other is cancelled. scale and whole are the numbers the
      strings stand for: numStr / denStr == whole / scale. */
  method ReduceFraction(numStr: string, denStr: string, ghost k: nat, ghost scale: nat, ghost whole: nat)
    returns (num: string, den: string)
    requires IsDigits(numStr) && IsNormal(denStr) && Value(denStr) == Pow10(k)
    requires Value(numStr) * scale == Value(denStr) * whole
    ensures IsNormal(num) && IsNormal(den) && Value(den) > 0
    ensures Value(num) * scale == Value(den) * whole
    ensures NT.Gcd(Value(num), Value(den)) == 1
    ensures Value(num) == 0 ==> den == "1"
    ensures num == "0" <==> Value(num) == 0
  {
    ghost var n0, d0 := Value(numStr), Value(denStr);
    assert Value("0") == 0 && Value("1") == 1 by { assert "0"[..0] == "" && "1"[..0] == ""; }
    StripZerosValue(numStr);
    var stripped := StripZeros(numStr);
    if stripped == "0" {
      assert whole == 0 by { ZeroScaled(d0, scale, whole); }
      assert NT.Gcd(0, 1) == 1 by { NT.GcdZeroLeft(1); }
      return "0", "1";
    }
    assert Value(stripped) > 0 by { NormalUnique(stripped, "0"); }
    num, den := CancelTwosAndFives(stripped, denStr, k);
    assert Value(num) * scale == Value(den) * whole by {
      CrossCancel(Value(num), Value(den), n0, d0, scale, whole);
    }
    assert num != "0";
  }

  /** The two cancelling loops: while both strings are divisible by 2 (then by
      5) both are divided by it. The denominator starts as a power of ten, so
      afterwards the fraction is in lowest terms. */
  method CancelTwosAndFives(n: string, d: string, ghost k: nat) returns (num: string, den: string)
    requires IsNormal(n) && IsNormal(d) && Value(n) > 0 && Value(d) == Pow10(k)
    ensures IsNormal(num) && IsNormal(den) && Value(num) > 0 && Value(den) > 0
    ensures Value(num) * Value(d) == Value(den) * Value(n)
    ensures NT.Gcd(Value(num), Value(den)) == 1
  {
    ghost var n0, d0 := Value(n), Value(d);
    num, den := n, d;
    NT.DividesIntro(d0, Pow10(k), 1);
    while FS.DivisibleBySmall(num, 2) && FS.DivisibleBySmall(den, 2)
      invariant IsNormal(num) && IsNormal(den) && Value(num) > 0 && Value(den) > 0
      invariant Value(num) * d0 == Value(den) * n0
      invariant NT.Divides(Value(den), Pow10(k))
      decreases Value(den)
    {
      ghost var vn, vd := Value(num), Value(den);
      num := FS.DivideBySmall(num, 2);
      den := FS.DivideBySmall(den, 2);
      CancelFactor(vn, vd, 2, n0, d0, k);
    }
    while FS.DivisibleBySmall(num, 5) && FS.DivisibleBySmall(den, 5)
      invariant IsNormal(num) && IsNormal(den) && Value(num) > 0 && Value(den) > 0
      invariant Value(num) * d0 == Value(den) * n0
      invariant NT.Divides(Value(den), Pow10(k))
      invariant Value(num) % 2 == 1 || Value(den) % 2 == 1
      decreases Value(den)
    {
      ghost var vn, vd := Value(num), Value(den);
      num := FS.DivideBySmall(num, 5);
      den := FS.DivideBySmall(den, 5);
      CancelFactor(vn, vd, 5, n0, d0, k);
    }
    LowestTerms(Value(num), Value(den), k);
  }

  /** The numerator and denominator strings before any cancelling: the digits
      with the point removed over 1 followed by one zero per fractional digit,
      an empty integer or fractional part read as "0". */
  method SplitDecimal(input: string) returns (numStr: string, denStr: string, ghost k: nat)
    requires DecimalText(input)
    ensures IsDigits(numStr) && IsNormal(denStr) && Value(denStr) == Pow10(k)
    ensures Value(numStr) * Pow10(|FracPart(input)|) == Value(denStr) * Scaled(input)
  {
    var s := Unsigned(input);
    var dot := FirstDot(s);
    if dot == |s| {
      assert s[..dot] == s && FracPart(input) == "";
      assert Value("1") == 1 && Value("") == 0 by { assert "1"[..0] == ""; }
      numStr, denStr, k := s, "1", 0;
    } else {
      var intPart, fracPart := s[..dot], s[dot + 1..];
      assert intPart == IntPart(input) && fracPart == FracPart(input);
      numStr, denStr, k := JoinParts(intPart, fracPart);
    }
  }

  /** The digits on both sides of the point, each read as "0" when empty,
      over 1 followed by one zero per fractional digit. */
  method JoinParts(intPart: string, fracPart: string) returns (numStr: string, denStr: string, ghost k: nat)
    requires IsDigits(intPart) && IsDigits(fracPart)
    ensures IsDigits(numStr) && IsNormal(denStr) && Value(denStr) == Pow10(k)
    ensures Value(numStr) * Pow10(|fracPart|)
         == Value(denStr) * (Value(intPart) * Pow10(|fracPart|) + Value(fracPart))
  {
    ghost var vi, vf, scale := Value(intPart), Value(fracPart), Pow10(|fracPart|);
    assert Value("0") == 0 && Value("1") == 1 by { assert "0"[..0] == "" && "1"[..0] == ""; }
    var i := if intPart == "" then "0" else intPart;
    var f := if fracPart == "" then "0" else fracPart;
    assert Value(i) == vi && Value(f) == vf;
    numStr := i + f;
    denStr := "1" + Zeros(|f|);
    k := |f|;
    assert Value(numStr) == vi * Pow10(k) + vf by { ValueConcat(i, f); }
    assert Value(denStr) == Pow10(k) by { ValueTrailingZeros("1", k); }
    assert denStr[0] == '1';
    if fracPart == "" {
      assert scale == 1 && vf == 0 && Pow10(k) == 10;
      SwapScale(vi, 10, 1, 0);
    } else {
      assert Pow10(k) == scale;
      SwapScale(vi, scale, scale, vf);
    }
  }

  /** (i * p + f) * s == p * (i * s + f) when p == s, or when s == 1 and f == 0. */
  lemma {:induction false} SwapScale(i: int, p: int, s: int, f: int)
    requires p == s || (s == 1 && f == 0)
    ensures (i * p + f) * s == p * (i * s + f)
  {
    if p != s {
      assert (i * p) * 1 == p * i;
    }
  }

  /** Cancelling a common factor 2 or 5 keeps the fraction's value and its
      denominator a divisor of the power of ten; cancelling 5 keeps an odd
      side odd. */
  lemma {:induction false} CancelFactor(vn: nat, vd: nat, p: nat, n0: nat, d0: nat, k: nat)
    requires p == 2 || p == 5
    requires vn > 0 && vd > 0 && vn % p == 0 && vd % p == 0
    requires vn * d0 == vd * n0 && NT.Divides(vd, Pow10(k))
    ensures vn / p > 0 && 0 < vd / p < vd
    ensures (vn / p) * d0 == (vd / p) * n0
    ensures NT.Divides(vd / p, Pow10(k))
    ensures p == 5 ==> (vn % 2 == 1 ==> (vn / p) % 2 == 1) && (vd % 2 == 1 ==> (vd / p) % 2 == 1)
  {
    var a, b := vn / p, vd / p;
    assert vn == a * p && vd == b * p;
    assert a > 0 && 0 < b < vd;
    assert a * d0 == b * n0 by {
      CancelCommon(a, d0, b, n0, p);
    }
    assert NT.Divides(b, Pow10(k)) by {
      NT.DividesIntro(b, vd, p);
      NT.DividesTrans(b, vd, Pow10(k));
    }
    if p == 5 {
      assert vn % 2 == 1 ==> a % 2 == 1 by {
        NT.ModMulBoth(a, p, 2);
      }
      assert vd % 2 == 1 ==> b % 2 == 1 by {
        NT.ModMulBoth(b, p, 2);
      }
    }
  }

  lemma {:induction false} CancelCommon(a: int, x: int, b: int, y: int, p: int)
    requires p > 0 && (a * p) * x == (b * p) * y
    ensures a * x == b * y
  {
    assert (a * x) * p == (b * y) * p;
    if a * x < b * y {
      NT.MulMonoStep(a * x, b * y, p);
    } else if a * x > b * y {
      NT.MulMonoStep(b * y, a * x, p);
    }
  }

  lemma {:induction false} ZeroScaled(d0: nat, scale: nat, whole: nat)
    requires d0 > 0 && 0 * scale == d0 * whole
    ensures whole == 0
  {
    if whole > 0 {
      NT.MulMonoStep(0, d0, whole);
    }
  }

  /** A factor of m keeps m's nonzero remainder modulo p. */
  lemma {:induction false} FactorResidue(g: nat, m: nat, p: nat)
    requires g > 0 && p > 0 && NT.Divides(g, m) && m % p != 0
    ensures g % p != 0
  {
    if g % p == 0 {
      NT.DividesTrans(p, g, m);
    }
  }

  /** A denominator dividing a power of ten, sharing no factor 2 and no factor
      5 with its numerator, is in lowest terms with it. */
  lemma {:induction false} LowestTerms(vn: nat, vd: nat, k: nat)
    requires vd > 0 && NT.Divides(vd, Pow10(k))
    requires vn % 2 == 1 || vd % 2 == 1
    requires vn % 5 != 0 || vd % 5 != 0
    ensures NT.Gcd(vn, vd) == 1
  {
    var g := NT.Gcd(vn, vd);
    NT.GcdPositive(vn, vd);
    NT.GcdDivides(vn, vd);
    NT.DividesTrans(g, vd, Pow10(k));
    if vn % 2 == 1 {
      FactorResidue(g, vn, 2);
    } else {
      FactorResidue(g, vd, 2);
    }
    if vn % 5 != 0 {
      FactorResidue(g, vn, 5);
    } else {
      FactorResidue(g, vd, 5);
    }
    NT.CoprimeToTenDividesPow10(g, k);
  }

  lemma {:induction false} CrossCancel(vn: nat, vd: nat, n0: nat, d0: nat, scale: nat, whole: nat)
    requires d0 > 0 && vn * d0 == vd * n0 && n0 * scale == d0 * whole
    ensures vn * scale == vd * whole
  {
    assert d0 * (vn * scale) == (vn * d0) * scale == (vd * n0) * scale == vd * (n0 * scale)
        == vd * (d0 * whole) == d0 * (vd * whole);
    if vn * scale < vd * whole {
      NT.MulMonoStep(vn * scale, vd * whole, d0);
    } else if vn * scale > vd * whole {
      NT.MulMonoStep(vd * whole, vn * scale, d0);
    }
  }

  // ---------------------------------------------------------------------
  // Mode 2: fraction to decimal

  /** What fractionToDecimal() prints: a whole number, a terminating decimal,
      or a decimal whose repeating digits are written in parentheses. */
  datatype Expansion =
    | Whole(negative: bool, integer: string)
    | Terminating(negative: bool, integer: string, digits: string)
    | Repeating(negative: bool, integer: string, prefix: string, cycle: string)

  /** The remainders r0, r1, ..., rn of the long division of r0 / d: each is
      ten times the one before, modulo d. */
  function Remainders(r0: nat, d: nat, n: nat): (rs: seq<nat>)
    requires r0 < d
    ensures |rs| == n + 1 && rs[0] == r0
    ensures forall j | 0 <= j <= n :: rs[j] < d
  {
    if n == 0 then [r0]
    else
      var rs := Remainders(r0, d, n - 1);
      rs + [(10 * rs[n - 1]) % d]
  }

  /** The digit the division writes while its remainder is r. */
  function DigitAfter(r: nat, d: nat): (c: char)
    requires r < d
    ensures IsDigit(c) && DigitVal(c) == 10 * r / d
  {
    QuotientDigit(10 * r / d, d, 10 * r);
    DigitChar(10 * r / d)
  }

  /** The first n digits after the point of r0 / d. */
  function FractionDigitsOf(r0: nat, d: nat, n: nat): (s: string)
    requires r0 < d
    ensures |s| == n && IsDigits(s)
  {
    if n == 0 then ""
    else
      var prefix := FractionDigitsOf(r0, d, n - 1);
      var c := DigitAfter(Remainders(r0, d, n - 1)[n - 1], d);
      ValueAppendDigit(prefix, c);
      prefix + [c]
  }

  /** No remainder is zero and no two are equal. */
  predicate DistinctNonzero(rs: seq<nat>)
  {
    && (forall j | 0 <= j < |rs| :: rs[j] != 0)
    && (forall i, j | 0 <= i < j < |rs| :: rs[i] != rs[j])
  }

  /** The division ends after n digits: the n-th remainder is 0 and none before. */
  predicate EndsAt(r0: nat, d: nat, n: nat)
    requires r0 < d
  {
    var rs := Remainders(r0, d, n);
    rs[n] == 0 && forall j | 0 <= j < n :: rs[j] != 0
  }

  /** The remainders before step k are nonzero and pairwise different, and the
      one at step k is the one met at step s: the digits from s on repeat. */
  predicate RepeatsAt(r0: nat, d: nat, s: nat, k: nat)
    requires r0 < d
  {
    var rs := Remainders(r0, d, k);
    s < k && rs[k] == rs[s] && DistinctNonzero(rs[..k])
  }

  /** e is how fractionToDecimal() writes a fraction with integer quotient q
      and remainder r0 over d: the quotient, then either nothing (r0 is 0),
      the digits of the long division of r0 / d up to the remainder 0, or the
      digits up to the first remainder met twice, split where that remainder
      was first met. */
  predicate Describes(e: Expansion, q: nat, r0: nat, d: nat)
    requires r0 < d
  {
    && IsNormal(e.integer) && Value(e.integer) == q
    && (e.Whole? <==> r0 == 0)
    && match e
       case Whole(_, _) => true
       case Terminating(_, _, digits) =>
         && digits == FractionDigitsOf(r0, d, |digits|)
         && EndsAt(r0, d, |digits|) && |digits| < d
       case Repeating(_, _, prefix, cycle) =>
         && prefix == FractionDigitsOf(r0, d, |prefix|)
         && prefix + cycle == FractionDigitsOf(r0, d, |prefix| + |cycle|)
         && RepeatsAt(r0, d, |prefix|, |prefix| + |cycle|) && |prefix| + |cycle| < d
  }

  /** e is how fractionToDecimal() writes n / d. */
  predicate Expands(e: Expansion, n: nat, d: nat)
    requires d > 0
  {
    NT.DivParts(n, d);
    Describes(e, n / d, n % d, d)
  }

  /** fractionToDecimal() after the spaces are removed: a zero denominator is
      an error; a zero numerator prints "0" without a sign; otherwise the
      quotient of the magnitudes, then the digits of the long division of the
      remainder, stopped when a remainder is 0 or repeats one seen before. The
      result is negative when exactly one input carries a '-'. */
  method FractionToDecimal(numInput: string, denInput: string) returns (r: Result<Expansion>)
    requires Unsigned(numInput) == "" || IsNormal(Unsigned(numInput))
    requires IsNormal(Unsigned(denInput))
    ensures r.Err? <==> Value(Unsigned(denInput)) == 0
    ensures r.Err? ==> r.error == DivisionByZero
    ensures r.Ok? && Value(Unsigned(numInput)) == 0 ==> r.value == Whole(false, "0")
    ensures r.Ok? && Value(Unsigned(numInput)) > 0 ==>
      && r.value.negative == (TextSign(numInput) != TextSign(denInput))
      && Expands(r.value, Value(Unsigned(numInput)), Value(Unsigned(denInput)))
  {
    var numText, denText := Unsigned(numInput), Unsigned(denInput);
    var numNegative := |numInput| > 0 && numInput[0] == '-';
    var denNegative := |denInput| > 0 && denInput[0] == '-';
    assert Value("0") == 0 by { assert "0"[..0] == ""; }
    NormalUnique(denText, "0");
    if denText == "0" {
      return Err(DivisionByZero);
    }
    var resultNegative := numNegative != denNegative;
    if numText == "0" || numText == "" {
      return Ok(Whole(false, "0"));
    }
    NormalUnique(numText, "0");
    var e := ExpandMagnitudes(numText, denText, resultNegative);
    r := Ok(e);
  }

  /** The quotient of two positive magnitudes, then the digits of the long
      division of the remainder, if any. */
  method ExpandMagnitudes(numText: string, denText: string, negative: bool) returns (e: Expansion)
    requires IsNormal(numText) && IsNormal(denText) && Value(numText) > 0 && Value(denText) > 0
    ensures e.negative == negative && Expands(e, Value(numText), Value(denText))
  {
    var integer, rem := FS.Divide(numText, denText);
    ghost var n, d := Value(numText), Value(denText);
    assert n / d == Value(integer) && n % d == Value(rem) by {
      NT.DivModUnique(n, d, Value(integer), Value(rem));
    }
    assert Value("0") == 0 by { assert "0"[..0] == ""; }
    NormalUnique(rem, "0");
    if rem == "0" {
      e := Whole(negative, integer);
      assert Describes(e, Value(integer), Value(rem), d);
      return;
    }
    e := DescribeRemainder(integer, rem, denText, negative);
  }

  /** The digits of the long division of a nonzero remainder, terminating or
      split into the prefix and the cycle. */
  method DescribeRemainder(integer: string, rem: string, denText: string, negative: bool) returns (e: Expansion)
    requires IsNormal(integer) && IsNormal(rem) && IsNormal(denText) && 0 < Value(rem) < Value(denText)
    ensures e.negative == negative && Describes(e, Value(integer), Value(rem), Value(denText))
  {
    var digits, start := LongDivision(rem, denText);
    ghost var r0, d := Value(rem), Value(denText);
    if start.None? {
      e := Terminating(negative, integer, digits);
      assert Describes(e, Value(integer), r0, d);
    } else {
      var s := start.value;
      FractionDigitsPrefix(r0, d, s, |digits|);
      e := Repeating(negative, integer, digits[..s], digits[s..]);
      RepeatingDescribes(e, digits, s, r0, d);
    }
  }

  /** Splitting the digits where the repeated remainder was first met gives
      a described repeating expansion. */
  lemma {:induction false} RepeatingDescribes(e: Expansion, digits: string, s: nat, r0: nat, d: nat)
    requires r0 < d && 0 < r0 && s < |digits| < d && IsNormal(e.integer)
    requires e == Repeating(e.negative, e.integer, digits[..s], digits[s..])
    requires digits == FractionDigitsOf(r0, d, |digits|) && digits[..s] == FractionDigitsOf(r0, d, s)
    requires RepeatsAt(r0, d, s, |digits|)
    ensures Describes(e, Value(e.integer), r0, d)
  {
    assert e.prefix + e.cycle == digits;
  }

  /** What a described expansion means: a terminating one is n / d exactly;
      for a repeating one, with s digits before the cycle and k digits in all,
      n * (10^k - 10^s) / d is the integer part times (10^k - 10^s) plus the
      first k digits less the first s (the prefix followed by the cycle
      repeated forever). */
  lemma {:induction false} DescribedValue(e: Expansion, n: nat, d: nat)
    requires d > 0 && Expands(e, n, d)
    ensures e.Whole? ==> n == Value(e.integer) * d
    ensures e.Terminating? ==>
      n * Pow10(|e.digits|) == (Value(e.integer) * Pow10(|e.digits|) + Value(e.digits)) * d
    ensures e.Repeating? ==>
      var s, k := |e.prefix|, |e.prefix| + |e.cycle|;
      n * (Pow10(k) - Pow10(s))
      == (Value(e.integer) * (Pow10(k) - Pow10(s)) + Value(e.prefix + e.cycle) - Value(e.prefix)) * d
  {
    NT.DivParts(n, d);
    QuotientValue(e, n, d, n / d, n % d);
  }

  lemma {:induction false} QuotientValue(e: Expansion, n: nat, d: nat, q: nat, r0: nat)
    requires r0 < d && n == q * d + r0 && Describes(e, q, r0, d)
    ensures e.Whole? ==> n == Value(e.integer) * d
    ensures e.Terminating? ==>
      n * Pow10(|e.digits|) == (Value(e.integer) * Pow10(|e.digits|) + Value(e.digits)) * d
    ensures e.Repeating? ==>
      var s, k := |e.prefix|, |e.prefix| + |e.cycle|;
      n * (Pow10(k) - Pow10(s))
      == (Value(e.integer) * (Pow10(k) - Pow10(s)) + Value(e.prefix + e.cycle) - Value(e.prefix)) * d
  {
    if e.Terminating? {
      TerminatingMeaning(e, n, d, q, r0);
    } else if e.Repeating? {
      RepeatingMeaning(e, n, d, q, r0);
    }
  }

  lemma {:induction false} TerminatingMeaning(e: Expansion, n: nat, d: nat, q: nat, r0: nat)
    requires e.Terminating? && r0 < d && n == q * d + r0 && Describes(e, q, r0, d)
    ensures n * Pow10(|e.digits|) == (Value(e.integer) * Pow10(|e.digits|) + Value(e.digits)) * d
  {
    var digits := e.digits;
    assert r0 * Pow10(|digits|) == Value(digits) * d by { TerminatingValue(r0, d, |digits|); }
    WholeAndFraction(n, d, Value(e.integer), r0, Pow10(|digits|), Value(digits));
  }

  lemma {:induction false} RepeatingMeaning(e: Expansion, n: nat, d: nat, q: nat, r0: nat)
    requires e.Repeating? && r0 < d && n == q * d + r0 && IsDigits(e.integer) && Value(e.integer) == q
    requires var s, k := |e.prefix|, |e.prefix| + |e.cycle|;
      && FractionDigitsOf(r0, d, k) == e.prefix + e.cycle && FractionDigitsOf(r0, d, s) == e.prefix
      && RepeatsAt(r0, d, s, k)
    ensures var s, k := |e.prefix|, |e.prefix| + |e.cycle|;
      n * (Pow10(k) - Pow10(s))
      == (Value(e.integer) * (Pow10(k) - Pow10(s)) + Value(e.prefix + e.cycle) - Value(e.prefix)) * d
  {
    var s, k := |e.prefix|, |e.prefix| + |e.cycle|;
    assert r0 * (Pow10(k) - Pow10(s)) == (Value(e.prefix + e.cycle) - Value(e.prefix)) * d by {
      RepeatingValue(r0, d, s, k);
    }
    WholeAndFraction(n, d, Value(e.integer), r0, Pow10(k) - Pow10(s), Value(e.prefix + e.cycle) - Value(e.prefix));
  }

  /** The digit loop of fractionToDecimal(): each remainder gets a '0' appended
      and is divided by the denominator; the quotient is the next digit, and
      each new remainder is recorded with the position after its digit. */
  method LongDivision(rem: string, den: string) returns (digits: string, start: Option<nat>)
    requires IsNormal(rem) && IsNormal(den) && 0 < Value(rem) < Value(den)
    ensures digits == FractionDigitsOf(Value(rem), Value(den), |digits|) && |digits| < Value(den)
    ensures start.None? ==> EndsAt(Value(rem), Value(den), |digits|)
    ensures start.Some? ==> RepeatsAt(Value(rem), Value(den), start.value, |digits|)
  {
    ghost var r0, d := Value(rem), Value(den);
    ghost var rems: seq<nat> := [r0];
    var cur := rem;
    var seen: map<string, nat> := map[rem := 0];
    var position: nat := 0;
    digits := "";
    CanonOfNormal(rem);
    while true
      invariant position == |digits| && digits == FractionDigitsOf(r0, d, position)
      invariant rems == Remainders(r0, d, position)
      invariant IsNormal(cur) && Value(cur) == rems[position]
      invariant SeenMatches(seen, rems) && DistinctNonzero(rems)
      invariant |rems| < d
      decreases d - |rems|
    {
      var stop;
      digits, rems, cur, seen, stop, start := DivisionStep(r0, d, cur, den, digits, rems, seen);
      position := position + 1;
      if stop {
        return;
      }
    }
  }

  /** One pass of the loop: the next digit, then either the end of the
      division, a remainder met before, or a new remainder recorded. */
  method DivisionStep(ghost r0: nat, ghost d: nat, cur: string, den: string, digits: string,
                      ghost rems: seq<nat>, seen: map<string, nat>)
    returns (nextDigits: string, ghost nextRems: seq<nat>, nextCur: string, nextSeen: map<string, nat>,
             stop: bool, start: Option<nat>)
    requires IsNormal(den) && r0 < d && d == Value(den)
    requires digits == FractionDigitsOf(r0, d, |digits|) && rems == Remainders(r0, d, |digits|)
    requires IsNormal(cur) && Value(cur) == rems[|digits|]
    requires SeenMatches(seen, rems) && DistinctNonzero(rems) && |rems| < d
    ensures |nextDigits| == |digits| + 1 && nextDigits == FractionDigitsOf(r0, d, |nextDigits|)
    ensures nextRems == Remainders(r0, d, |nextDigits|)
    ensures stop && start.None? ==> EndsAt(r0, d, |nextDigits|)
    ensures stop && start.Some? ==> RepeatsAt(r0, d, start.value, |nextDigits|)
    ensures !stop ==> && IsNormal(nextCur) && Value(nextCur) == nextRems[|nextDigits|]
                      && SeenMatches(nextSeen, nextRems) && DistinctNonzero(nextRems) && |nextRems| < d
  {
    var newRem;
    nextDigits, newRem, nextRems := ExtendDigits(r0, d, cur, den, digits, rems);
    nextCur, nextSeen := newRem, seen;
    if newRem == "0" {
      Ended(r0, d, |nextDigits|, rems);
      stop, start := true, None;
    } else if newRem in seen {
      stop, start := true, Some(seen[newRem]);
      Repeated(r0, d, |nextDigits|, rems, start.value);
    } else {
      Record(seen, rems, newRem);
      Pigeonhole(r0, d, |nextDigits|, nextRems);
      nextSeen := seen[newRem := |nextDigits|];
      stop, start := false, None;
    }
  }

  /** One pass of the loop body: the next digit is appended and the next
      remainder recorded. */
  method ExtendDigits(ghost r0: nat, ghost d: nat, cur: string, den: string, digits: string, ghost rems: seq<nat>)
    returns (nextDigits: string, next: string, ghost nextRems: seq<nat>)
    requires IsNormal(den) && r0 < d && d == Value(den)
    requires digits == FractionDigitsOf(r0, d, |digits|) && rems == Remainders(r0, d, |digits|)
    requires IsNormal(cur) && Value(cur) == rems[|digits|] && 0 < Value(cur)
    ensures nextDigits == FractionDigitsOf(r0, d, |digits| + 1) && |nextDigits| == |digits| + 1
    ensures IsNormal(next) && (next == "0" <==> Value(next) == 0)
    ensures nextRems == rems + [Value(next)] && nextRems == Remainders(r0, d, |digits| + 1)
  {
    assert Value(cur) < d;
    var digit;
    digit, next := NextDigit(cur, den);
    Advance(r0, d, |digits|, digits, rems, digit, Value(next));
    nextDigits := digits + [digit];
    nextRems := rems + [Value(next)];
    NormalUnique(next, "0");
  }

  /** The digit and remainder of one more step extend the sequences of digits
      and remainders by one. */
  lemma {:induction false} Advance(r0: nat, d: nat, n: nat, digits: string, rems: seq<nat>, digit: char, next: nat)
    requires r0 < d && digits == FractionDigitsOf(r0, d, n) && rems == Remainders(r0, d, n)
    requires digit == DigitAfter(rems[n], d) && next == 10 * rems[n] % d
    ensures digits + [digit] == FractionDigitsOf(r0, d, n + 1)
    ensures rems + [next] == Remainders(r0, d, n + 1)
  {
  }

  lemma {:induction false} Ended(r0: nat, d: nat, n: nat, before: seq<nat>)
    requires r0 < d && n >= 1 && before + [0] == Remainders(r0, d, n) && DistinctNonzero(before)
    ensures EndsAt(r0, d, n)
  {
    assert Remainders(r0, d, n)[..n] == before;
  }

  lemma {:induction false} Repeated(r0: nat, d: nat, n: nat, before: seq<nat>, s: nat)
    requires r0 < d && n >= 1 && |before| == n && s < n && DistinctNonzero(before)
    requires before + [before[s]] == Remainders(r0, d, n)
    ensures RepeatsAt(r0, d, s, n)
  {
    assert Remainders(r0, d, n)[..n] == before;
  }

  /** One pass of the loop body: rem + "0" divided by the denominator gives
      the next digit (a one-character quotient) and the next remainder. */
  method NextDigit(cur: string, den: string) returns (digit: char, next: string)
    requires IsNormal(cur) && IsNormal(den) && 0 < Value(cur) < Value(den)
    ensures digit == DigitAfter(Value(cur), Value(den))
    ensures IsNormal(next) && Value(next) == 10 * Value(cur) % Value(den)
  {
    var dividend := AppendZero(cur);
    var digitStr;
    digitStr, next := FS.Divide(dividend, den);
    NT.DivModUnique(10 * Value(cur), Value(den), Value(digitStr), Value(next));
    QuotientDigit(Value(digitStr), Value(den), 10 * Value(cur));
    SingleDigit(digitStr);
    digit := digitStr[0];
  }

  /** The map of remainders met so far: each key is the normal string of the
      remainder at the step it is mapped to, and every step has its key. */
  predicate SeenMatches(seen: map<string, nat>, rems: seq<nat>)
  {
    && (forall key {:trigger seen[key]} | key in seen :: IsNormal(key) && seen[key] < |rems| && Value(key) == rems[seen[key]])
    && (forall j | 0 <= j < |rems| :: Canon(rems[j]) in seen)
  }

  /** Recording a nonzero remainder missing from the map: it was met at no
      earlier step, and the map then covers one step more. */
  lemma {:induction false} Record(seen: map<string, nat>, rems: seq<nat>, next: string)
    requires IsNormal(next) && next !in seen && Value(next) != 0
    requires SeenMatches(seen, rems) && DistinctNonzero(rems)
    ensures SeenMatches(seen[next := |rems|], rems + [Value(next)])
    ensures DistinctNonzero(rems + [Value(next)])
  {
    CanonOfNormal(next);
    assert forall j | 0 <= j < |rems| :: rems[j] != Value(next);
  }

  /** rem + "0": ten times a nonzero normal string is normal. */
  method AppendZero(s: string) returns (t: string)
    requires IsNormal(s) && Value(s) > 0
    ensures IsNormal(t) && Value(t) == 10 * Value(s)
  {
    t := s + "0";
    ValueAppendDigit(s, '0');
    assert t[0] == s[0];
    if |s| == 1 {
      assert Value(s) == DigitVal(s[0]) by { assert s[..0] == ""; }
    }
  }

  /** The quotient string of a single-digit division is that digit. */
  lemma {:induction false} SingleDigit(q: string)
    requires IsDigits(q) && (q == "0" || IsNormal(q)) && Value(q) < 10
    ensures q == [DigitChar(Value(q))]
  {
    if q != "0" {
      CanonOfNormal(q);
    } else {
      assert Value(q) == 0 by { assert q[..0] == ""; }
    }
  }

  // ---------------------------------------------------------------------
  // What the digits mean

  /** Long division keeps r0 * 10^n equal to the digits written so far times d
      plus the current remainder. */
  lemma {:induction false} RemainderIdentity(r0: nat, d: nat, n: nat)
    requires r0 < d
    ensures r0 * Pow10(n) == Value(FractionDigitsOf(r0, d, n)) * d + Remainders(r0, d, n)[n]
  {
    if n == 0 {
    } else {
      RemainderIdentity(r0, d, n - 1);
      var r := Remainders(r0, d, n - 1)[n - 1];
      var prefix := FractionDigitsOf(r0, d, n - 1);
      var c := DigitAfter(r, d);
      var q, next := 10 * r / d, (10 * r) % d;
      assert Remainders(r0, d, n)[n] == next;
      assert FractionDigitsOf(r0, d, n) == prefix + [c];
      ValueAppendDigit(prefix, c);
      var v, p := Value(prefix), Pow10(n - 1);
      assert Value(FractionDigitsOf(r0, d, n)) == 10 * v + q;
      assert Pow10(n) == 10 * p;
      NT.DivParts(10 * r, d);
      DigitStepArith(r0, p, v, d, r, q, next);
    }
  }

  lemma {:induction false} DigitStepArith(r0: int, p: int, v: int, d: int, r: int, q: int, next: int)
    requires r0 * p == v * d + r && 10 * r == q * d + next
    ensures r0 * (10 * p) == (10 * v + q) * d + next
  {
    assert r0 * (10 * p) == 10 * (r0 * p);
    assert (10 * v + q) * d == 10 * (v * d) + q * d;
  }

  /** A division that ends after n digits is exact: r0 / d == digits / 10^n. */
  lemma {:induction false} TerminatingValue(r0: nat, d: nat, n: nat)
    requires r0 < d && EndsAt(r0, d, n)
    ensures r0 * Pow10(n) == Value(FractionDigitsOf(r0, d, n)) * d
  {
    RemainderIdentity(r0, d, n);
  }

  /** A division that repeats from digit s to digit k: r0 / d is the prefix
      followed by the digits s..k-1 repeated forever, that is
      r0 * (10^k - 10^s) == (digits[..k] - digits[..s]) * d. */
  lemma {:induction false} RepeatingValue(r0: nat, d: nat, s: nat, k: nat)
    requires r0 < d && RepeatsAt(r0, d, s, k)
    ensures r0 * (Pow10(k) - Pow10(s))
            == (Value(FractionDigitsOf(r0, d, k)) - Value(FractionDigitsOf(r0, d, s))) * d
  {
    var vk, vs := Value(FractionDigitsOf(r0, d, k)), Value(FractionDigitsOf(r0, d, s));
    var rk, rs := Remainders(r0, d, k)[k], Remainders(r0, d, s)[s];
    assert rk == rs by {
      RemaindersPrefix(r0, d, s, k);
      assert Remainders(r0, d, k)[s] == Remainders(r0, d, s)[s];
    }
    assert r0 * Pow10(k) == vk * d + rk by {
      RemainderIdentity(r0, d, k);
    }
    assert r0 * Pow10(s) == vs * d + rs by {
      RemainderIdentity(r0, d, s);
    }
    DifferenceOfIdentities(r0, Pow10(k), Pow10(s), vk, vs, d, rk);
  }

  lemma {:induction false} DifferenceOfIdentities(r0: int, pk: int, ps: int, vk: int, vs: int, d: int, r: int)
    requires r0 * pk == vk * d + r && r0 * ps == vs * d + r
    ensures r0 * (pk - ps) == (vk - vs) * d
  {
    assert r0 * (pk - ps) == r0 * pk - r0 * ps;
    assert (vk - vs) * d == vk * d - vs * d;
  }

  lemma {:induction false} RemaindersPrefix(r0: nat, d: nat, s: nat, k: nat)
    requires r0 < d && s <= k
    ensures Remainders(r0, d, k)[..s + 1] == Remainders(r0, d, s)
    decreases k
  {
    if s < k {
      RemaindersPrefix(r0, d, s, k - 1);
      assert Remainders(r0, d, k)[..s + 1] == Remainders(r0, d, k - 1)[..s + 1];
    }
  }

  lemma {:induction false} FractionDigitsPrefix(r0: nat, d: nat, s: nat, k: nat)
    requires r0 < d && s <= k
    ensures FractionDigitsOf(r0, d, k)[..s] == FractionDigitsOf(r0, d, s)
    decreases k
  {
    if s < k {
      FractionDigitsPrefix(r0, d, s, k - 1);
      assert FractionDigitsOf(r0, d, k)[..s] == FractionDigitsOf(r0, d, k - 1)[..s];
    }
  }

  /** n = q * d + r0 and r0 * scale == f * d give n * scale == (q * scale + f) * d. */
  lemma {:induction false} WholeAndFraction(n: int, d: int, q: int, r0: int, scale: int, f: int)
    requires n == q * d + r0 && r0 * scale == f * d
    ensures n * scale == (q * scale + f) * d
  {
    assert n * scale == (q * d) * scale + r0 * scale;
    assert (q * scale + f) * d == (q * d) * scale + f * d;
  }

  // ---------------------------------------------------------------------
  // The expansion is determined by the fraction

  function RemainderAt(r0: nat, d: nat, i: nat): nat
    requires r0 < d
  {
    Remainders(r0, d, i)[i]
  }

  lemma {:induction false} RemaindersIndex(r0: nat, d: nat, i: nat, n: nat)
    requires r0 < d && i <= n
    ensures Remainders(r0, d, n)[i] == RemainderAt(r0, d, i)
  {
    RemaindersPrefix(r0, d, i, n);
    assert Remainders(r0, d, n)[..i + 1][i] == Remainders(r0, d, n)[i];
  }

  lemma {:induction false} RemainderStep(r0: nat, d: nat, m: nat)
    requires r0 < d
    ensures RemainderAt(r0, d, m + 1) == (10 * RemainderAt(r0, d, m)) % d
  {
  }

  lemma {:induction false} EndsFacts(r0: nat, d: nat, n: nat)
    requires r0 < d && EndsAt(r0, d, n)
    ensures RemainderAt(r0, d, n) == 0
    ensures forall j | 0 <= j < n :: RemainderAt(r0, d, j) != 0
  {
    forall j | 0 <= j < n
      ensures RemainderAt(r0, d, j) != 0
    {
      RemaindersIndex(r0, d, j, n);
    }
  }

  lemma {:induction false} RepeatsFacts(r0: nat, d: nat, s: nat, k: nat)
    requires r0 < d && RepeatsAt(r0, d, s, k)
    ensures s < k && RemainderAt(r0, d, k) == RemainderAt(r0, d, s)
    ensures forall j | 0 <= j < k :: RemainderAt(r0, d, j) != 0
    ensures forall i, j | 0 <= i < j < k :: RemainderAt(r0, d, i) != RemainderAt(r0, d, j)
  {
    var rs := Remainders(r0, d, k);
    RemaindersIndex(r0, d, s, k);
    forall j | 0 <= j < k
      ensures RemainderAt(r0, d, j) == rs[..k][j]
    {
      RemaindersIndex(r0, d, j, k);
    }
  }

  /** Once a remainder recurs, the remainders after it repeat with period k - s. */
  lemma {:induction false} Periodic(r0: nat, d: nat, s: nat, k: nat, i: nat)
    requires r0 < d && RemainderAt(r0, d, k) == RemainderAt(r0, d, s)
    ensures RemainderAt(r0, d, k + i) == RemainderAt(r0, d, s + i)
  {
    if i > 0 {
      Periodic(r0, d, s, k, i - 1);
      RemainderStep(r0, d, k + i - 1);
      RemainderStep(r0, d, s + i - 1);
    }
  }

  lemma {:induction false} PeriodicReduce(r0: nat, d: nat, s: nat, k: nat, n: nat) returns (j: nat)
    requires r0 < d && s < k && RemainderAt(r0, d, k) == RemainderAt(r0, d, s) && s <= n
    ensures s <= j < k && RemainderAt(r0, d, n) == RemainderAt(r0, d, j)
    decreases n
  {
    if n < k {
      j := n;
    } else {
      Periodic(r0, d, s, k, n - k);
      j := PeriodicReduce(r0, d, s, k, n - (k - s));
    }
  }

  /** A division that ends never repeats. */
  lemma {:induction false} EndsNeverRepeats(r0: nat, d: nat, n: nat, s: nat, k: nat)
    requires r0 < d && EndsAt(r0, d, n)
    ensures !RepeatsAt(r0, d, s, k)
  {
    if RepeatsAt(r0, d, s, k) {
      EndsFacts(r0, d, n);
      RepeatsFacts(r0, d, s, k);
      if n > k {
        var j := PeriodicReduce(r0, d, s, k, n);
      }
      assert false;
    }
  }

  lemma {:induction false} EndsAtUnique(r0: nat, d: nat, n1: nat, n2: nat)
    requires r0 < d && EndsAt(r0, d, n1) && EndsAt(r0, d, n2)
    ensures n1 == n2
  {
    EndsFacts(r0, d, n1);
    EndsFacts(r0, d, n2);
  }

  /** The repeating block starts at the first remainder that recurs, and ends
      where it recurs: there is only one such split. */
  lemma {:induction false} RepeatsAtUnique(r0: nat, d: nat, s1: nat, k1: nat, s2: nat, k2: nat)
    requires r0 < d && RepeatsAt(r0, d, s1, k1) && RepeatsAt(r0, d, s2, k2)
    ensures s1 == s2 && k1 == k2
  {
    RepeatsFacts(r0, d, s1, k1);
    RepeatsFacts(r0, d, s2, k2);
  }

  /** Two expansions that both describe n / d with the same sign are the same:
      the output of fractionToDecimal() is fully determined by its contract. */
  lemma {:induction false} ExpandsUnique(e1: Expansion, e2: Expansion, n: nat, d: nat)
    requires d > 0 && Expands(e1, n, d) && Expands(e2, n, d) && e1.negative == e2.negative
    ensures e1 == e2
  {
    NT.DivParts(n, d);
    var q, r0 := n / d, n % d;
    assert Describes(e1, q, r0, d) && Describes(e2, q, r0, d);
    NormalUnique(e1.integer, e2.integer);
    if e1.Terminating? || e2.Terminating? {
      TerminatingUnique(e1, e2, q, r0, d);
    } else if e1.Repeating? {
      RepeatingUnique(e1, e2, q, r0, d);
    }
  }

  /** Two described expansions of which one terminates: the other terminates
      too, after as many digits. */
  lemma {:induction false} TerminatingUnique(e1: Expansion, e2: Expansion, q: nat, r0: nat, d: nat)
    requires r0 < d && Describes(e1, q, r0, d) && Describes(e2, q, r0, d)
    requires e1.negative == e2.negative && e1.integer == e2.integer
    requires e1.Terminating? || e2.Terminating?
    ensures e1 == e2
  {
    if !e2.Terminating? {
      EndsNeverRepeats(r0, d, |e1.digits|, |e2.prefix|, |e2.prefix| + |e2.cycle|);
      assert false;
    } else if !e1.Terminating? {
      EndsNeverRepeats(r0, d, |e2.digits|, |e1.prefix|, |e1.prefix| + |e1.cycle|);
      assert false;
    } else {
      EndsAtUnique(r0, d, |e1.digits|, |e2.digits|);
    }
  }

  /** Two described repeating expansions: the cycle starts and ends at the
      same places. */
  lemma {:induction false} RepeatingUnique(e1: Expansion, e2: Expansion, q: nat, r0: nat, d: nat)
    requires r0 < d && Describes(e1, q, r0, d) && Describes(e2, q, r0, d)
    requires e1.negative == e2.negative && e1.integer == e2.integer
    requires e1.Repeating? && e2.Repeating?
    ensures e1 == e2
  {
    RepeatsAtUnique(r0, d, |e1.prefix|, |e1.prefix| + |e1.cycle|, |e2.prefix|, |e2.prefix| + |e2.cycle|);
    assert e1.cycle == (e1.prefix + e1.cycle)[|e1.prefix|..];
    assert e2.cycle == (e2.prefix + e2.cycle)[|e2.prefix|..];
  }

  /** The text fractionToDecimal() prints for an expansion. */
  function Render(e: Expansion): string
  {
    (if e.negative then "-" else "") + Magnitude(e)
  }

  /** The printed text after the sign. */
  function Magnitude(e: Expansion): string
  {
    if e.Whole? then e.integer else e.integer + "." + AfterPoint(e)
  }

  /** The printed text after the '.'. */
  function AfterPoint(e: Expansion): string
    requires !e.Whole?
  {
    if e.Terminating? then e.digits else e.prefix + "(" + e.cycle + ")"
  }

  /** The parts of an expansion are digit strings, the integer part not empty. */
  predicate DigitParts(e: Expansion)
  {
    |e.integer| >= 1 && IsDigits(e.integer) &&
    match e
      case Whole(_, _) => true
      case Terminating(_, _, digits) => IsDigits(digits)
      case Repeating(_, _, prefix, cycle) => IsDigits(prefix) && IsDigits(cycle)
  }

  /** The long division only ever writes digit strings. */
  lemma ExpandedDigitParts(e: Expansion, n: nat, d: nat)
    requires d > 0 && Expands(e, n, d)
    ensures DigitParts(e)
  {
    NT.DivParts(n, d);
    if e.Repeating? {
      var all := FractionDigitsOf(n % d, d, |e.prefix| + |e.cycle|);
      assert e.prefix + e.cycle == all;
      assert forall i | 0 <= i < |e.cycle| :: e.cycle[i] == all[|e.prefix| + i];
    }
  }

  /** The printed text determines the expansion: no two expansions of
      fractions, whatever their values, print the same text. */
  lemma {:induction false} PrintedUnique(e1: Expansion, n1: nat, d1: nat, e2: Expansion, n2: nat, d2: nat)
    requires d1 > 0 && d2 > 0 && Expands(e1, n1, d1) && Expands(e2, n2, d2)
    requires Render(e1) == Render(e2)
    ensures e1 == e2
  {
    ExpandedDigitParts(e1, n1, d1);
    ExpandedDigitParts(e2, n2, d2);
    RenderInjective(e1, e2);
  }

  /** On digit parts, Render is one-to-one. */
  lemma {:induction false} RenderInjective(e1: Expansion, e2: Expansion)
    requires DigitParts(e1) && DigitParts(e2) && Render(e1) == Render(e2)
    ensures e1 == e2
  {
    var m1, m2 := Magnitude(e1), Magnitude(e2);
    assert m1[0] == e1.integer[0] && m2[0] == e2.integer[0];
    assert e1.negative == e2.negative by {
      assert Render(e1)[0] == (if e1.negative then '-' else m1[0]);
      assert Render(e2)[0] == (if e2.negative then '-' else m2[0]);
    }
    if e1.negative {
      assert m1 == Render(e1)[1..] && m2 == Render(e2)[1..];
    } else {
      assert Render(e1) == m1 && Render(e2) == m2;
    }
    MagnitudeInjective(e1, e2);
  }

  /** Two texts cut by the same non-digit after a digit string: the cuts
      coincide. */
  lemma {:induction false} MarkerSplit(a: string, x: string, b: string, y: string, m: char)
    requires IsDigits(a) && IsDigits(b) && !IsDigit(m)
    requires a + [m] + x == b + [m] + y
    ensures a == b && x == y
  {
    var t := a + [m] + x;
    assert |a| == |b| by {
      assert forall i | 0 <= i < |a| :: t[i] == a[i];
      assert forall i | 0 <= i < |b| :: t[i] == b[i];
      assert t[|a|] == m && t[|b|] == m;
    }
    assert t[..|a|] == a && t[..|b|] == b;
    assert t[|a| + 1..] == x && t[|b| + 1..] == y;
  }

  /** A digit string holds no '.' and no '('. */
  lemma NoMarks(a: string)
    requires IsDigits(a)
    ensures '.' !in a && '(' !in a
  {
  }

  /** A '.' is printed exactly when the expansion is not whole. */
  lemma {:induction false} PointShown(e: Expansion)
    requires DigitParts(e)
    ensures e.Whole? <==> '.' !in Magnitude(e)
  {
    NoMarks(e.integer);
    if !e.Whole? {
      assert Magnitude(e)[|e.integer|] == '.';
    }
  }

  /** A '(' follows the point exactly when the expansion repeats. */
  lemma {:induction false} CycleShown(e: Expansion)
    requires DigitParts(e) && !e.Whole?
    ensures e.Repeating? <==> '(' in AfterPoint(e)
  {
    if e.Terminating? {
      NoMarks(e.digits);
    } else {
      assert AfterPoint(e)[|e.prefix|] == '(';
    }
  }

  /** On digit parts and one sign, the text after the sign determines the
      expansion. */
  lemma {:induction false} MagnitudeInjective(e1: Expansion, e2: Expansion)
    requires DigitParts(e1) && DigitParts(e2) && e1.negative == e2.negative
    requires Magnitude(e1) == Magnitude(e2)
    ensures e1 == e2
  {
    PointShown(e1);
    PointShown(e2);
    if !e1.Whole? {
      MarkerSplit(e1.integer, AfterPoint(e1), e2.integer, AfterPoint(e2), '.');
      CycleShown(e1);
      CycleShown(e2);
      if e1.Repeating? {
        var x1, x2 := e1.cycle + ")", e2.cycle + ")";
        assert AfterPoint(e1) == e1.prefix + ['('] + x1;
        assert AfterPoint(e2) == e2.prefix + ['('] + x2;
        MarkerSplit(e1.prefix, x1, e2.prefix, x2, '(');
        assert e1.cycle == x1[..|x1| - 1] && e2.cycle == x2[..|x2| - 1];
      }
    }
  }

  /** 1/3 is written "0.(3)". */
  lemma OneThird()
    ensures Expands(Repeating(false, "0", "", "3"), 1, 3)
    ensures Render(Repeating(false, "0", "", "3")) == "0.(3)"
  {
    assert Remainders(1, 3, 1) == [1, 1];
    assert DigitAfter(1, 3) == '3';
    assert FractionDigitsOf(1, 3, 1) == "3";
  }

  /** 7/4 is written "1.75": the remainders 3, 2, 0 end the division. */
  lemma SevenQuarters()
    ensures Expands(Terminating(false, "1", "75"), 7, 4)
    ensures Render(Terminating(false, "1", "75")) == "1.75"
  {
    assert Remainders(3, 4, 1) == [3, 2];
    assert Remainders(3, 4, 2) == [3, 2, 0];
    assert DigitAfter(3, 4) == '7' && DigitAfter(2, 4) == '5';
    assert FractionDigitsOf(3, 4, 1) == "7";
    assert FractionDigitsOf(3, 4, 2) == "75";
  }

  lemma RenderExamples()
    ensures Render(Terminating(true, "2", "5")) == "-2.5"
    ensures Render(Whole(true, "4")) == "-4"
  {
  }

  /** 1/6 is written "0.1(6)": the cycle starts where remainder 4 was first met. */
  lemma OneSixth()
    ensures Expands(Repeating(false, "0", "1", "6"), 1, 6)
    ensures Render(Repeating(false, "0", "1", "6")) == "0.1(6)"
  {
    assert Remainders(1, 6, 1) == [1, 4];
    assert Remainders(1, 6, 2) == [1, 4, 4];
    assert DigitAfter(1, 6) == '1' && DigitAfter(4, 6) == '6';
    assert FractionDigitsOf(1, 6, 1) == "1";
    assert FractionDigitsOf(1, 6, 2) == "16";
  }

  /** Pairwise different nonzero remainders below d number at most d - 1: the
      loop stops within d - 1 digits. */
  lemma {:induction false} Pigeonhole(r0: nat, d: nat, n: nat, rs: seq<nat>)
    requires r0 < d && rs == Remainders(r0, d, n) && DistinctNonzero(rs)
    ensures |rs| < d
  {
    assert Elements(rs) <= NonzeroBelow(d);
    ElementsSize(rs);
    SubsetSize(Elements(rs), NonzeroBelow(d));
  }

  function Elements(rs: seq<nat>): set<nat>
  {
    set j | 0 <= j < |rs| :: rs[j]
  }

  lemma {:induction false} ElementsSize(rs: seq<nat>)
    requires forall i, j | 0 <= i < j < |rs| :: rs[i] != rs[j]
    ensures |Elements(rs)| == |rs|
  {
    if |rs| > 0 {
      var front := rs[..|rs| - 1];
      ElementsSize(front);
      assert Elements(rs) == Elements(front) + {rs[|rs| - 1]};
    }
  }

  /** The possible nonzero remainders 1 .. d - 1. */
  function NonzeroBelow(d: nat): (r: set<nat>)
    ensures forall x: nat :: x in r <==> 1 <= x < d
    ensures |r| == if d == 0 then 0 else d - 1
  {
    if d <= 1 then {} else NonzeroBelow(d - 1) + {d - 1}
  }

  lemma {:induction false} SubsetSize(a: set<nat>, b: set<nat>)
    requires a <= b
    ensures |a| <= |b|
  {
    assert b == a + (b - a);
    assert a * (b - a) == {};
  }
}
