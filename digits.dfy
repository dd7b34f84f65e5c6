/** Decimal digit strings and digit vectors: the representation shared by every
    big-integer engine of the repository, and the number each one denotes.

    A digit string is most-significant digit first. Its value is read from the
    right, as every carry loop in the engines consumes it. */
module Digits {

  predicate IsDigit(c: char) { '0' <= c <= '9' }

  function DigitVal(c: char): (d: nat)
    requires IsDigit(c)
    ensures d < 10
  {
    c as int - '0' as int
  }

  function DigitChar(d: int): (c: char)
    requires 0 <= d < 10
    ensures IsDigit(c) && DigitVal(c) == d
  {
    ('0' as int + d) as char
  }

  predicate IsDigits(s: string)
  {
    forall i | 0 <= i < |s| :: IsDigit(s[i])
  }

  function Pow10(k: nat): (p: nat)
    ensures p >= 1
  {
    if k == 0 then 1 else 10 * Pow10(k - 1)
  }

  /** The number a digit string denotes; the empty string denotes 0. */
  function Value(s: string): nat
    requires IsDigits(s)
  {
    if |s| == 0 then 0 else 10 * Value(s[..|s| - 1]) + DigitVal(s[|s| - 1])
  }

  /** The engines' invariant: never empty, and no leading zero unless the value is 0. */
  predicate IsNormal(s: string)
  {
    IsDigits(s) && |s| >= 1 && (|s| > 1 ==> s[0] != '0')
  }

  /** string::find('.'): the first '.' or the length when there is none. */
  function FirstDot(s: string): (k: nat)
    ensures k <= |s| && (k < |s| ==> s[k] == '.')
    ensures forall i | 0 <= i < k :: s[i] != '.'
  {
    if |s| == 0 then 0
    else if s[0] == '.' then 0
    else 1 + FirstDot(s[1..])
  }

  /** The text after an optional leading '-'. */
  function Unsigned(s: string): string
  {
    if |s| > 0 && s[0] == '-' then s[1..] else s
  }

  function TextSign(s: string): int
  {
    if |s| > 0 && s[0] == '-' then -1 else 1
  }

  function IntPart(s: string): string
  {
    var u := Unsigned(s);
    u[..FirstDot(u)]
  }

  function FracPart(s: string): string
  {
    var u := Unsigned(s);
    var k := FirstDot(u);
    if k < |u| then u[k + 1..] else ""
  }

  /** A cut of u at a '.' with no '.' before it is the cut at its first '.':
      the parts are IntPart and FracPart of the unsigned text. */
  lemma {:induction false} FirstDotSplit(u: string, i: string, f: string)
    requires '.' !in i
    requires '.' !in u ==> i == u && f == ""
    requires '.' in u ==> u == i + "." + f
    ensures i == u[..FirstDot(u)]
    ensures f == if FirstDot(u) < |u| then u[FirstDot(u) + 1..] else ""
  {
    var k := FirstDot(u);
    if '.' in u {
      assert u[|i|] == '.';
      assert forall j | 0 <= j < |i| :: u[j] == i[j];
      assert k == |i|;
      assert u[..k] == i && u[k + 1..] == f;
    } else {
      assert k == |u|;
    }
  }

  /** Digits around at most one '.', after an optional '-'. */
  predicate DecimalText(s: string)
  {
    IsDigits(IntPart(s)) && IsDigits(FracPart(s))
  }

  function Zeros(n: nat): (z: string)
    ensures |z| == n && IsDigits(z)
    ensures forall i | 0 <= i < n :: z[i] == '0'
  {
    seq(n, _ => '0')
  }

  /** The normal digit string of a number (C++ to_string on a non-negative value). */
  function Canon(n: nat): (s: string)
    ensures IsNormal(s) && Value(s) == n
  {
    if n < 10 then [DigitChar(n)]
    else
      var s := Canon(n / 10) + [DigitChar(n % 10)];
      assert s[..|s| - 1] == Canon(n / 10);
      s
  }

  /** Strips leading '0' characters; a string of zeros (or the empty string)
      becomes "0" (C++ find_first_not_of('0') followed by substr). */
  function StripZeros(s: string): (r: string)
    ensures r == "0" || (|r| > 0 && r[0] != '0')
    ensures r != "0" ==> |r| <= |s| && s == Zeros(|s| - |r|) + r
    ensures (forall i | 0 <= i < |s| :: s[i] == '0') ==> r == "0"
  {
    if |s| == 0 then "0"
    else if s[0] == '0' then
      var r := StripZeros(s[1..]);
      assert r != "0" ==> s == Zeros(|s| - |r|) + r by {
        if r != "0" {
          ZerosCons(s, r);
        }
      }
      r
    else s
  }

  /** One more leading '0' in front of zeros and a rest. */
  lemma {:induction false} ZerosCons(s: string, r: string)
    requires |s| > 0 && s[0] == '0' && |r| <= |s| - 1 && s[1..] == Zeros(|s| - 1 - |r|) + r
    ensures s == Zeros(|s| - |r|) + r
  {
    assert s == [s[0]] + s[1..];
    assert [s[0]] + Zeros(|s| - 1 - |r|) == Zeros(|s| - |r|);
  }

  // ---------------------------------------------------------------------
  // Arithmetic steps kept out of the larger proofs

  lemma {:induction false} ShiftDigit(a: int, p: int, b: int, d: int)
    ensures 10 * (a * p + b) + d == a * (10 * p) + (10 * b + d)
  {
  }

  lemma {:induction false} MulLess(a: int, b: int, p: int)
    requires a < b && p >= 0
    ensures a * p + p <= b * p
  {
    var k := b - a - 1;
    assert k * p >= 0;
    assert b * p == a * p + p + k * p;
  }

  /** A smaller leading digit decides the comparison whatever follows it. */
  lemma {:induction false} LeadingDigitDecides(x: int, y: int, xr: int, yr: int, p: int)
    requires x < y && 0 <= xr < p && 0 <= yr
    ensures x * p + xr < y * p + yr
  {
    MulLess(x, y, p);
  }

  lemma {:induction false} MulSub(v: int, d: int, w: int)
    ensures v * w - d * w == (v - d) * w
  {
  }

  // ---------------------------------------------------------------------
  // Powers of ten

  lemma {:induction false} Pow10Add(i: nat, j: nat)
    ensures Pow10(i + j) == Pow10(i) * Pow10(j)
  {
    if j > 0 {
      Pow10Add(i, j - 1);
      assert Pow10(i + j) == 10 * Pow10(i + j - 1);
    }
  }

  lemma {:induction false} Pow10Mono(i: nat, j: nat)
    requires i <= j
    ensures Pow10(i) <= Pow10(j)
  {
    if i < j {
      Pow10Mono(i, j - 1);
    }
  }

  // ---------------------------------------------------------------------
  // Values of digit strings

  lemma {:induction false} ValueAppendDigit(s: string, c: char)
    requires IsDigits(s) && IsDigit(c)
    ensures IsDigits(s + [c])
    ensures Value(s + [c]) == 10 * Value(s) + DigitVal(c)
  {
    assert (s + [c])[..|s|] == s;
  }

  lemma {:induction false} ValuePrefixStep(s: string, k: nat)
    requires IsDigits(s) && k < |s|
    ensures Value(s[..k + 1]) == 10 * Value(s[..k]) + DigitVal(s[k])
  {
    assert s[..k + 1] == s[..k] + [s[k]];
    ValueAppendDigit(s[..k], s[k]);
  }

  lemma {:induction false} ValueConcat(s: string, t: string)
    requires IsDigits(s) && IsDigits(t)
    ensures IsDigits(s + t)
    ensures Value(s + t) == Value(s) * Pow10(|t|) + Value(t)
  {
    if |t| == 0 {
      assert s + t == s;
    } else {
      var t' := t[..|t| - 1];
      var c := t[|t| - 1];
      assert s + t == (s + t') + [c];
      assert t == t' + [c];
      ValueConcat(s, t');
      ValueAppendDigit(s + t', c);
      ValueAppendDigit(t', c);
      ShiftDigit(Value(s), Pow10(|t'|), Value(t'), DigitVal(c));
    }
  }

  lemma {:induction false} ValueCons(c: char, t: string)
    requires IsDigit(c) && IsDigits(t)
    ensures IsDigits([c] + t)
    ensures Value([c] + t) == DigitVal(c) * Pow10(|t|) + Value(t)
  {
    assert [c][..0] == [];
    ValueConcat([c], t);
  }

  /** The step every right-to-left carry loop takes at index i. */
  lemma {:induction false} ValueSuffixStep(s: string, i: nat)
    requires IsDigits(s) && i < |s|
    ensures Value(s[i..]) == DigitVal(s[i]) * Pow10(|s| - i - 1) + Value(s[i + 1..])
  {
    assert s[i..] == [s[i]] + s[i + 1..];
    ValueCons(s[i], s[i + 1..]);
  }

  /** The value of the last k digits of s (all of s when k >= |s|): what a
      right-to-left loop has consumed after k columns. */
  function LowDigits(s: string, k: nat): nat
    requires IsDigits(s)
  {
    if k <= |s| then Value(s[|s| - k..]) else Value(s)
  }

  lemma {:induction false} LowDigitsStep(s: string, k: nat)
    requires IsDigits(s)
    ensures k < |s| ==> LowDigits(s, k + 1) == DigitVal(s[|s| - 1 - k]) * Pow10(k) + LowDigits(s, k)
    ensures k >= |s| ==> LowDigits(s, k + 1) == LowDigits(s, k)
  {
    if k < |s| {
      ValueSuffixStep(s, |s| - 1 - k);
    } else if k == |s| {
      assert s[0..] == s;
    }
  }

  lemma {:induction false} LowDigitsAll(s: string, k: nat)
    requires IsDigits(s) && k >= |s|
    ensures LowDigits(s, k) == Value(s)
  {
    assert s[0..] == s;
  }

  lemma {:induction false} ValueZeros(n: nat)
    ensures Value(Zeros(n)) == 0
  {
    if n > 0 {
      assert Zeros(n)[..n - 1] == Zeros(n - 1);
      ValueZeros(n - 1);
    }
  }

  lemma {:induction false} ValueLeadingZeros(n: nat, s: string)
    requires IsDigits(s)
    ensures IsDigits(Zeros(n) + s) && Value(Zeros(n) + s) == Value(s)
  {
    ValueConcat(Zeros(n), s);
    ValueZeros(n);
  }

  lemma {:induction false} ValueTrailingZeros(s: string, n: nat)
    requires IsDigits(s)
    ensures IsDigits(s + Zeros(n)) && Value(s + Zeros(n)) == Value(s) * Pow10(n)
  {
    ValueConcat(s, Zeros(n));
    ValueZeros(n);
  }

  lemma {:induction false} ValueBound(s: string)
    requires IsDigits(s)
    ensures Value(s) < Pow10(|s|)
  {
    if |s| > 0 {
      ValueBound(s[..|s| - 1]);
    }
  }

  lemma {:induction false} ValueLast(s: string)
    requires IsDigits(s) && |s| > 0
    ensures Value(s) % 10 == DigitVal(s[|s| - 1])
    ensures Value(s) / 10 == Value(s[..|s| - 1])
  {
  }

  /** A digit string whose first digit is not 0 is at least 10^(length-1). */
  lemma {:induction false} FrontLower(s: string)
    requires IsDigits(s) && |s| >= 1 && s[0] != '0'
    ensures Value(s) >= Pow10(|s| - 1)
  {
    assert s == [s[0]] + s[1..];
    ValueCons(s[0], s[1..]);
    MulLess(0, DigitVal(s[0]), Pow10(|s| - 1));
  }

  lemma {:induction false} FrontZero(s: string)
    requires IsDigits(s) && |s| >= 1 && s[0] == '0'
    ensures Value(s) == Value(s[1..]) && Value(s) < Pow10(|s| - 1)
  {
    assert s == [s[0]] + s[1..];
    ValueCons(s[0], s[1..]);
    ValueBound(s[1..]);
  }

  /** Normal form can be read off the value: it is exactly the bound 10^(n-1) <= v. */
  lemma {:induction false} NormalByBound(s: string)
    requires IsDigits(s) && |s| >= 1
    ensures IsNormal(s) <==> (|s| == 1 || Value(s) >= Pow10(|s| - 1))
  {
    if |s| > 1 {
      if s[0] == '0' { FrontZero(s); } else { FrontLower(s); }
    }
  }

  lemma {:induction false} CanonOfNormal(s: string)
    requires IsNormal(s)
    ensures Canon(Value(s)) == s
  {
    if |s| == 1 {
      assert s[..0] == [];
    } else {
      FrontLower(s);
      Pow10Mono(1, |s| - 1);
      var p := s[..|s| - 1];
      assert p[0] == s[0];
      CanonOfNormal(p);
      ValueLast(s);
      assert s == p + [s[|s| - 1]];
    }
  }

  /** Two normal strings are equal exactly when their values are. */
  lemma {:induction false} NormalUnique(s: string, t: string)
    requires IsNormal(s) && IsNormal(t)
    ensures s == t <==> Value(s) == Value(t)
  {
    if Value(s) == Value(t) {
      CanonOfNormal(s);
      CanonOfNormal(t);
    }
  }

  /** Leading zeros carry no value, and StripZeros yields the normal form. */
  lemma {:induction false} StripZerosValue(s: string)
    requires IsDigits(s)
    ensures IsNormal(StripZeros(s)) && Value(StripZeros(s)) == Value(s)
  {
    var r := StripZeros(s);
    if r == "0" {
      if exists i | 0 <= i < |s| :: s[i] != '0' {
        assert false by { StripZerosNotZero(s); }
      }
      assert s == Zeros(|s|);
      ValueZeros(|s|);
      assert Value(r) == 0 by { assert r[..0] == []; }
    } else {
      assert IsDigits(r) by {
        forall i | 0 <= i < |r| ensures IsDigit(r[i]) {
          assert r[i] == s[|s| - |r| + i];
        }
      }
      ValueLeadingZeros(|s| - |r|, r);
    }
  }

  lemma {:induction false} StripZerosNotZero(s: string)
    requires exists i | 0 <= i < |s| :: s[i] != '0'
    ensures StripZeros(s) != "0"
  {
    var i :| 0 <= i < |s| && s[i] != '0';
    if s[0] == '0' {
      assert s[1..][i - 1] == s[i];
      StripZerosNotZero(s[1..]);
    }
  }

  // ---------------------------------------------------------------------
  // Order: "length first, then lexicographic" is numeric order on normal strings

  /** std::string operator< : lexicographic, a proper prefix is smaller. */
  predicate LexLess(s: string, t: string)
  {
    if |s| == 0 then |t| > 0
    else if |t| == 0 then false
    else if s[0] != t[0] then s[0] < t[0]
    else LexLess(s[1..], t[1..])
  }

  lemma {:induction false} LexLessValue(s: string, t: string)
    requires IsDigits(s) && IsDigits(t) && |s| == |t|
    ensures LexLess(s, t) <==> Value(s) < Value(t)
  {
    if |s| > 0 {
      var p := Pow10(|s| - 1);
      ValueSuffixStep(s, 0);
      ValueSuffixStep(t, 0);
      assert s[0..] == s && t[0..] == t;
      ValueBound(s[1..]);
      ValueBound(t[1..]);
      var ds, dt := DigitVal(s[0]), DigitVal(t[0]);
      if s[0] != t[0] {
        if ds < dt {
          LeadingDigitDecides(ds, dt, Value(s[1..]), Value(t[1..]), p);
        } else {
          LeadingDigitDecides(dt, ds, Value(t[1..]), Value(s[1..]), p);
        }
      } else {
        LexLessValue(s[1..], t[1..]);
      }
    }
  }

  lemma {:induction false} LengthOrder(s: string, t: string)
    requires IsNormal(s) && IsNormal(t) && |s| < |t|
    ensures Value(s) < Value(t)
  {
    ValueBound(s);
    NormalByBound(t);
    Pow10Mono(|s|, |t| - 1);
  }

  /** The comparison every engine uses: by length, then lexicographically. */
  predicate LengthLexLess(s: string, t: string)
  {
    if |s| != |t| then |s| < |t| else LexLess(s, t)
  }

  lemma {:induction false} LengthLexLessValue(s: string, t: string)
    requires IsNormal(s) && IsNormal(t)
    ensures LengthLexLess(s, t) <==> Value(s) < Value(t)
  {
    if |s| < |t| {
      LengthOrder(s, t);
    } else if |t| < |s| {
      LengthOrder(t, s);
    } else {
      LexLessValue(s, t);
    }
  }

  // ---------------------------------------------------------------------
  // Digit vectors (vector<int>): the same positional value for any ints

  function SeqValue(ds: seq<int>): (v: int)
    ensures NonNegative(ds) ==> v >= 0
  {
    if |ds| == 0 then 0 else 10 * SeqValue(ds[..|ds| - 1]) + ds[|ds| - 1]
  }

  predicate AllDigits(ds: seq<int>)
  {
    forall i | 0 <= i < |ds| :: 0 <= ds[i] < 10
  }

  predicate NonNegative(ds: seq<int>)
  {
    forall i | 0 <= i < |ds| :: 0 <= ds[i]
  }

  /** The invariant of a vector<int> big integer: digits 0..9, never empty, no leading zero. */
  predicate IsNormalSeq(ds: seq<int>)
  {
    AllDigits(ds) && |ds| >= 1 && (|ds| > 1 ==> ds[0] != 0)
  }

  lemma {:induction false} SeqValueAppend(ds: seq<int>, d: int)
    ensures SeqValue(ds + [d]) == 10 * SeqValue(ds) + d
  {
    assert (ds + [d])[..|ds|] == ds;
  }

  lemma {:induction false} SeqValuePrefixStep(ds: seq<int>, k: nat)
    requires k < |ds|
    ensures SeqValue(ds[..k + 1]) == 10 * SeqValue(ds[..k]) + ds[k]
  {
    assert ds[..k + 1] == ds[..k] + [ds[k]];
    SeqValueAppend(ds[..k], ds[k]);
  }

  lemma {:induction false} SeqValueConcat(s: seq<int>, t: seq<int>)
    ensures SeqValue(s + t) == SeqValue(s) * Pow10(|t|) + SeqValue(t)
  {
    if |t| == 0 {
      assert s + t == s;
    } else {
      var t' := t[..|t| - 1];
      var d := t[|t| - 1];
      assert s + t == (s + t') + [d];
      assert t == t' + [d];
      SeqValueConcat(s, t');
      SeqValueAppend(s + t', d);
      SeqValueAppend(t', d);
      ShiftDigit(SeqValue(s), Pow10(|t'|), SeqValue(t'), d);
    }
  }

  lemma {:induction false} SeqValueCons(d: int, t: seq<int>)
    ensures SeqValue([d] + t) == d * Pow10(|t|) + SeqValue(t)
  {
    assert [d][..0] == [];
    SeqValueConcat([d], t);
  }

  lemma {:induction false} SeqValueSuffixStep(ds: seq<int>, i: nat)
    requires i < |ds|
    ensures SeqValue(ds[i..]) == ds[i] * Pow10(|ds| - i - 1) + SeqValue(ds[i + 1..])
  {
    assert ds[i..] == [ds[i]] + ds[i + 1..];
    SeqValueCons(ds[i], ds[i + 1..]);
  }

  /** Changing one position moves the value by the change times that position's weight. */
  lemma {:induction false} SeqValueUpdate(ds: seq<int>, p: nat, v: int)
    requires p < |ds|
    ensures SeqValue(ds[p := v]) == SeqValue(ds) + (v - ds[p]) * Pow10(|ds| - 1 - p)
  {
    var e := ds[p := v];
    var a, t := ds[..p], ds[p + 1..];
    assert ds == a + ([ds[p]] + t);
    assert e == a + ([v] + t);
    SeqValueConcat(a, [ds[p]] + t);
    SeqValueConcat(a, [v] + t);
    SeqValueCons(ds[p], t);
    SeqValueCons(v, t);
    assert |ds| - 1 - p == |t|;
    MulSub(v, ds[p], Pow10(|t|));
  }

  /** The value of the last k entries of a vector, read as the carry loops do. */
  function SeqLow(ds: seq<int>, k: nat): int
    requires k <= |ds|
  {
    SeqValue(ds[|ds| - k..])
  }

  lemma {:induction false} SeqLowStep(ds: seq<int>, k: nat)
    requires k < |ds|
    ensures SeqLow(ds, k + 1) == ds[|ds| - 1 - k] * Pow10(k) + SeqLow(ds, k)
  {
    SeqValueSuffixStep(ds, |ds| - 1 - k);
  }

  lemma {:induction false} SeqLowAll(ds: seq<int>)
    ensures SeqLow(ds, |ds|) == SeqValue(ds)
  {
    assert ds[0..] == ds;
  }

  lemma {:induction false} SeqValueNonNegative(ds: seq<int>)
    requires NonNegative(ds)
    ensures SeqValue(ds) >= 0
  {
    if |ds| > 0 {
      SeqValueNonNegative(ds[..|ds| - 1]);
    }
  }

  lemma {:induction false} SeqValueBound(ds: seq<int>)
    requires AllDigits(ds)
    ensures 0 <= SeqValue(ds) < Pow10(|ds|)
  {
    if |ds| > 0 {
      SeqValueBound(ds[..|ds| - 1]);
    }
  }

  /** With no negative entries, the leading entry alone is worth at most the whole. */
  lemma {:induction false} SeqValueFront(ds: seq<int>)
    requires NonNegative(ds) && |ds| >= 1
    ensures SeqValue(ds) >= ds[0] * Pow10(|ds| - 1)
  {
    SeqValueSuffixStep(ds, 0);
    assert ds[0..] == ds;
    SeqValueNonNegative(ds[1..]);
  }

  lemma {:induction false} SeqFrontLower(ds: seq<int>)
    requires AllDigits(ds) && |ds| >= 1 && ds[0] != 0
    ensures SeqValue(ds) >= Pow10(|ds| - 1)
  {
    SeqValueFront(ds);
  }

  lemma {:induction false} SeqFrontZero(ds: seq<int>)
    requires AllDigits(ds) && |ds| >= 1 && ds[0] == 0
    ensures SeqValue(ds) == SeqValue(ds[1..]) && SeqValue(ds) < Pow10(|ds| - 1)
  {
    SeqValueSuffixStep(ds, 0);
    assert ds[0..] == ds;
    SeqValueBound(ds[1..]);
  }

  lemma {:induction false} SeqNormalByBound(ds: seq<int>)
    requires AllDigits(ds) && |ds| >= 1
    ensures IsNormalSeq(ds) <==> (|ds| == 1 || SeqValue(ds) >= Pow10(|ds| - 1))
  {
    if |ds| > 1 {
      if ds[0] == 0 { SeqFrontZero(ds); } else { SeqFrontLower(ds); }
    }
  }

  /** Digits of a number, most significant first. */
  function CanonSeq(n: nat): (ds: seq<int>)
    ensures IsNormalSeq(ds) && SeqValue(ds) == n
  {
    if n < 10 then [n]
    else
      var ds := CanonSeq(n / 10) + [n % 10];
      assert ds[..|ds| - 1] == CanonSeq(n / 10);
      ds
  }

  lemma {:induction false} CanonSeqOfNormal(ds: seq<int>)
    requires IsNormalSeq(ds)
    ensures CanonSeq(SeqValue(ds)) == ds
  {
    if |ds| == 1 {
      assert ds[..0] == [];
    } else {
      var p, last := ds[..|ds| - 1], ds[|ds| - 1];
      var n := SeqValue(ds);
      assert n == 10 * SeqValue(p) + last;
      assert n >= 10 by {
        SeqFrontLower(ds);
        Pow10Mono(1, |ds| - 1);
      }
      assert n / 10 == SeqValue(p) && n % 10 == last by { DivTen(n, SeqValue(p), last); }
      assert IsNormalSeq(p) by { assert p[0] == ds[0]; }
      CanonSeqOfNormal(p);
      assert ds == p + [last];
    }
  }

  /** n = 10 * q + r with r a digit splits into n / 10 and n % 10. */
  lemma {:induction false} DivTen(n: int, q: int, r: int)
    requires n == 10 * q + r && 0 <= r < 10
    ensures n / 10 == q && n % 10 == r
  {
  }

  lemma {:induction false} SeqNormalUnique(s: seq<int>, t: seq<int>)
    requires IsNormalSeq(s) && IsNormalSeq(t)
    ensures s == t <==> SeqValue(s) == SeqValue(t)
  {
    if SeqValue(s) == SeqValue(t) {
      CanonSeqOfNormal(s);
      CanonSeqOfNormal(t);
    }
  }

  /** Lexicographic order on equal-length digit vectors. */
  predicate SeqLexLess(s: seq<int>, t: seq<int>)
  {
    if |s| == 0 || |t| == 0 then false
    else if s[0] != t[0] then s[0] < t[0]
    else SeqLexLess(s[1..], t[1..])
  }

  lemma {:induction false} SeqLexLessValue(s: seq<int>, t: seq<int>)
    requires AllDigits(s) && AllDigits(t) && |s| == |t|
    ensures SeqLexLess(s, t) <==> SeqValue(s) < SeqValue(t)
  {
    if |s| > 0 {
      var p := Pow10(|s| - 1);
      var a, b := s[1..], t[1..];
      SeqValueHead(s);
      SeqValueHead(t);
      if s[0] < t[0] {
        LeadingDigitDecides(s[0], t[0], SeqValue(a), SeqValue(b), p);
      } else if t[0] < s[0] {
        LeadingDigitDecides(t[0], s[0], SeqValue(b), SeqValue(a), p);
      } else {
        assert SeqLexLess(s, t) == SeqLexLess(a, b);
        SeqLexLessValue(a, b);
      }
    }
  }

  /** The leading digit of a vector weighs 10^(|ds| - 1); the rest is below that. */
  lemma {:induction false} SeqValueHead(ds: seq<int>)
    requires AllDigits(ds) && |ds| > 0
    ensures SeqValue(ds) == ds[0] * Pow10(|ds| - 1) + SeqValue(ds[1..])
    ensures 0 <= SeqValue(ds[1..]) < Pow10(|ds| - 1)
  {
    SeqValueSuffixStep(ds, 0);
    assert ds[0..] == ds;
    SeqValueBound(ds[1..]);
  }

  /** The comparison of a digit vector: by size, then digit by digit. */
  predicate SizeLexLess(s: seq<int>, t: seq<int>)
  {
    if |s| != |t| then |s| < |t| else SeqLexLess(s, t)
  }

  lemma {:induction false} SizeLexLessValue(s: seq<int>, t: seq<int>)
    requires IsNormalSeq(s) && IsNormalSeq(t)
    ensures SizeLexLess(s, t) <==> SeqValue(s) < SeqValue(t)
  {
    if |s| < |t| {
      SeqValueBound(s);
      SeqNormalByBound(t);
      Pow10Mono(|s|, |t| - 1);
    } else if |t| < |s| {
      SeqValueBound(t);
      SeqNormalByBound(s);
      Pow10Mono(|t|, |s| - 1);
    } else {
      SeqLexLessValue(s, t);
    }
  }

  // ---------------------------------------------------------------------
  // Steps shared by the carry, borrow and long-division loops

  /** Prepending digit d to s while carrying c out of the new top position. */
  lemma {:induction false} ValuePrepend(s: string, d: int, c: int)
    requires IsDigits(s) && 0 <= d < 10
    ensures IsDigits([DigitChar(d)] + s)
    ensures Value([DigitChar(d)] + s) + c * Pow10(|s| + 1) == (d + 10 * c) * Pow10(|s|) + Value(s)
  {
    var p := Pow10(|s|);
    assert Value([DigitChar(d)] + s) == d * p + Value(s) by { ValueCons(DigitChar(d), s); }
    assert Pow10(|s| + 1) == 10 * p;
    PrependArith(d, c, p);
  }

  lemma {:induction false} PrependArith(d: int, c: int, p: int)
    ensures d * p + c * (10 * p) == (d + 10 * c) * p
  {
    assert c * (10 * p) == (10 * c) * p;
  }

  /** A trial quotient q with q * b <= r < 10 * b is a single digit. */
  lemma {:induction false} QuotientDigit(q: int, b: int, r: int)
    requires b > 0 && q >= 0 && q * b <= r < 10 * b
    ensures q < 10
  {
    if q >= 10 {
      MulLess(9, q, b);
      assert false;
    }
  }

  lemma {:induction false} SeqValueZeroPrefix(ds: seq<int>, i: nat)
    requires i <= |ds| && forall k | 0 <= k < i :: ds[k] == 0
    ensures SeqValue(ds) == SeqValue(ds[i..])
  {
    if i > 0 {
      var t := ds[1..];
      ZeroHead(ds);
      forall k | 0 <= k < i - 1
        ensures t[k] == 0
      {
        assert t[k] == ds[k + 1];
      }
      SeqValueZeroPrefix(t, i - 1);
      assert t[i - 1..] == ds[i..];
    }
  }

  /** A leading zero adds nothing to the value. */
  lemma {:induction false} ZeroHead(ds: seq<int>)
    requires |ds| > 0 && ds[0] == 0
    ensures SeqValue(ds) == SeqValue(ds[1..])
  {
    assert ds == [0] + ds[1..];
    SeqValueCons(0, ds[1..]);
  }

  /** Below a run of zero entries, an entry whose weight bounds the whole value is a digit. */
  lemma {:induction false} SeqLeadingDigit(ds: seq<int>, i: nat)
    requires i < |ds| && NonNegative(ds)
    requires forall k | 0 <= k < i :: ds[k] == 0
    requires SeqValue(ds) < Pow10(|ds| - i)
    ensures ds[i] < 10
  {
    SeqValueZeroPrefix(ds, i);
    var t := ds[i..];
    assert NonNegative(t);
    SeqValueFront(t);
    var p := Pow10(|t| - 1);
    assert Pow10(|ds| - i) == 10 * p;
    if ds[i] >= 10 {
      MulLess(9, ds[i], p);
      assert false;
    }
  }

  /** One step of schoolbook multiplication: add prod at position p, keep the low
      digit there and pass the rest up to position p - 1. */
  lemma {:induction false} SeqCarryUpdate(ds: seq<int>, next: seq<int>, p: nat, prod: int)
    requires 1 <= p < |ds|
    requires var sum := prod + ds[p];
      next == ds[p := sum % 10][p - 1 := ds[p - 1] + sum / 10]
    ensures SeqValue(next) == SeqValue(ds) + prod * Pow10(|ds| - 1 - p)
  {
    var sum := prod + ds[p];
    var lo, hi := sum % 10, sum / 10;
    var e := ds[p := lo];
    SeqValueUpdate(ds, p, lo);
    assert e[p - 1] == ds[p - 1];
    SeqValueUpdate(e, p - 1, ds[p - 1] + hi);
    var w := Pow10(|ds| - 1 - p);
    assert Pow10(|ds| - 1 - (p - 1)) == 10 * w;
    CarryWeight(lo, hi, ds[p], w);
  }

  lemma {:induction false} CarryWeight(lo: int, hi: int, prev: int, w: int)
    ensures (lo - prev) * w + hi * (10 * w) == (lo + 10 * hi - prev) * w
  {
  }
}
