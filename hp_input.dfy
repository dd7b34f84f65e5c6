/** validateInput of the decimal fraction calculator (exe/High_Precision.cpp):
    the text must have the shape -?\d*\.?\d+ and at most 100 integer and 60
    fractional digits. The regular-expression engine is replaced by the
    grammar of that one pattern. */
module HighPrecisionInput {
  import opened Digits
  import opened HighPrecisionFraction

  /** The text the pattern -?\d*\.?\d+ spells with the given choices. */
  function Spelled(minus: bool, a: string, dot: bool, b: string): string
  {
    (if minus then "-" else "") + a + (if dot then "." else "") + b
  }

  /** Whole-string match of -?\d*\.?\d+: some choice of the optional parts
      spells the text, with b holding at least one digit. */
  ghost predicate MatchesPattern(s: string)
  {
    exists minus: bool, a: string, dot: bool, b: string ::
      s == Spelled(minus, a, dot, b) && IsDigits(a) && IsDigits(b) && |b| > 0
  }

  /** A left-to-right reading of the same pattern: after an optional '-',
      digits up to the first '.', and then digits that are not empty. */
  function LooksDecimal(s: string): (r: bool)
  {
    var u := Unsigned(s);
    var k := FirstDot(u);
    if k == |u| then |u| > 0 && IsDigits(u)
    else IsDigits(u[..k]) && k + 1 < |u| && IsDigits(u[k + 1..])
  }

  /** validateInput(): the pattern, then the length limits of both parts; an
      empty integer part counts as "0". */
  function ValidateInput(s: string): (r: bool)
    ensures r ==> DecimalText(s) && |IntPart(s)| <= 100 && |FracPart(s)| <= 60
  {
    if !LooksDecimal(s) then false
    else
      var intPart := if |IntPart(s)| == 0 then "0" else IntPart(s);
      if |intPart| > 100 then false
      else if |FracPart(s)| > 60 then false
      else true
  }

  /** The scan and the pattern accept the same strings. */
  lemma {:induction false} LooksDecimalIsPattern(s: string)
    ensures LooksDecimal(s) <==> MatchesPattern(s)
  {
    if LooksDecimal(s) {
      ScanSpells(s);
    }
    if MatchesPattern(s) {
      var minus: bool, a: string, dot: bool, b: string :|
        s == Spelled(minus, a, dot, b) && IsDigits(a) && IsDigits(b) && |b| > 0;
      SpelledScan(minus, a, dot, b);
    }
  }

  /** What the scan accepts is spelled by the pattern: the sign, the digits
      before the first '.', the '.', and the digits after it. */
  lemma {:induction false} ScanSpells(s: string)
    requires LooksDecimal(s)
    ensures MatchesPattern(s)
  {
    var u := Unsigned(s);
    var k := FirstDot(u);
    var minus := |s| > 0 && s[0] == '-';
    assert s == (if minus then "-" else "") + u by {
      if minus {
        assert s == [s[0]] + s[1..];
      }
    }
    if k == |u| {
      assert |u| > 0 && IsDigits(u);
      SpelledWithoutDot(s, minus, u);
    } else {
      assert IsDigits(u[..k]) && k + 1 < |u| && IsDigits(u[k + 1..]);
      SpelledWithDot(s, minus, u, k);
    }
  }

  /** A sign and digits match the pattern with an empty integer part. */
  lemma {:induction false} SpelledWithoutDot(s: string, minus: bool, u: string)
    requires s == (if minus then "-" else "") + u && |u| > 0 && IsDigits(u)
    ensures MatchesPattern(s)
  {
    assert s == Spelled(minus, "", false, u) by {
      var sign := if minus then "-" else "";
      assert sign + "" + "" + u == sign + u;
    }
    PatternWitness(s, minus, "", false, u);
  }

  /** A sign, digits, '.' and digits match the pattern with both parts. */
  lemma {:induction false} SpelledWithDot(s: string, minus: bool, u: string, k: nat)
    requires s == (if minus then "-" else "") + u && k + 1 < |u| && u[k] == '.'
    requires IsDigits(u[..k]) && IsDigits(u[k + 1..])
    ensures MatchesPattern(s)
  {
    var sign := if minus then "-" else "";
    var a, b := u[..k], u[k + 1..];
    assert s == Spelled(minus, a, true, b) by {
      SplitAtDot(u, k);
      assert sign + (a + "." + b) == sign + a + "." + b;
    }
    PatternWitness(s, minus, a, true, b);
  }

  lemma {:induction false} PatternWitness(s: string, minus: bool, a: string, dot: bool, b: string)
    requires s == Spelled(minus, a, dot, b) && IsDigits(a) && IsDigits(b) && |b| > 0
    ensures MatchesPattern(s)
  {
  }

  /** A text cut around the '.' at k. */
  lemma {:induction false} SplitAtDot(u: string, k: nat)
    requires k < |u| && u[k] == '.'
    ensures u == u[..k] + "." + u[k + 1..]
  {
    assert u == u[..k] + u[k..];
    assert u[k..] == "." + u[k + 1..];
  }

  /** Reading a spelled text back finds its parts again. */
  lemma {:induction false} SpelledScan(minus: bool, a: string, dot: bool, b: string)
    requires IsDigits(a) && IsDigits(b) && |b| > 0
    ensures LooksDecimal(Spelled(minus, a, dot, b))
  {
    var s := Spelled(minus, a, dot, b);
    var u := a + (if dot then "." else "") + b;
    assert Unsigned(s) == u by {
      if minus {
        assert s == "-" + u;
      } else {
        assert s == u;
        assert IsDigit(u[0]) || u[0] == '.';
      }
    }
    if dot {
      FirstDotAfterDigits(a, "." + b);
      assert u == a + ("." + b);
      assert u[..|a|] == a && u[|a| + 1..] == b;
    } else {
      assert IsDigits(u) by {
        forall i | 0 <= i < |u|
          ensures IsDigit(u[i])
        {
          if i >= |a| {
            assert u[i] == b[i - |a|];
          }
        }
      }
      NoDotInDigits(u);
    }
  }

  lemma {:induction false} FirstDotAfterDigits(a: string, t: string)
    requires IsDigits(a) && |t| > 0 && t[0] == '.'
    ensures FirstDot(a + t) == |a|
  {
    if |a| > 0 {
      assert (a + t)[1..] == a[1..] + t;
      FirstDotAfterDigits(a[1..], t);
    }
  }

  lemma {:induction false} NoDotInDigits(u: string)
    requires IsDigits(u)
    ensures FirstDot(u) == |u|
  {
    if |u| > 0 {
      NoDotInDigits(u[1..]);
    }
  }

  /** validateInput() accepts exactly the pattern with the two length limits. */
  lemma ValidateInputExact(s: string)
    ensures ValidateInput(s) <==> MatchesPattern(s) && |IntPart(s)| <= 100 && |FracPart(s)| <= 60
  {
    LooksDecimalIsPattern(s);
  }

  /** Every accepted text can be handed to the Fraction string constructor and
      has at least one digit. */
  lemma {:induction false} AcceptedIsDecimalText(s: string)
    requires ValidateInput(s)
    ensures DecimalText(s) && |IntPart(s)| + |FracPart(s)| > 0
  {
  }
}
