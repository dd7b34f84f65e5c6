/** The Miller-Rabin test and the random prime generator of exe/prime.cpp.
    The clock-seeded mt19937 generator is not modelled: the values it would
    return are parameters ("draws"), one sequence per generated candidate. */
module PrimeTest {
  import opened Digits
  import NT = NumberTheory
  import opened Outcomes
  import opened PrimeArith

  // ---------------------------------------------------------------------
  // Specification of the test

  /** m = d * 2^s with d odd: halve while even, counting the halvings. */
  function OddSplit(m: nat): (nat, nat)
    requires m > 0
    decreases m
  {
    if m % 2 == 0 then
      var p := OddSplit(m / 2);
      (p.0, p.1 + 1)
    else (m, 0)
  }

  function TwoPow(k: nat): (p: nat)
    ensures p >= 1
  {
    if k == 0 then 1 else 2 * TwoPow(k - 1)
  }

  /** x squared k times modulo n, as the witness loop computes it. */
  function Squared(x: nat, n: nat, k: nat): nat
    requires n > 0
  {
    if k == 0 then x else (Squared(x, n, k - 1) * Squared(x, n, k - 1)) % n
  }

  /** One of the squarings 1..k reaches n - 1. */
  predicate ReachesMinusOne(x: nat, n: nat, k: nat)
    requires n > 0
  {
    k > 0 && (Squared(x, n, k) == n - 1 || ReachesMinusOne(x, n, k - 1))
  }

  /** The check of base b as miller_rabin() performs it: x = b^d mod n is 1
      or n - 1, or one of s further squarings is n - 1. */
  predicate BasePasses(n: nat, b: nat, d: nat, s: nat)
    requires n >= 2
  {
    var x := NT.Pow(b, d) % n;
    x == 1 || x == n - 1 || ReachesMinusOne(x, n, s)
  }

  /** The textbook strong probable-prime condition, which looks at the
      squarings 1..s-1 only. */
  predicate StrongProbablePrime(n: nat, b: nat, d: nat, s: nat)
    requires n >= 2 && s > 0
  {
    var x := NT.Pow(b, d) % n;
    x == 1 || x == n - 1 || ReachesMinusOne(x, n, s - 1)
  }

  /** The fixed witness table. */
  const Witnesses: seq<nat> := [2, 3, 5, 7, 11, 13, 17, 19, 23, 29, 31, 37]

  /** What miller_rabin() answers for n. */
  predicate MillerRabinVerdict(n: nat)
  {
    if n == 2 || n == 3 then true
    else if n <= 1 || n % 2 == 0 then false
    else
      var p := OddSplit(n - 1);
      forall i :: 0 <= i < |Witnesses| && Witnesses[i] < n ==> BasePasses(n, Witnesses[i], p.0, p.1)
  }

  predicate IsPrime(n: nat)
  {
    n >= 2 && forall k :: 2 <= k < n ==> n % k != 0
  }

  /** The small primes of divisible_by_small_primes(). */
  const SmallPrimes: seq<nat> := [2, 3, 5, 7, 11, 13, 17, 19, 23, 29, 31, 37, 41, 43, 47]

  predicate HasSmallFactor(n: nat)
  {
    n % 2 == 0 || exists i :: 0 <= i < |SmallPrimes| && n % SmallPrimes[i] == 0
  }

  // ---------------------------------------------------------------------
  // Lemmas about the specification

  /** The halving loop finds n - 1 = d * 2^s with d odd. */
  lemma {:induction false} OddSplitFactors(m: nat)
    requires m > 0
    ensures OddSplit(m).0 % 2 == 1
    ensures OddSplit(m).0 * TwoPow(OddSplit(m).1) == m
  {
    if m % 2 == 0 {
      OddSplitFactors(m / 2);
      var p := OddSplit(m / 2);
      assert p.0 * (2 * TwoPow(p.1)) == 2 * (p.0 * TwoPow(p.1));
    }
  }

  /** Squaring k times is raising to the power 2^k. */
  lemma {:induction false} SquaredIsPower(x: nat, n: nat, k: nat)
    requires 0 <= x < n
    ensures Squared(x, n, k) == NT.Pow(x, TwoPow(k)) % n
  {
    if k == 0 {
      assert NT.Pow(x, 1) == x * NT.Pow(x, 0);
    } else {
      SquaredIsPower(x, n, k - 1);
      var e := TwoPow(k - 1);
      var p := NT.Pow(x, e);
      var q := Squared(x, n, k - 1);
      assert q == p % n;
      assert Squared(x, n, k) == (q * q) % n;
      NT.ModMulBoth(p, p, n);
      NT.PowAdd(x, e, e);
      assert TwoPow(k) == e + e;
    }
  }

  /** ReachesMinusOne is the bounded search it names. */
  lemma {:induction false} ReachesMinusOneExists(x: nat, n: nat, k: nat)
    requires n > 0
    ensures ReachesMinusOne(x, n, k) <==> exists r :: 1 <= r <= k && Squared(x, n, r) == n - 1
  {
    if k > 0 {
      ReachesMinusOneExists(x, n, k - 1);
      if Squared(x, n, k) == n - 1 {
        assert 1 <= k <= k && Squared(x, n, k) == n - 1;
      }
    }
  }

  lemma {:induction false} ReachesMonotone(x: nat, n: nat, r: nat, k: nat)
    requires n > 0 && r <= k && ReachesMinusOne(x, n, r)
    ensures ReachesMinusOne(x, n, k)
  {
    if r < k {
      ReachesMonotone(x, n, r, k - 1);
    }
  }

  /** The witness loop squares s times, one more than the textbook test; the
      extra square is b^(n-1) mod n, so a base passes as written exactly when
      it is a strong witness for primality or b^(n-1) = n - 1 (mod n). */
  lemma {:induction false} ExtraSquaring(n: nat, b: nat)
    requires n >= 3 && n % 2 == 1
    ensures OddSplit(n - 1).1 > 0
    ensures BasePasses(n, b, OddSplit(n - 1).0, OddSplit(n - 1).1) <==>
      StrongProbablePrime(n, b, OddSplit(n - 1).0, OddSplit(n - 1).1) || NT.Pow(b, n - 1) % n == n - 1
  {
    var d := OddSplit(n - 1).0;
    var s := OddSplit(n - 1).1;
    OddSplitFactors(n - 1);
    NT.PowNonNegative(b, d);
    var x := NT.Pow(b, d) % n;
    SquaredIsPower(x, n, s);
    NT.PowMod(NT.Pow(b, d), TwoPow(s), n);
    NT.PowMul(b, d, TwoPow(s));
    assert Squared(x, n, s) == NT.Pow(b, n - 1) % n;
  }

  /** The filter only rejects numbers above 47 that are composite. */
  lemma {:induction false} SmallFactorComposite(n: nat)
    requires n > 47 && HasSmallFactor(n)
    ensures !IsPrime(n)
  {
    if n % 2 == 0 {
      assert 2 <= 2 < n && n % 2 == 0;
    } else {
      var i :| 0 <= i < |SmallPrimes| && n % SmallPrimes[i] == 0;
      assert 2 <= SmallPrimes[i] < n;
    }
  }

  /** The primes of the one-digit branch all pass the test. */
  lemma SingleDigitPrimesPass()
    ensures forall i :: 0 <= i < |SingleDigitPrimes| ==> MillerRabinVerdict(Value(SingleDigitPrimes[i]))
  {
    assert Value("2") == 2 && Value("3") == 3 && Value("5") == 5 && Value("7") == 7;
    FivePasses();
    SevenPasses();
  }

  lemma FivePasses()
    ensures MillerRabinVerdict(5)
  {
    assert OddSplit(4) == (1, 2);
    assert NT.Pow(2, 1) == 2 && NT.Pow(3, 1) == 3;
    assert Squared(2, 5, 1) == 4 && Squared(3, 5, 1) == 4;
    forall i | 0 <= i < |Witnesses| && Witnesses[i] < 5
      ensures BasePasses(5, Witnesses[i], 1, 2)
    {
      assert i < 2;
    }
  }

  lemma SevenPasses()
    ensures MillerRabinVerdict(7)
  {
    assert OddSplit(6) == (3, 1);
    assert NT.Pow(2, 3) == 8 && NT.Pow(3, 3) == 27 && NT.Pow(5, 3) == 125;
    forall i | 0 <= i < |Witnesses| && Witnesses[i] < 7
      ensures BasePasses(7, Witnesses[i], 3, 1)
    {
      assert i < 3;
    }
  }

  // ---------------------------------------------------------------------
  // miller_rabin()

  /** miller_rabin(): true for 2 and 3, false for 0, 1 and even numbers;
      otherwise n - 1 = d * 2^s and every base of the table below n must pass. */
  method MillerRabin(n: string) returns (prime: bool)
    requires IsNormal(n)
    ensures prime == MillerRabinVerdict(Value(n))
  {
    ghost var N := Value(n);
    ZeroText();
    OneText();
    assert Canon(2) == "2" && Canon(3) == "3";
    NormalUnique(n, "2");
    NormalUnique(n, "3");
    NormalUnique(n, "0");
    NormalUnique(n, "1");
    if n == "2" || n == "3" {
      return true;
    }
    if n == "1" || n == "0" {
      return false;
    }
    ValueLast(n);
    ParityOfLast(N);
    if DigitVal(n[|n| - 1]) % 2 == 0 {
      return false;
    }
    var d, s := OddPart(n);
    prime := AllWitnessesPass(n, d, s);
  }

  /** The halving loop of miller_rabin(): n - 1 = d * 2^s with d odd. */
  method OddPart(n: string) returns (d: string, s: nat)
    requires IsNormal(n) && Value(n) >= 2
    ensures IsNormal(d) && Value(d) == OddSplit(Value(n) - 1).0 && s == OddSplit(Value(n) - 1).1
  {
    ghost var split := OddSplit(Value(n) - 1);
    OneText();
    d := Subtract(n, "1");
    s := 0;
    while DigitVal(d[|d| - 1]) % 2 == 0
      invariant IsNormal(d) && Value(d) > 0
      invariant OddSplit(Value(d)).0 == split.0 && OddSplit(Value(d)).1 + s == split.1
      decreases Value(d)
    {
      ValueLast(d);
      ParityOfLast(Value(d));
      d := DivideBy2(d);
      s := s + 1;
    }
    ValueLast(d);
    ParityOfLast(Value(d));
  }

  /** The witness loop of miller_rabin(): every table base below n passes. */
  method AllWitnessesPass(n: string, d: string, s: nat) returns (pass: bool)
    requires IsNormal(n) && IsNormal(d) && Value(n) >= 3
    ensures pass <==> forall i :: 0 <= i < |Witnesses| && Witnesses[i] < Value(n) ==> BasePasses(Value(n), Witnesses[i], Value(d), s)
  {
    for k := 0 to |Witnesses|
      invariant forall i :: 0 <= i < k && Witnesses[i] < Value(n) ==> BasePasses(Value(n), Witnesses[i], Value(d), s)
    {
      var baseText := Canon(Witnesses[k]);
      if Compare(baseText, n) >= 0 {
        continue;
      }
      var ok := WitnessCheck(n, baseText, d, s);
      if !ok {
        return false;
      }
    }
    return true;
  }

  /** The body of the witness loop for one base below n. */
  method WitnessCheck(n: string, baseText: string, d: string, s: nat) returns (pass: bool)
    requires IsNormal(n) && IsNormal(baseText) && IsNormal(d)
    requires Value(n) >= 3 && Value(baseText) < Value(n)
    ensures pass == BasePasses(Value(n), Value(baseText), Value(d), s)
  {
    ghost var N := Value(n);
    OneText();
    var x := PowerMod(baseText, d, n);
    ghost var X := Value(x);
    var nMinus1 := Subtract(n, "1");
    NormalUnique(x, "1");
    NormalUnique(x, nMinus1);
    if x == "1" || x == nMinus1 {
      return true;
    }
    var composite := true;
    var xTemp := x;
    for r := 0 to s
      invariant IsNormal(xTemp) && Value(xTemp) == Squared(X, N, r)
      invariant composite && !ReachesMinusOne(X, N, r)
    {
      xTemp := MultiplyMod(xTemp, xTemp, n);
      var target := Subtract(n, "1");
      NormalUnique(xTemp, target);
      if xTemp == target {
        ReachesMonotone(X, N, r + 1, s);
        composite := false;
        break;
      }
    }
    pass := !composite;
  }

  // ---------------------------------------------------------------------
  // divisible_by_small_primes()

  /** divisible_by_small_primes(): even (read off the last digit), or a
      multiple of a prime of the table (each tested with mod()). */
  method DivisibleBySmallPrimes(n: string) returns (divisible: bool)
    requires IsNormal(n)
    ensures divisible == HasSmallFactor(Value(n))
  {
    ValueLast(n);
    ParityOfLast(Value(n));
    if DigitVal(n[|n| - 1]) % 2 == 0 {
      return true;
    }
    for k := 0 to |SmallPrimes|
      invariant forall i :: 0 <= i < k ==> Value(n) % SmallPrimes[i] != 0
    {
      var m := Mod(n, SmallPrimes[k]);
      if m == 0 {
        return true;
      }
    }
    return false;
  }

  // ---------------------------------------------------------------------
  // Random candidates

  /** The digit generate_random_number() makes of the i-th draw: 1 + draw % 9
      first, draw % 10 afterwards. */
  function RolledDigit(draws: seq<nat>, i: nat): (c: char)
    requires i < |draws|
    ensures IsDigit(c) && (i == 0 ==> c != '0')
  {
    if i == 0 then DigitChar(1 + draws[0] % 9) else DigitChar(draws[i] % 10)
  }

  /** The number generate_random_number(digits) builds from its draws. */
  function RolledNumber(draws: seq<nat>, digits: nat): (s: string)
    requires 0 < digits <= |draws|
    ensures |s| == digits && IsNormal(s)
  {
    seq(digits, i requires 0 <= i < digits => RolledDigit(draws, i))
  }

  /** generate_random_number(): "0" for digits <= 0, otherwise a first digit
      1-9 and digits - 1 further digits 0-9. */
  method RandomNumber(digits: int, draws: seq<nat>) returns (num: string)
    requires digits <= 0 || digits <= |draws|
    ensures digits <= 0 ==> num == "0"
    ensures digits > 0 ==> |num| == digits && IsNormal(num) && Pow10(digits - 1) <= Value(num) < Pow10(digits)
    ensures digits > 0 ==> forall i :: 0 <= i < digits ==> num[i] == RolledDigit(draws, i)
  {
    if digits <= 0 {
      return "0";
    }
    num := [RolledDigit(draws, 0)];
    for i := 1 to digits
      invariant |num| == i && forall j :: 0 <= j < i ==> num[j] == RolledDigit(draws, j)
    {
      num := num + [RolledDigit(draws, i)];
    }
    FrontLower(num);
    ValueBound(num);
  }

  /** The odd-forcing step of generate_random_prime(): an even last digit is
      raised by one (the '1' for a last digit 9 is never taken, as 9 is odd). */
  function ForceOdd(c: string): (r: string)
    requires IsDigits(c) && |c| > 0
    ensures |r| == |c| && IsDigits(r) && r[..|c| - 1] == c[..|c| - 1]
    ensures DigitVal(r[|r| - 1]) % 2 == 1
  {
    var last := DigitVal(c[|c| - 1]);
    if last % 2 == 0 then
      c[..|c| - 1] + [if last == 9 then '1' else DigitChar(last + 1)]
    else c
  }

  /** The forced candidate keeps its length and leading digit, is odd, and
      differs from the drawn number by at most one. */
  lemma {:induction false} ForceOddShape(c: string)
    requires IsNormal(c) && |c| >= 2
    ensures IsNormal(ForceOdd(c)) && |ForceOdd(c)| == |c|
    ensures Value(ForceOdd(c)) % 2 == 1
    ensures Value(ForceOdd(c)) == Value(c) + (if Value(c) % 2 == 0 then 1 else 0)
  {
    var r := ForceOdd(c);
    assert r[0] == r[..|c| - 1][0];
    ValueLast(r);
    ValueLast(c);
    ParityOfLast(Value(r));
    ParityOfLast(Value(c));
  }

  // ---------------------------------------------------------------------
  // generate_random_prime()

  const SingleDigitPrimes: seq<string> := ["2", "3", "5", "7"]

  /** The known primes returned when every attempt failed, as written: 19
      digits for digits <= 20, otherwise 100 digits. */
  function Fallback(digits: int): (p: string)
    ensures IsNormal(p)
  {
    if digits <= 20 then "1000000000000000003"
    else seq(98, _ => '9') + "29"
  }

  /** Attempts k, k+1, ... of the candidate loop: the first forced candidate
      that passes the filter and the test, if any. */
  function Search(digits: nat, maxAttempts: int, draws: seq<seq<nat>>, k: nat): Option<string>
    requires digits >= 2 && |draws| >= maxAttempts
    requires forall i :: 0 <= i < |draws| ==> |draws[i]| >= digits
    decreases maxAttempts - k
  {
    if k >= maxAttempts then None
    else
      var c := ForceOdd(RolledNumber(draws[k], digits));
      if !HasSmallFactor(Value(c)) && MillerRabinVerdict(Value(c)) then Some(c)
      else Search(digits, maxAttempts, draws, k + 1)
  }

  /** Whatever the search returns has the requested length, is odd, has no
      small factor and passes the test. */
  lemma {:induction false} SearchFound(digits: nat, maxAttempts: int, draws: seq<seq<nat>>, k: nat)
    requires digits >= 2 && |draws| >= maxAttempts
    requires forall i :: 0 <= i < |draws| ==> |draws[i]| >= digits
    requires Search(digits, maxAttempts, draws, k).Some?
    ensures var p := Search(digits, maxAttempts, draws, k).value;
      |p| == digits && IsNormal(p) && Value(p) % 2 == 1 &&
      !HasSmallFactor(Value(p)) && MillerRabinVerdict(Value(p))
    decreases maxAttempts - k
  {
    var c := ForceOdd(RolledNumber(draws[k], digits));
    if !HasSmallFactor(Value(c)) && MillerRabinVerdict(Value(c)) {
      ForceOddShape(RolledNumber(draws[k], digits));
    } else {
      SearchFound(digits, maxAttempts, draws, k + 1);
    }
  }

  /** A drawn number with its last digit forced odd, as the candidate loop
      makes it. */
  method OddCandidate(digits: int, draw: seq<nat>) returns (candidate: string)
    requires 2 <= digits <= |draw|
    ensures candidate == ForceOdd(RolledNumber(draw, digits))
    ensures IsNormal(candidate) && |candidate| == digits
  {
    var drawn := RandomNumber(digits, draw);
    assert drawn == RolledNumber(draw, digits);
    candidate := ForceOddLast(drawn);
    ForceOddShape(drawn);
  }

  /** The last-digit fix of generate_random_prime(): an even last digit is
      raised by one. */
  method ForceOddLast(c: string) returns (r: string)
    requires IsDigits(c) && |c| > 0
    ensures r == ForceOdd(c)
  {
    r := c;
    var lastDigit := DigitVal(r[|r| - 1]);
    if lastDigit % 2 == 0 {
      r := r[..|r| - 1] + [if lastDigit == 9 then '1' else DigitChar(lastDigit + 1)];
    }
  }

  /** The candidate loop of generate_random_prime() for digits >= 2. */
  method SearchCandidates(digits: int, maxAttempts: int, draws: seq<seq<nat>>) returns (found: Option<string>)
    requires digits >= 2 && |draws| >= maxAttempts
    requires forall i :: 0 <= i < |draws| ==> |draws[i]| >= digits
    ensures found == Search(digits, maxAttempts, draws, 0)
  {
    var attempts := 0;
    while attempts < maxAttempts
      invariant 0 <= attempts
      invariant maxAttempts > 0 ==> attempts <= maxAttempts
      invariant Search(digits, maxAttempts, draws, 0) == Search(digits, maxAttempts, draws, attempts)
      decreases maxAttempts - attempts
    {
      var accepted := TryCandidate(digits, maxAttempts, draws, attempts);
      if accepted.Some? {
        return accepted;
      }
      attempts := attempts + 1;
    }
    return None;
  }

  /** One attempt of the candidate loop: the candidate drawn for attempt k,
      kept when it has no small factor and passes the test. */
  method TryCandidate(digits: int, maxAttempts: int, draws: seq<seq<nat>>, k: nat) returns (accepted: Option<string>)
    requires digits >= 2 && |draws| >= maxAttempts && k < maxAttempts
    requires forall i :: 0 <= i < |draws| ==> |draws[i]| >= digits
    ensures accepted.Some? ==> accepted == Search(digits, maxAttempts, draws, k)
    ensures accepted.None? ==> Search(digits, maxAttempts, draws, k) == Search(digits, maxAttempts, draws, k + 1)
  {
    var candidate := OddCandidate(digits, draws[k]);
    var divisible := DivisibleBySmallPrimes(candidate);
    if divisible {
      return None;
    }
    var prime := MillerRabin(candidate);
    if prime {
      return Some(candidate);
    }
    return None;
  }

  /** generate_random_prime() as written: "2" for digits <= 0, one of 2, 3,
      5, 7 for one digit, otherwise the first candidate that passes, and the
      fixed fallback when every attempt failed. */
  method GenerateRandomPrime(digits: int, maxAttempts: int, draws: seq<seq<nat>>) returns (p: string)
    requires digits == 1 ==> |draws| > 0 && |draws[0]| > 0
    requires digits >= 2 ==> |draws| >= maxAttempts && forall i :: 0 <= i < |draws| ==> |draws[i]| >= digits
    ensures digits <= 0 ==> p == "2"
    ensures digits == 1 ==> p == SingleDigitPrimes[draws[0][0] % 4]
    ensures digits >= 2 ==> p == match Search(digits, maxAttempts, draws, 0)
                                   case Some(c) => c
                                   case None => Fallback(digits)
  {
    if digits <= 0 {
      return "2";
    }
    if digits == 1 {
      return SingleDigitPrimes[draws[0][0] % 4];
    }
    var found := SearchCandidates(digits, maxAttempts, draws);
    match found
    case Some(c) => p := c;
    case None => p := Fallback(digits);
  }

  /** With two digits and every draw 0, each candidate is 10, forced to 11,
      which 11 divides: every attempt fails. */
  lemma {:induction false} ZeroDrawsExhaust(maxAttempts: int, draws: seq<seq<nat>>, k: nat)
    requires |draws| >= maxAttempts
    requires forall i :: 0 <= i < |draws| ==> draws[i] == [0, 0]
    ensures Search(2, maxAttempts, draws, k) == None
    decreases maxAttempts - k
  {
    if k < maxAttempts {
      var c := ForceOdd(RolledNumber(draws[k], 2));
      var rolled := RolledNumber(draws[k], 2);
      assert rolled[0] == '1' && rolled[1] == '0';
      assert rolled == "10";
      assert c == "11" == Canon(11);
      assert Value(c) % SmallPrimes[4] == 0;
      ZeroDrawsExhaust(maxAttempts, draws, k + 1);
    }
  }

  /** The as-written fallback breaks the promised length: a two-digit request
      whose hundred attempts all fail returns a 19-digit number. */
  lemma FallbackWrongLength()
    ensures var draws := seq(100, _ => [0, 0]);
      Search(2, 100, draws, 0) == None && |Fallback(2)| == 19
  {
    var draws: seq<seq<nat>> := seq(100, _ => [0, 0]);
    ZeroDrawsExhaust(100, draws, 0);
  }

  /** generate_random_prime() with the fallback replaced by an error: every
      number it returns for digits >= 1 has exactly that many digits and
      passes the test. */
  method GenerateRandomPrimeChecked(digits: int, maxAttempts: int, draws: seq<seq<nat>>) returns (r: Result<string>)
    requires digits == 1 ==> |draws| > 0 && |draws[0]| > 0
    requires digits >= 2 ==> |draws| >= maxAttempts && forall i :: 0 <= i < |draws| ==> |draws[i]| >= digits
    ensures digits <= 0 ==> r == Ok("2")
    ensures digits >= 2 ==> (r.Err? <==> Search(digits, maxAttempts, draws, 0).None?)
    ensures r.Err? ==> r.error == GenerationExhausted
    ensures r.Ok? ==> IsNormal(r.value) && MillerRabinVerdict(Value(r.value))
    ensures r.Ok? && digits >= 1 ==> |r.value| == digits
  {
    if digits <= 0 {
      assert Value("2") == 2;
      return Ok("2");
    }
    if digits == 1 {
      SingleDigitPrimesPass();
      return Ok(SingleDigitPrimes[draws[0][0] % 4]);
    }
    var found := SearchCandidates(digits, maxAttempts, draws);
    match found
    case Some(c) =>
      SearchFound(digits, maxAttempts, draws, 0);
      r := Ok(c);
    case None =>
      r := Err(GenerationExhausted);
  }
}
