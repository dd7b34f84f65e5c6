/** The lucky-number table of exe/untitled1.cpp. A number x in 1..1002001 is
    lucky for a threshold c when it is a positive multiple of some square i * i
    with c <= i * i and i <= 1001. The program marks every lucky number in the
    global array a[], fills b[x] with the least lucky number at or above x (or
    the sentinel 1002002 when there is none) by one backward scan, and answers
    each query x with "lucky" or b[x].

    The two global arrays and the threshold become a class; the arrays are
    zero-initialised, as C++ globals are. */
module LuckyNumbers {
  import NT = NumberTheory

  /** The largest index of a[] and b[]. */
  const Top := 1002001
  /** The length of a[] and b[], and the "no lucky number" sentinel. */
  const Size := 1002002
  /** The largest root the marking loop tries. */
  const MaxRoot := 1001

  /** x is marked by the root i: i * i reaches the threshold and x is a
      positive multiple of i * i within the table. */
  predicate MarkedBy(c: int, x: int, i: int)
  {
    1 <= i && c <= i * i && 1 <= x <= Top && x % (i * i) == 0
  }

  /** Some root 1..k marks x. */
  predicate MarkedUpTo(c: int, x: int, k: int)
    decreases k
  {
    k >= 1 && (MarkedUpTo(c, x, k - 1) || MarkedBy(c, x, k))
  }

  predicate IsLucky(c: int, x: int)
  {
    MarkedUpTo(c, x, MaxRoot)
  }

  /** The least lucky number at or above i, or Size when there is none. */
  function NextLucky(c: int, i: int): (r: int)
    requires 1 <= i <= Size
    ensures i <= r <= Size
    ensures r < Size ==> IsLucky(c, r)
    ensures forall y | i <= y < r :: !IsLucky(c, y)
    decreases Size - i
  {
    if i == Size then Size
    else if IsLucky(c, i) then i
    else NextLucky(c, i + 1)
  }

  /** What a query prints: "lucky", or a number. */
  datatype Reply = Lucky | Next(value: int)

  class LuckyTable {
    /** The threshold read first from the input. */
    const c: int
    /** a[x]: x is lucky. */
    const a: array<bool>
    /** b[x]: the next lucky number from x on. */
    const b: array<int>

    predicate Valid()
    {
      a.Length == Size && b.Length == Size
    }

    predicate Marked()
      requires Valid()
      reads a
    {
      forall x | 0 <= x < Size :: a[x] == IsLucky(c, x)
    }

    /** b[0] is never written and keeps its initial 0. */
    predicate Scanned()
      requires Valid()
      reads b
    {
      b[0] == 0 && forall x | 1 <= x < Size :: b[x] == NextLucky(c, x)
    }

    /** The globals before main() runs: both arrays all zero. A threshold
        below 1 is refused: for c = 0 the program's first root is 0 and its
        inner loop never ends. */
    constructor(c: int)
      requires c >= 1
      ensures this.c == c && Valid()
      ensures forall x | 0 <= x < Size :: !a[x] && b[x] == 0
      ensures fresh(a) && fresh(b)
    {
      this.c := c;
      a := new bool[Size](_ => false);
      b := new int[Size](_ => 0);
    }

    /** The marking loops: every root whose square reaches c marks its
        multiples. The program starts at the integer square root of c; every
        smaller root fails the guard i * i < c, so starting at 1 marks the same
        numbers. */
    method MarkLucky()
      requires Valid() && forall x | 0 <= x < Size :: !a[x]
      modifies a
      ensures Marked()
    {
      var i := 1;
      while i <= MaxRoot
        invariant 1 <= i <= MaxRoot + 1
        invariant forall x | 0 <= x < Size :: a[x] == MarkedUpTo(c, x, i - 1)
      {
        if i * i >= c {
          MarkMultiples(i);
        } else {
          assert forall x | 0 <= x < Size :: !MarkedBy(c, x, i);
        }
        i := i + 1;
      }
    }

    /** The inner loop: marks j * i * i for j = 1, 2, ... while it fits. */
    method MarkMultiples(i: int)
      requires Valid() && 1 <= i && c <= i * i
      modifies a
      ensures forall x | 0 <= x < Size :: a[x] == (old(a[x]) || MarkedBy(c, x, i))
    {
      var j := 1;
      while j * i * i <= Top
        invariant j >= 1
        invariant forall x | 0 <= x < Size :: a[x] == (old(a[x]) || MarkedBelow(c, x, i, j))
        decreases Top - (j - 1) * i * i
      {
        var m := j * i * i;
        a[m] := true;
        forall x | 0 <= x < Size
          ensures MarkedBelow(c, x, i, j + 1) == (MarkedBelow(c, x, i, j) || x == m)
        {
          MultipleStep(c, x, i, j);
        }
        j := j + 1;
      }
      forall x | 0 <= x < Size
        ensures MarkedBelow(c, x, i, j) == MarkedBy(c, x, i)
      {
      }
    }

    /** The backward scan: next holds the latest marked number seen. */
    method ScanNext()
      requires Valid() && Marked() && b[0] == 0
      modifies b
      ensures Scanned()
    {
      var next := Size;
      var i := Top;
      while i >= 1
        invariant 0 <= i <= Top
        invariant next == NextLucky(c, i + 1)
        invariant b[0] == 0
        invariant forall x | i < x < Size :: b[x] == NextLucky(c, x)
      {
        next := ScanStep(i, next);
        i := i - 1;
      }
    }

    /** One pass of the backward scan: a marked i becomes the latest lucky
        number seen, which is then stored in b[i]. */
    method ScanStep(i: int, next: int) returns (now: int)
      requires Valid() && Marked() && 1 <= i <= Top && next == NextLucky(c, i + 1)
      modifies b
      ensures now == NextLucky(c, i) && b[i] == now
      ensures forall x | 0 <= x < Size && x != i :: b[x] == old(b[x])
    {
      assert a[i] == IsLucky(c, i);
      now := next;
      if a[i] {
        now := i;
      }
      b[i] := now;
    }

    /** One query: "lucky" for a marked x, otherwise b[x]. */
    function Answer(x: int): (r: Reply)
      requires Valid() && Marked() && Scanned() && 0 <= x < Size
      reads a, b
      ensures r.Lucky? <==> IsLucky(c, x)
      ensures r.Next? && x >= 1 ==>
        && x < r.value <= Size && (r.value < Size ==> IsLucky(c, r.value))
        && forall y | x <= y < r.value :: !IsLucky(c, y)
      ensures r.Next? && x == 0 ==> r.value == 0
    {
      if a[x] then Lucky else Next(b[x])
    }

    /** The query loop, with the numbers read from the input given as xs. */
    method Answers(xs: seq<int>) returns (out: seq<Reply>)
      requires Valid() && Marked() && Scanned()
      requires forall k | 0 <= k < |xs| :: 0 <= xs[k] < Size
      ensures |out| == |xs|
      ensures forall k | 0 <= k < |xs| :: out[k] == Answer(xs[k])
    {
      out := [];
      var k := 0;
      while k < |xs|
        invariant 0 <= k <= |xs| && |out| == k
        invariant forall m | 0 <= m < k :: out[m] == Answer(xs[m])
      {
        var x := xs[k];
        var reply := if a[x] then Lucky else Next(b[x]);
        out := out + [reply];
        k := k + 1;
      }
    }
  }

  /** x is marked by i with a multiplier below j. */
  predicate MarkedBelow(c: int, x: int, i: int, j: int)
  {
    MarkedBy(c, x, i) && x < j * i * i
  }

  /** Marking j * i * i extends the marked multiples from below j to below
      j + 1. */
  lemma {:induction false} MultipleStep(c: int, x: int, i: int, j: int)
    requires 1 <= i && c <= i * i && j >= 1 && j * i * i <= Top && 0 <= x < Size
    ensures MarkedBelow(c, x, i, j + 1) == (MarkedBelow(c, x, i, j) || x == j * i * i)
  {
    var sq := i * i;
    var m := j * i * i;
    assert m == j * sq && (j + 1) * i * i == m + sq;
    assert sq >= 1 && m >= sq;
    NT.DivModUnique(m, sq, j, 0);
    if m <= x < m + sq && x % sq == 0 {
      NT.DivModUnique(x, sq, j, x - m);
    }
  }

  /** A lucky number is a multiple j * i * i for a root i with c <= i * i. */
  lemma {:induction false} LuckyRoot(c: int, x: int) returns (i: int, j: int)
    requires IsLucky(c, x)
    ensures 1 <= i <= MaxRoot && c <= i * i && j >= 1 && x == j * i * i && x <= Top
  {
    i := MaxRoot;
    while !MarkedBy(c, x, i)
      invariant 1 <= i <= MaxRoot && MarkedUpTo(c, x, i)
      decreases i
    {
      i := i - 1;
    }
    var sq := i * i;
    NT.DivParts(x, sq);
    j := x / sq;
    assert x == j * sq;
    if j < 1 {
      assert false;
    }
  }

  /** Conversely, every such multiple within the table is lucky. */
  lemma {:induction false} MultipleIsLucky(c: int, i: int, j: int)
    requires 1 <= i <= MaxRoot && c <= i * i && j >= 1 && j * i * i <= Top
    ensures IsLucky(c, j * i * i)
  {
    var sq := i * i;
    var m := j * i * i;
    assert m == j * sq && m >= 1;
    NT.DivModUnique(m, sq, j, 0);
    assert MarkedBy(c, m, i);
    var k := i;
    while k < MaxRoot
      invariant i <= k <= MaxRoot && MarkedUpTo(c, m, k)
    {
      k := k + 1;
    }
  }

  /** The table is non-decreasing. */
  lemma {:induction false} NextLuckyMonotone(c: int, i: int, k: int)
    requires 1 <= i <= k <= Size
    ensures NextLucky(c, i) <= NextLucky(c, k)
  {
  }

  /** The properties of b[] itself: b[x] >= x, b[x] == x for a lucky x, and b
      non-decreasing. */
  lemma {:induction false} TableOrder(t: LuckyTable, x: int, y: int)
    requires t.Valid() && t.Marked() && t.Scanned() && 1 <= x <= y < Size
    ensures x <= t.b[x] <= t.b[y]
    ensures t.a[x] ==> t.b[x] == x
  {
    NextLuckyMonotone(t.c, x, y);
  }
}
