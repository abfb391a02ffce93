/** The worker's computation: the perfect-number test with the square-root
    divisor-pair loop, and the scan of an inclusive interval with it. */
module WorkerUtils {
  import opened Common
  import opened Sorting

  /** The contribution of candidate d to a divisor sum. */
  function DivisorTerm(n: int, d: int): int
  {
    if d > 0 && n % d == 0 then d else 0
  }

  /** Sum of the positive divisors d of n with lo <= d < hi. */
  function DivisorSum(n: int, lo: int, hi: int): int
    decreases hi - lo
  {
    if hi <= lo then 0 else DivisorTerm(n, lo) + DivisorSum(n, lo + 1, hi)
  }

  /** Sum of the divisors of n strictly smaller than n. */
  function ProperDivisorSum(n: int): int
  {
    DivisorSum(n, 1, n)
  }

  /** A positive number equal to the sum of its proper divisors. */
  predicate Perfect(n: int)
  {
    n >= 1 && ProperDivisorSum(n) == n
  }

  /** The contribution of divisor e as the partner of some d < i:
      e divides n and its co-divisor n / e is below i (e * i > n). */
  function CofactorTerm(n: int, i: int, e: int): int
  {
    if e > 0 && n % e == 0 && e * i > n then e else 0
  }

  /** Sum of the partners e of n with lo <= e < hi whose co-divisor is below
      i: the large divisors the loop has added once it has visited every
      d < i. */
  function CofactorSum(n: int, i: int, lo: int, hi: int): int
    decreases hi - lo
  {
    if hi <= lo then 0 else CofactorTerm(n, i, lo) + CofactorSum(n, i, lo + 1, hi)
  }

  // ---------------------------------------------------------------------
  // Arithmetic facts the divisor-pair argument needs.

  lemma MulStrictMono(e: int, a: int, b: int)
    requires e > 0 && a < b
    ensures e * a < e * b
  {
    assert e * b - e * a == e * (b - a);
  }

  lemma DivOfProduct(q: int, d: int)
    requires d > 0
    ensures (q * d) / d == q && (q * d) % d == 0
  {
    var n := q * d;
    var k, r := n / d, n % d;
    assert n == d * k + r && 0 <= r < d;
    assert d * (q - k) == r;
    if q - k >= 1 {
      MulAtLeast(d, q - k);
    } else if q - k <= -1 {
      MulStrictMono(d, q - k, 0);
    }
  }

  /** A divisor e of n with e * i <= n < e * (i + 1) is n / i, and i divides n. */
  lemma CofactorIsUnique(n: int, i: int, e: int)
    requires n > 0 && i > 0 && e > 0 && n % e == 0
    requires e * i <= n < e * (i + 1)
    ensures n % i == 0 && n / i == e
  {
    var q := n / e;
    assert n == e * q;
    if q < i {
      MulStrictMono(e, q, i);
    } else if q > i {
      MulStrictMono(e, i, q);
      if q > i + 1 { MulStrictMono(e, i + 1, q); }
    }
    assert q == i;
    DivOfProduct(e, i);
    assert e * i == i * e;
  }

  /** Every proper divisor e of n satisfies 2 * e <= n. */
  lemma ProperDivisorAtMostHalf(n: int, e: int)
    requires n > 0 && 0 < e < n && n % e == 0
    ensures e * 2 <= n
  {
    var q := n / e;
    assert n == e * q;
    if q <= 0 {
      MulStrictMono(e, q, 1);
    } else if q > 2 {
      MulStrictMono(e, 2, q);
    }
  }

  /** Raising the threshold from i to i + 1 admits n / i as a partner when i
      divides n, and nothing else. */
  lemma CofactorTermShift(n: int, i: int, e: int)
    requires n > 0 && i > 0 && e >= 1
    ensures CofactorTerm(n, i + 1, e)
         == CofactorTerm(n, i, e) + (if n % i == 0 && e == n / i then e else 0)
  {
    var below := e * i;
    assert e * (i + 1) == below + e;
    var newPartner := n % i == 0 && e == n / i;
    if newPartner {
      assert n == i * e;
      DivOfProduct(i, e);
      assert below == n;
    } else if n % e == 0 && below <= n && n < below + e {
      CofactorIsUnique(n, i, e);
    }
  }

  // ---------------------------------------------------------------------
  // Interval lemmas.

  lemma {:induction false} DivisorSumSplit(n: int, lo: int, mid: int, hi: int)
    requires lo <= mid <= hi
    ensures DivisorSum(n, lo, hi) == DivisorSum(n, lo, mid) + DivisorSum(n, mid, hi)
    decreases mid - lo
  {
    if lo < mid {
      DivisorSumSplit(n, lo + 1, mid, hi);
    }
  }

  /** Raising the threshold over an interval adds n / i once, when i divides
      n and n / i lies in the interval. */
  lemma {:induction false} CofactorShift(n: int, i: int, lo: int, hi: int)
    requires n > 0 && i > 0 && lo >= 1
    ensures CofactorSum(n, i + 1, lo, hi)
         == CofactorSum(n, i, lo, hi) + (if n % i == 0 && lo <= n / i < hi then n / i else 0)
    decreases hi - lo
  {
    if lo < hi {
      CofactorShift(n, i, lo + 1, hi);
      CofactorTermShift(n, i, lo);
    }
  }

  /** Above the square root every divisor counts as a partner. */
  lemma {:induction false} CofactorAboveRoot(n: int, i: int, lo: int, hi: int)
    requires i >= 1 && lo >= 1 && lo * i > n
    ensures CofactorSum(n, i, lo, hi) == DivisorSum(n, lo, hi)
    decreases hi - lo
  {
    if lo < hi {
      assert (lo + 1) * i == lo * i + i;
      CofactorAboveRoot(n, i, lo + 1, hi);
    }
  }

  /** Before the loop has visited any d >= 2 no partner has been added. */
  lemma {:induction false} CofactorNoneYet(n: int, lo: int, hi: int)
    requires n > 0 && lo >= 1 && hi <= n
    ensures CofactorSum(n, 2, lo, hi) == 0
    decreases hi - lo
  {
    if lo < hi {
      if n % lo == 0 {
        ProperDivisorAtMostHalf(n, lo);
      }
      CofactorNoneYet(n, lo + 1, hi);
    }
  }

  /** The partner n / i of a divisor i <= sqrt(n) is new (above i) exactly
      when i is not the root, and it is a proper divisor. */
  lemma PartnerPosition(n: int, i: int)
    requires 2 <= i && i * i <= n && n % i == 0
    ensures (i + 1 <= n / i < n) <==> i * i != n
  {
    var q := n / i;
    assert n == i * q;
    if q < i {
      MulStrictMono(i, q, i);
    } else if q > i {
      MulStrictMono(q, 1, i);
    }
  }

  /** One iteration of the square-root loop at divisor candidate i. */
  lemma PairStep(n: int, i: int)
    requires 2 <= i && i * i <= n
    ensures DivisorSum(n, 1, i + 1) + CofactorSum(n, i + 1, i + 1, n)
         == DivisorSum(n, 1, i) + CofactorSum(n, i, i, n)
            + (if n % i == 0 then i + (if i * i != n then n / i else 0) else 0)
  {
    MulStrictMono(i, 1, i);
    DivisorSumSplit(n, 1, i, i + 1);
    assert CofactorSum(n, i, i, n) == CofactorSum(n, i, i + 1, n);
    CofactorShift(n, i, i + 1, n);
    if n % i == 0 {
      PartnerPosition(n, i);
    }
  }

  /** No number below 6 is perfect. */
  lemma SmallNotPerfect(n: int)
    requires n < 6
    ensures !Perfect(n)
  {
    if n == 1 { assert DivisorSum(1, 1, 1) == 0; }
    else if n == 2 { assert DivisorSum(2, 1, 2) == 1; }
    else if n == 3 { assert DivisorSum(3, 1, 3) == 1; }
    else if n == 4 { assert DivisorSum(4, 1, 4) == 3; }
    else if n == 5 { assert DivisorSum(5, 1, 5) == 1; }
  }

  /** The square-root divisor-pair test: starts from the divisor 1, adds each
      divisor i with i * i <= n together with its partner n / i (the root
      once), and compares the total with n. */
  method IsPerfect(n: int) returns (b: bool)
    ensures b <==> Perfect(n)
    ensures n < 6 ==> !b
  {
    if n < 6 {
      SmallNotPerfect(n);
      return false;
    }
    var sum := 1;
    var i := 2;
    assert DivisorSum(n, 1, 2) == 1;
    CofactorNoneYet(n, 2, n);
    while i * i <= n
      invariant 2 <= i <= n
      invariant sum == DivisorSum(n, 1, i) + CofactorSum(n, i, i, n)
      decreases n - i
    {
      PairStep(n, i);
      if n % i == 0 {
        sum := sum + i;
        if i * i != n {
          sum := sum + n / i;
        }
      }
      MulStrictMono(i, 1, i);
      i := i + 1;
    }
    CofactorAboveRoot(n, i, i, n);
    DivisorSumSplit(n, 1, i, n);
    b := sum == n;
  }

  /** Every perfect number in [start, end], in ascending order; the scan
      starts at max(start, 2). */
  method GetPerfectNumbersInRange(start: int, end: int) returns (perfects: seq<int>)
    ensures forall k :: 0 <= k < |perfects| ==> Max(start, 2) <= perfects[k] <= end
    ensures forall n :: n in perfects <==> start <= n <= end && Perfect(n)
    ensures StrictlyAscending(perfects)
    ensures end < Max(start, 2) ==> perfects == []
  {
    var actualStart := Max(start, 2);
    perfects := [];
    var i := actualStart;
    while i <= end
      invariant actualStart <= i
      invariant forall k :: 0 <= k < |perfects| ==> actualStart <= perfects[k] <= end && perfects[k] < i
      invariant forall k :: 0 <= k < |perfects| ==> Perfect(perfects[k])
      invariant forall n :: actualStart <= n < i && Perfect(n) ==> n in perfects
      invariant StrictlyAscending(perfects)
      invariant perfects != [] ==> actualStart <= end
      decreases end - i
    {
      var p := IsPerfect(i);
      if p {
        perfects := perfects + [i];
      }
      i := i + 1;
    }
    forall n | start <= n < actualStart
      ensures !Perfect(n)
    {
      SmallNotPerfect(n);
    }
  }

  /** 6 is perfect and 12 is not, from the definition. */
  lemma SixIsPerfect()
    ensures Perfect(6)
    ensures !Perfect(12)
  {
    assert DivisorSum(6, 1, 6) == 6;
    assert DivisorSum(12, 1, 12) == 16;
  }
}
