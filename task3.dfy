/** Integer exercises: a sign classifier, a trial-division prime printer
    (its printed lines modelled as the returned sequence) and a summation loop. */
module Task3 {

  // ---------------------------------------------------------------------
  // checkPosNeg
  // ---------------------------------------------------------------------

  /** Classifies n by its sign; exactly one of the three labels is returned. */
  function CheckPosNeg(n: int): (r: string)
    ensures r == "Positive" <==> n > 0
    ensures r == "Negative" <==> n < 0
    ensures r == "Value is zero" <==> n == 0
  {
    if n > 0 then "Positive"
    else if n < 0 then "Negative"
    else "Value is zero"
  }

  /** The two calls the unit test makes. */
  lemma CheckPosNegExamples()
    ensures CheckPosNeg(5) == "Positive"
    ensures CheckPosNeg(-123213) == "Negative"
  {
  }

  // ---------------------------------------------------------------------
  // printPrimes
  // ---------------------------------------------------------------------

  /** Reference definition: no divisor strictly between 1 and n. */
  ghost predicate IsPrime(n: int)
  {
    n >= 2 && forall d :: 2 <= d < n ==> n % d != 0
  }

  /** Outcome of trial division starting at lo: does some d with lo <= d and
      d * d <= n divide n? */
  function HasDivisorFrom(n: int, lo: int): bool
    requires lo >= 2
    decreases n - lo * lo
  {
    if lo * lo > n then false
    else n % lo == 0 || HasDivisorFrom(n, lo + 1)
  }

  /** What the printer decides about a candidate: it is at least 2 and trial
      division up to its square root finds no divisor. */
  predicate PassesTrialDivision(n: int)
  {
    n >= 2 && !HasDivisorFrom(n, 2)
  }

  /** The first (at most) k numbers of [lo, hi) that pass trial division, in
      ascending order. */
  function FirstPrimes(lo: int, hi: int, k: nat): seq<int>
    decreases hi - lo
  {
    if k == 0 || lo >= hi then []
    else if PassesTrialDivision(lo) then [lo] + FirstPrimes(lo + 1, hi, k - 1)
    else FirstPrimes(lo + 1, hi, k)
  }

  lemma SquareMono(a: int, b: int)
    requires 0 <= a <= b
    ensures a * a <= b * b
  {
  }

  /** The trial-division loop from lo finds a divisor exactly when one exists
      at or above lo and at most the square root of n. */
  lemma {:induction false} HasDivisorFromIff(n: int, lo: int)
    requires lo >= 2
    ensures HasDivisorFrom(n, lo) <==> exists d :: lo <= d && d * d <= n && n % d == 0
    decreases n - lo * lo
  {
    if lo * lo > n {
      forall d | lo <= d
        ensures d * d > n
      {
        SquareMono(lo, d);
      }
    } else if n % lo != 0 {
      HasDivisorFromIff(n, lo + 1);
      if exists d :: lo <= d && d * d <= n && n % d == 0 {
        var d :| lo <= d && d * d <= n && n % d == 0;
        assert lo + 1 <= d;
      }
    }
  }

  lemma MulNonNegative(a: int, b: int)
    requires a >= 0 && b >= 0
    ensures a * b >= 0
  {
  }

  /** Euclidean division is unique: a quotient and remainder in range are
      the ones % computes. */
  lemma DivModUnique(n: int, m: int, q: int, r: int)
    requires m >= 1 && n == m * q + r && 0 <= r < m
    ensures n % m == r
  {
    var t := q - n / m;
    assert m * t == n % m - r;
    if t >= 1 {
      MulNonNegative(m, t - 1);
    } else if t <= -1 {
      MulNonNegative(m, -t - 1);
    }
  }

  /** If d divides n then so does the cofactor n / d. */
  lemma CofactorDivides(n: int, d: int)
    requires n >= 1 && d >= 1 && n % d == 0
    ensures n / d >= 1 && n == d * (n / d) && n % (n / d) == 0
  {
    var e := n / d;
    assert n == d * e;
    if e < 1 {
      MulNonNegative(d, -e);
    }
    DivModUnique(n, e, d, 0);
  }

  /** A divisor at most the square root lies strictly below n. */
  lemma SmallDivisorBelow(n: int, d: int)
    requires 2 <= d && d * d <= n
    ensures d < n
  {
  }

  /** A composite n has a divisor at most its square root: either the divisor
      d itself or its cofactor n / d. */
  lemma SmallDivisorExists(n: int, d: int) returns (s: int)
    requires 2 <= d < n && n % d == 0
    ensures 2 <= s && s * s <= n && n % s == 0
  {
    if d * d <= n {
      return d;
    }
    CofactorDivides(n, d);
    var e := n / d;
    if d <= e {
      MulNonNegative(d, e - d);
    }
    MulNonNegative(e, d - e);
    return e;
  }

  /** Trial division up to the square root decides primality. */
  lemma TrialDivisionIsPrimality(n: int)
    ensures PassesTrialDivision(n) <==> IsPrime(n)
  {
    if n >= 2 {
      HasDivisorFromIff(n, 2);
      if HasDivisorFrom(n, 2) {
        var d :| 2 <= d && d * d <= n && n % d == 0;
        SmallDivisorBelow(n, d);
      } else if !IsPrime(n) {
        var d :| 2 <= d < n && n % d == 0;
        var s := SmallDivisorExists(n, d);
      }
    }
  }

  /** Extending the range by one number appends it when it passes and fewer
      than k were found, and otherwise changes nothing. */
  lemma {:induction false} FirstPrimesExtend(lo: int, hi: int, k: nat)
    requires lo <= hi
    ensures FirstPrimes(lo, hi + 1, k) ==
      if |FirstPrimes(lo, hi, k)| < k && PassesTrialDivision(hi)
      then FirstPrimes(lo, hi, k) + [hi]
      else FirstPrimes(lo, hi, k)
    decreases hi - lo
  {
    if k == 0 || lo == hi {
    } else if PassesTrialDivision(lo) {
      FirstPrimesExtend(lo + 1, hi, k - 1);
    } else {
      FirstPrimesExtend(lo + 1, hi, k);
    }
  }

  /** Once k numbers are found, a larger range finds the same k. */
  lemma {:induction false} FirstPrimesFull(lo: int, hi: int, hi': int, k: nat)
    requires lo <= hi <= hi' && |FirstPrimes(lo, hi, k)| == k
    ensures FirstPrimes(lo, hi', k) == FirstPrimes(lo, hi, k)
    decreases hi' - hi
  {
    if hi < hi' {
      FirstPrimesExtend(lo, hi, k);
      FirstPrimesFull(lo, hi + 1, hi', k);
    }
  }

  /** Every number found is prime and lies in [lo, hi); they are strictly
      increasing and at most k of them. */
  lemma {:induction false} FirstPrimesSound(lo: int, hi: int, k: nat)
    ensures |FirstPrimes(lo, hi, k)| <= k
    ensures forall i :: 0 <= i < |FirstPrimes(lo, hi, k)| ==>
      lo <= FirstPrimes(lo, hi, k)[i] < hi && IsPrime(FirstPrimes(lo, hi, k)[i])
    ensures forall i, j :: 0 <= i < j < |FirstPrimes(lo, hi, k)| ==>
      FirstPrimes(lo, hi, k)[i] < FirstPrimes(lo, hi, k)[j]
    decreases hi - lo
  {
    if k == 0 || lo >= hi {
    } else if PassesTrialDivision(lo) {
      FirstPrimesSound(lo + 1, hi, k - 1);
      TrialDivisionIsPrimality(lo);
    } else {
      FirstPrimesSound(lo + 1, hi, k);
    }
  }

  /** No prime is skipped: a prime of [lo, hi) is found when fewer than k
      numbers were found, or when it is at most the last one found. */
  lemma {:induction false} FirstPrimesComplete(lo: int, hi: int, k: nat, p: int)
    requires lo <= p < hi && IsPrime(p)
    requires var r := FirstPrimes(lo, hi, k); |r| < k || (|r| > 0 && p <= r[|r| - 1])
    ensures p in FirstPrimes(lo, hi, k)
    decreases hi - lo
  {
    TrialDivisionIsPrimality(p);
    var r := FirstPrimes(lo, hi, k);
    if p == lo {
      assert r[0] == p;
    } else if PassesTrialDivision(lo) {
      var r' := FirstPrimes(lo + 1, hi, k - 1);
      assert r == [lo] + r';
      if |r'| == 0 {
        assert r == [lo];
      } else {
        assert r[|r| - 1] == r'[|r'| - 1];
      }
      FirstPrimesComplete(lo + 1, hi, k - 1, p);
    } else {
      FirstPrimesComplete(lo + 1, hi, k, p);
    }
  }

  /** The ten numbers the printer emits: the primes up to 29. */
  lemma FirstTenPrimes()
    ensures FirstPrimes(2, 100, 10) == [2, 3, 5, 7, 11, 13, 17, 19, 23, 29]
  {
    assert FirstPrimes(24, 30, 1) == [29];
    assert FirstPrimes(20, 30, 2) == [23, 29];
    assert FirstPrimes(18, 30, 3) == [19, 23, 29];
    assert FirstPrimes(14, 30, 4) == [17, 19, 23, 29];
    assert FirstPrimes(12, 30, 5) == [13, 17, 19, 23, 29];
    assert FirstPrimes(8, 30, 6) == [11, 13, 17, 19, 23, 29];
    assert FirstPrimes(6, 30, 7) == [7, 11, 13, 17, 19, 23, 29];
    assert FirstPrimes(4, 30, 8) == [5, 7, 11, 13, 17, 19, 23, 29];
    assert FirstPrimes(2, 30, 10) == [2, 3, 5, 7, 11, 13, 17, 19, 23, 29];
    FirstPrimesFull(2, 30, 100, 10);
  }

  /** printPrimes: scans 2..99, marks a candidate not prime as soon as some j
      with j * j <= i divides it, emits the others, and stops after the tenth. */
  method PrintPrimes() returns (out: seq<int>)
    ensures out == FirstPrimes(2, 100, 10)
    ensures out == [2, 3, 5, 7, 11, 13, 17, 19, 23, 29]
    ensures |out| <= 10
    ensures forall k :: 0 <= k < |out| ==> 2 <= out[k] < 100 && IsPrime(out[k])
    ensures forall k, l :: 0 <= k < l < |out| ==> out[k] < out[l]
    ensures forall p :: 2 <= p <= out[|out| - 1] && IsPrime(p) ==> p in out
  {
    out := [];
    var printedPrimes := 0;
    var notPrime := false;
    for i := 2 to 100
      invariant printedPrimes == |out| < 10
      invariant out == FirstPrimes(2, i, 10)
    {
      notPrime := false;
      var j := 2;
      while j * j <= i
        invariant j >= 2 && !notPrime
        invariant HasDivisorFrom(i, 2) == HasDivisorFrom(i, j)
        decreases i - j * j
      {
        if i % j == 0 {
          notPrime := true;
          break;
        }
        j := j + 1;
      }
      assert notPrime == HasDivisorFrom(i, 2);
      if notPrime == false {
        out := out + [i];
        printedPrimes := printedPrimes + 1;
      }
      FirstPrimesExtend(2, i, 10);
      if printedPrimes >= 10 {
        FirstPrimesFull(2, i + 1, 100, 10);
        break;
      }
    }
    FirstTenPrimes();
    FirstPrimesSound(2, 100, 10);
    forall p | 2 <= p <= out[|out| - 1] && IsPrime(p)
      ensures p in out
    {
      FirstPrimesComplete(2, 100, 10, p);
    }
  }

  // ---------------------------------------------------------------------
  // sum1to100
  // ---------------------------------------------------------------------

  /** Reference definition: 1 + 2 + ... + n. */
  function SumTo(n: nat): nat
  {
    if n == 0 then 0 else SumTo(n - 1) + n
  }

  /** Gauss's closed form. */
  lemma {:induction false} SumToClosedForm(n: nat)
    ensures SumTo(n) == n * (n + 1) / 2
  {
    if n > 0 {
      SumToClosedForm(n - 1);
      assert n * (n + 1) == (n - 1) * n + 2 * n;
    }
  }

  /** sum1to100: adds 1..100 into an accumulator. */
  method Sum1To100() returns (sum: int)
    ensures sum == SumTo(100)
    ensures sum == 5050
  {
    sum := 0;
    for i := 1 to 101
      invariant sum == SumTo(i - 1)
      invariant sum == (i - 1) * i / 2
    {
      SumToClosedForm(i);
      sum := sum + i;
    }
    SumToClosedForm(100);
  }
}
