/** Choice of the radix for the mixed-radix path: trial division by odd
    numbers while Square(factor) <= n, falling back to n itself. */
module Factor {
  import opened Bits

  /** Odd d with d >= 3 divides n: the candidates the trial division tries. */
  predicate OddDivisor(n: nat, d: nat)
  {
    d >= 3 && d % 2 == 1 && n % d == 0
  }

  /** d * d; the trial-division bound reads `Square(d) <= n`. */
  function Square(d: nat): nat
  {
    d * d
  }

  /** The trial-division loop of `LowestOddFactor`, entered with `factor`
      odd, at least 3, and no smaller odd candidate dividing n. */
  function TrialDivision(n: nat, factor: nat): (r: nat)
    requires factor >= 3 && factor % 2 == 1
    requires forall d :: 3 <= d < factor ==> !OddDivisor(n, d)
    ensures r == n || (OddDivisor(n, r) && Square(r) <= n && factor <= r)
    ensures r != n ==> forall d :: 3 <= d < r ==> !OddDivisor(n, d)
    ensures r == n ==> forall d :: 3 <= d && Square(d) <= n ==> !OddDivisor(n, d)
    decreases n + 2 - factor
  {
    if Square(factor) <= n then
      if n % factor == 0 then factor
      else
        NextCandidate(n, factor);
        TrialDivision(n, factor + 2)
    else
      NoCandidateBeyond(n, factor);
      n
  }

  /** A candidate that fits and does not divide n is passed over: the next
      odd number is the new lower bound, still within n. */
  lemma NextCandidate(n: nat, factor: nat)
    requires factor >= 3 && factor % 2 == 1 && Square(factor) <= n && n % factor != 0
    requires forall d :: 3 <= d < factor ==> !OddDivisor(n, d)
    ensures factor < n
    ensures forall d :: 3 <= d < factor + 2 ==> !OddDivisor(n, d)
  {
    SquareMonotone(1, factor);
    assert factor != n;
  }

  /** Once factor * factor exceeds n, no larger candidate can fit either. */
  lemma NoCandidateBeyond(n: nat, factor: nat)
    requires Square(factor) > n
    requires forall d :: 3 <= d < factor ==> !OddDivisor(n, d)
    ensures forall d :: 3 <= d && Square(d) <= n ==> !OddDivisor(n, d)
  {
    forall d | 3 <= d && Square(d) <= n ensures !OddDivisor(n, d) {
      SquareMonotone(factor, d);
    }
  }

  lemma SquareMonotone(a: nat, b: nat)
    ensures a <= b ==> Square(a) <= Square(b)
  {
    if a <= b {
      assert a * a <= a * b <= b * b;
    }
  }

  lemma TrialDivisionFromThree(n: nat)
    ensures TrialDivision(n, 3) <= n
  {
    var r := TrialDivision(n, 3);
    if r != n {
      assert Square(r) <= n && r >= 3;
      assert r * r >= 3 * r;
    }
  }

  /** `LowestOddFactor(n)`: the least odd divisor d >= 3 of n with
      Square(d) <= n, or n itself when there is none; either way a divisor
      of n. */
  function LowestOddFactor(n: nat): (r: nat)
    ensures r <= n
    ensures n > 0 ==> r > 0 && n % r == 0
    ensures r < n ==> OddDivisor(n, r) && Square(r) <= n
    ensures r < n ==> forall d :: 3 <= d < r ==> !OddDivisor(n, d)
    ensures r == n <==> forall d :: 3 <= d && Square(d) <= n ==> !OddDivisor(n, d)
  {
    TrialDivisionFromThree(n);
    TrialDivision(n, 3)
  }

  lemma LowestOddFactorExamples()
    ensures LowestOddFactor(15) == 3
    ensures LowestOddFactor(9) == 3
    ensures LowestOddFactor(17) == 17
    ensures LowestOddFactor(6) == 6
  {
  }

  /** Every length n >= 2 that reaches the mixed-radix step splits into
      p = LowestOddFactor(n) > 1 sub-sequences of length m = n / p with
      p * m == n and 1 <= m < n, so the recursion on length m terminates. */
  lemma LowestOddFactorSplits(n: nat)
    requires n >= 2
    ensures var p := LowestOddFactor(n);
      p > 1 && p * (n / p) == n && 1 <= n / p < n
  {
    var p := LowestOddFactor(n);
    DivisorSplits(n, p);
  }

  lemma DivisorSplits(n: nat, p: nat)
    requires n >= 2 && p >= 2 && n % p == 0
    ensures p * (n / p) == n && 1 <= n / p < n
  {
    var m := n / p;
    assert n == p * m by {
      assert n == p * m + n % p;
    }
    assert p * m == (p - 2) * m + 2 * m;
    assert (p - 2) * m >= 0;
  }

  predicate IsPrime(q: nat)
  {
    q >= 2 && forall d :: 2 <= d < q ==> q % d != 0
  }

  /** An odd divisor of 2 * q divides q. */
  lemma OddDividesDouble(q: nat, d: nat)
    requires d % 2 == 1 && (2 * q) % d == 0
    ensures q % d == 0
  {
    var s := (2 * q) / d;
    assert 2 * q == d * s;
    var a := d / 2;
    assert d == 2 * a + 1;
    assert d * s == 2 * (a * s) + s;
    DivModUnique(2 * q, 2, q, 0);
    DivModUnique(d * s, 2, a * s + s / 2, s % 2);
    var t := s / 2;
    assert s == 2 * t;
    assert q == d * t;
    DivModUnique(q, d, t, 0);
  }

  /** The quirk of the factor choice: for n = 2 * q with q an odd prime, the
      only odd divisor q exceeds the square root of n, so the factor chosen
      is n itself and the sub-sequences have length m = 1. */
  lemma LowestOddFactorOfTwicePrime(q: nat)
    requires IsPrime(q) && q % 2 == 1
    ensures LowestOddFactor(2 * q) == 2 * q
    ensures (2 * q) / LowestOddFactor(2 * q) == 1
  {
    var n := 2 * q;
    forall d | 3 <= d ensures OddDivisor(n, d) ==> d == q {
      OddDivisorOfTwicePrime(q, d);
    }
    assert Square(q) > n by {
      assert q * q >= 3 * q;
    }
  }

  /** The only odd divisor d >= 3 of 2 * q, for q an odd prime, is q. */
  lemma OddDivisorOfTwicePrime(q: nat, d: nat)
    requires IsPrime(q) && q % 2 == 1
    requires 3 <= d
    ensures OddDivisor(2 * q, d) ==> d == q
  {
    if OddDivisor(2 * q, d) {
      OddDividesDouble(q, d);
      var t := q / d;
      assert q == d * t + 0;
      assert t >= 1;
      assert d <= q by {
        assert d * t == d * (t - 1) + d;
      }
      assert d >= q;
    }
  }
}
