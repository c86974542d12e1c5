/** Mathematical reference definitions the sieves are proved against:
    divisibility, primality, the ascending sequence of primes below a bound,
    and the number-theoretic facts the sieve invariants rest on. */
module Primes {

  /** d divides k, written the way the sieves test it: no remainder. */
  ghost predicate Divides(d: int, k: int)
    requires d > 0
  {
    k % d == 0
  }

  /** k is prime: at least 2 and no divisor strictly between 1 and k. */
  ghost predicate IsPrime(k: int)
  {
    k >= 2 && forall d :: 2 <= d < k ==> !Divides(d, k)
  }

  /** The primes p with 0 <= p < m, in increasing order. */
  ghost function PrimesBelow(m: int): seq<int>
    decreases m
  {
    if m <= 0 then []
    else PrimesBelow(m - 1) + (if IsPrime(m - 1) then [m - 1] else [])
  }

  /** The primes p <= n, in increasing order; pi(n) is its length. */
  ghost function PrimesUpTo(n: int): seq<int>
  {
    PrimesBelow(n + 1)
  }

  ghost predicate StrictlyIncreasing(s: seq<int>)
  {
    forall a, b :: 0 <= a < b < |s| ==> s[a] < s[b]
  }

  // ---------------------------------------------------------------------
  // Arithmetic on remainders

  /** The only multiple of p strictly between -p and p is 0. */
  lemma ProductInOpenBand(p: int, t: int)
    requires p > 0 && -p < p * t < p
    ensures t == 0
  {
  }

  /** Quotient and remainder are unique: a decomposition k == p*q + r with
      0 <= r < p is the one that / and % compute. */
  lemma DivModUnique(k: int, p: int, q: int, r: int)
    requires p > 0 && k == p * q + r && 0 <= r < p
    ensures k / p == q && k % p == r
  {
    var q', r' := k / p, k % p;
    assert k == p * q' + r';
    var t := q - q';
    assert p * t == r' - r;
    ProductInOpenBand(p, t);
  }

  /** Every multiple of p is divisible by p. */
  lemma MultipleDivides(p: int, m: int)
    requires p > 0
    ensures Divides(p, p * m)
  {
    DivModUnique(p * m, p, m, 0);
  }

  /** Two multiples of p that are less than p apart are the same number. */
  lemma MultiplesApart(p: int, a: int, b: int)
    requires p > 0 && Divides(p, a) && Divides(p, b) && a <= b < a + p
    ensures a == b
  {
    var x, y := a / p, b / p;
    assert a == p * x && b == p * y;
    var t := y - x;
    assert p * t == b - a;
    ProductInOpenBand(p, t);
  }

  /** Divisibility is transitive. */
  lemma DividesTransitive(c: int, d: int, k: int)
    requires 0 < c && 0 < d && Divides(c, d) && Divides(d, k)
    ensures Divides(c, k)
  {
    var f, e := d / c, k / d;
    assert d == c * f && k == d * e;
    assert k == c * (f * e);
    MultipleDivides(c, f * e);
  }

  /** Multiplying by a non-negative factor is monotone. */
  lemma MultiplyMonotone(a: int, b: int, c: int)
    requires 0 <= a && b <= c
    ensures a * b <= a * c
  {
  }

  /** Squaring is monotone on non-negative numbers. */
  lemma SquareMonotone(a: int, b: int)
    requires 0 <= a <= b
    ensures a * a <= b * b
  {
  }

  // ---------------------------------------------------------------------
  // Number theory behind the sieves

  /** A proper divisor d of k pairs with the cofactor k / d; the smaller of
      the two is a divisor of k whose square does not exceed k. */
  lemma SmallerOfPair(k: int, d: int) returns (s: int)
    requires 2 <= d < k && Divides(d, k)
    ensures 2 <= s < k && s * s <= k && Divides(s, k)
  {
    var e := k / d;
    assert k == d * e;
    if e <= 1 {
      MultiplyMonotone(d, e, 1);
    }
    MultiplyMonotone(e, 2, d);
    if d <= e {
      s := d;
      MultiplyMonotone(d, d, e);
    } else {
      s := e;
      MultiplyMonotone(e, e, d);
      MultipleDivides(e, d);
    }
  }

  /** A number >= 2 that is not prime has a prime factor whose square does
      not exceed it. This is why striking from i*i, and sieving a window
      below w*w with the primes up to w, leaves exactly the primes. */
  lemma {:induction false} SmallPrimeFactor(k: int) returns (q: int)
    requires k >= 2 && !IsPrime(k)
    ensures IsPrime(q) && q * q <= k && Divides(q, k)
    decreases k
  {
    var d :| 2 <= d < k && Divides(d, k);
    var s := SmallerOfPair(k, d);
    if IsPrime(s) {
      q := s;
    } else {
      q := SmallPrimeFactor(s);
      DividesTransitive(q, s, k);
    }
  }

  /** A number >= 2 with no divisor d >= 2 satisfying d*d <= k is prime, and
      conversely no such divisor exists for a prime. */
  lemma TrialDivisionPrime(k: int)
    requires k >= 2
    ensures IsPrime(k) <==> forall d :: 2 <= d && d * d <= k ==> !Divides(d, k)
  {
    if !IsPrime(k) {
      var q := SmallPrimeFactor(k);
    } else {
      forall d | 2 <= d && d * d <= k
        ensures !Divides(d, k)
      {
        assert d * d >= 2 * d;
      }
    }
  }

  // ---------------------------------------------------------------------
  // The sequence of primes below a bound

  /** PrimesBelow(m) holds exactly the primes below m. */
  lemma {:induction false} PrimesBelowMembers(m: int)
    ensures forall x :: x in PrimesBelow(m) <==> 0 <= x < m && IsPrime(x)
    decreases m
  {
    if m > 0 {
      PrimesBelowMembers(m - 1);
    }
  }

  /** PrimesBelow(m) is strictly increasing, so it has no duplicates. */
  lemma {:induction false} PrimesBelowIncreasing(m: int)
    ensures StrictlyIncreasing(PrimesBelow(m))
    decreases m
  {
    if m > 0 {
      PrimesBelowIncreasing(m - 1);
      PrimesBelowMembers(m - 1);
      var s := PrimesBelow(m - 1);
      if IsPrime(m - 1) {
        forall a | 0 <= a < |s|
          ensures s[a] < m - 1
        {
          assert s[a] in s;
        }
      }
    }
  }

  /** Raising the bound only appends: PrimesBelow(m1) is a prefix of
      PrimesBelow(m2) whenever m1 <= m2. */
  lemma {:induction false} PrimesBelowPrefix(m1: int, m2: int)
    requires m1 <= m2
    ensures PrimesBelow(m1) <= PrimesBelow(m2)
    decreases m2 - m1
  {
    if m1 < m2 {
      PrimesBelowPrefix(m1, m2 - 1);
      assert m2 - 1 >= 0 || PrimesBelow(m2) == PrimesBelow(m2 - 1);
    }
  }

  /** The first n primes: the length-n prefix of PrimesBelow(m) is the same
      for every bound m that has at least n primes below it. */
  lemma FirstPrimesIndependent(n: int, m1: int, m2: int)
    requires 0 <= n <= |PrimesBelow(m1)| && n <= |PrimesBelow(m2)|
    ensures PrimesBelow(m1)[..n] == PrimesBelow(m2)[..n]
  {
    if m1 <= m2 {
      PrimesBelowPrefix(m1, m2);
    } else {
      PrimesBelowPrefix(m2, m1);
    }
  }

  /** The first n primes are exactly the primes up to the n-th one: nothing
      is skipped and nothing beyond it is included. */
  lemma FirstPrimesAreAllUpToLast(n: int, m: int)
    requires 1 <= n <= |PrimesBelow(m)|
    ensures PrimesBelow(m)[..n] == PrimesUpTo(PrimesBelow(m)[n - 1])
  {
    var s := PrimesBelow(m);
    var x := s[n - 1];
    PrimesBelowMembers(m);
    assert x in s;
    PrimesBelowPrefix(x + 1, m);
    var t := PrimesBelow(x + 1);
    var len := |t|;
    assert t == s[..len];
    PrimesBelowMembers(x + 1);
    PrimesBelowIncreasing(m);
    assert x in t;
    var idx :| 0 <= idx < len && t[idx] == x;
    assert s[idx] == s[n - 1];
    assert n <= len;
    assert t[len - 1] in t;
    assert s[len - 1] <= x;
    assert len <= n;
  }

  /** The first n primes are a prefix of the first n+1 primes. */
  lemma FirstPrimesExtend(n: int, m1: int, m2: int)
    requires 0 <= n <= |PrimesBelow(m1)| && n + 1 <= |PrimesBelow(m2)|
    ensures PrimesBelow(m1)[..n] <= PrimesBelow(m2)[..n + 1]
  {
    FirstPrimesIndependent(n, m1, m2);
  }

  /** pi is monotone. */
  lemma PrimesBelowLengthMonotone(m1: int, m2: int)
    requires m1 <= m2
    ensures |PrimesBelow(m1)| <= |PrimesBelow(m2)|
  {
  }

  /** There is no prime up to n when n < 2. */
  lemma NoPrimesBelowTwo(n: int)
    requires n < 2
    ensures PrimesUpTo(n) == []
  {
  }

  /** Primality of the numbers below 14, by trial division. */
  lemma SmallPrimality(k: int)
    requires 0 <= k < 14
    ensures IsPrime(k) <==> k in {2, 3, 5, 7, 11, 13}
  {
    if k in {4, 6, 8, 10, 12} {
      assert Divides(2, k);
    } else if k == 9 {
      assert Divides(3, k);
    } else if k in {2, 3, 5, 7, 11, 13} {
      forall d | 2 <= d < k
        ensures !Divides(d, k)
      {
        assert d in {2, 3, 4, 5, 6, 7, 8, 9, 10, 11, 12};
      }
    }
  }

  /** The primes below 8, computed from the definition one bound at a time. */
  lemma PrimesBelowEight()
    ensures PrimesBelow(8) == [2, 3, 5, 7]
  {
    NoPrimesBelowTwo(1);
    SmallPrimality(2);
    assert PrimesBelow(3) == [2];
    SmallPrimality(3);
    assert PrimesBelow(4) == [2, 3];
    SmallPrimality(4);
    assert PrimesBelow(5) == [2, 3];
    SmallPrimality(5);
    assert PrimesBelow(6) == [2, 3, 5];
    SmallPrimality(6);
    assert PrimesBelow(7) == [2, 3, 5];
    SmallPrimality(7);
    assert PrimesBelow(8) == [2, 3, 5, 7];
  }

  /** The primes below 14, and the primes up to 10, computed from the
      definition one bound at a time. */
  lemma SmallPrimesTable()
    ensures PrimesUpTo(10) == [2, 3, 5, 7]
    ensures PrimesBelow(14) == [2, 3, 5, 7, 11, 13]
  {
    PrimesBelowEight();
    SmallPrimality(8);
    assert PrimesBelow(9) == [2, 3, 5, 7];
    SmallPrimality(9);
    assert PrimesBelow(10) == [2, 3, 5, 7];
    SmallPrimality(10);
    assert PrimesBelow(11) == [2, 3, 5, 7];
    SmallPrimality(11);
    assert PrimesBelow(12) == [2, 3, 5, 7, 11];
    SmallPrimality(12);
    assert PrimesBelow(13) == [2, 3, 5, 7, 11];
    SmallPrimality(13);
    assert PrimesBelow(14) == [2, 3, 5, 7, 11, 13];
  }
}
