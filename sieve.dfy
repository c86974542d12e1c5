/** The sieve of Eratosthenes and its segmented variants: the whole-range
    sieve, the window-marking step they share, and the four sweeps built on
    it (all primes up to n, pi(n), the first n primes, the n-th prime). */
module Sieve {
  import opened Primes

  function Min(a: int, b: int): (m: int) { if a <= b then a else b }
  function Max(a: int, b: int): (m: int) { if a <= b then b else a }

  /** The integer square root, floor(sqrt(n)). */
  function Isqrt(n: nat): (r: nat)
    ensures r * r <= n < (r + 1) * (r + 1)
  {
    if n == 0 then 0
    else
      var r := Isqrt(n - 1);
      assert (r + 2) * (r + 2) == (r + 1) * (r + 1) + 2 * r + 3;
      if (r + 1) * (r + 1) <= n then r + 1 else r
  }

  /** The window size the segmented sweeps use for a bound n >= 2: at least 2,
      at most n, and its square exceeds n. */
  lemma BaseBound(n: int)
    requires n >= 2
    ensures 2 <= Isqrt(n) + 1 <= n && n < (Isqrt(n) + 1) * (Isqrt(n) + 1)
  {
  }

  // ---------------------------------------------------------------------
  // Whole-range sieve

  /** No d in [2, bound) with d*d <= k divides k: k has not been struck by
      any of the sieving indices below bound. */
  ghost predicate NoSmallDivisor(k: int, bound: int)
  {
    forall d :: 2 <= d < bound && d * d <= k ==> !Divides(d, k)
  }

  /** After sieving with every i whose square is below size, an index k >= 2
      below size is unstruck exactly when it is prime. */
  lemma SieveExhausted(k: int, i: int, size: int)
    requires 2 <= k < size <= i * i && i >= 0
    ensures NoSmallDivisor(k, i) <==> IsPrime(k)
  {
    TrialDivisionPrime(k);
    forall d | 2 <= d && d * d <= k
      ensures d < i
    {
      if d >= i {
        SquareMonotone(i, d);
      }
    }
  }

  /** The successor of a multiple of p is the next multiple, with no multiple
      strictly between. */
  lemma NextMultiple(p: int, k: int)
    requires p > 0 && Divides(p, k)
    ensures Divides(p, k + p)
    ensures forall x :: k < x < k + p ==> !Divides(p, x)
  {
    assert k + p == p * (k / p + 1);
    MultipleDivides(p, k / p + 1);
    forall x | k < x < k + p && Divides(p, x)
      ensures false
    {
      MultiplesApart(p, k, x);
    }
  }

  /** k has been struck by sieving index i once the cursor has reached j:
      a multiple of i in [i*i, j). */
  ghost predicate StruckBy(k: int, i: int, j: int)
    requires i > 0
  {
    i * i <= k < j && Divides(i, k)
  }

  /** Advancing the cursor from the multiple j to j + i strikes j and
      nothing else. */
  lemma StrikeStep(i: int, j: int)
    requires i > 0 && Divides(i, j)
    ensures Divides(i, j + i)
    ensures forall k :: StruckBy(k, i, j + i) <==> StruckBy(k, i, j) || (k == j && i * i <= j)
  {
    NextMultiple(i, j);
  }

  /** Once index i has struck every multiple from i*i on, an unstruck k has
      no small divisor below i + 1. */
  lemma StrikeDone(k: int, i: int, j: int)
    requires i >= 2 && k < j
    ensures NoSmallDivisor(k, i) && !StruckBy(k, i, j) <==> NoSmallDivisor(k, i + 1)
  {
  }

  /** StrikeDone for every index below the cursor j. */
  lemma StrikeRoundDone(i: int, j: int)
    requires i >= 2
    ensures forall k :: k < j ==>
      (NoSmallDivisor(k, i) && !StruckBy(k, i, j) <==> NoSmallDivisor(k, i + 1))
  {
    forall k | k < j
      ensures NoSmallDivisor(k, i) && !StruckBy(k, i, j) <==> NoSmallDivisor(k, i + 1)
    {
      StrikeDone(k, i, j);
    }
  }

  /** SieveExhausted for every index k with 2 <= k < size. */
  lemma SieveRoundsDone(i: int, size: int)
    requires size <= i * i && i >= 0
    ensures forall k :: 2 <= k < size ==> (NoSmallDivisor(k, i) <==> IsPrime(k))
  {
    forall k | 2 <= k < size
      ensures NoSmallDivisor(k, i) <==> IsPrime(k)
    {
      SieveExhausted(k, i, size);
    }
  }

  /** Sieve of Eratosthenes over [0, n]: strike every multiple of i from i*i
      for each i with i*i < n+1 (composite i included), then collect the
      indices still marked. */
  method SimpleSieve(n: int) returns (primes: seq<int>)
    ensures primes == PrimesUpTo(n)
  {
    if n < 2 {
      NoPrimesBelowTwo(n);
      return [];
    }
    var size := n + 1;
    var sieve := new bool[size](k => k >= 2);
    var i := 2;
    while i * i < size
      invariant 2 <= i
      invariant forall k :: 0 <= k < size ==> sieve[k] == (k >= 2 && NoSmallDivisor(k, i))
      decreases size - i
    {
      var j := i * i;
      MultipleDivides(i, i);
      while j < size
        invariant i * i <= j && Divides(i, j)
        invariant forall k :: 0 <= k < size ==>
          sieve[k] == (k >= 2 && NoSmallDivisor(k, i) && !StruckBy(k, i, j))
        decreases size - j
      {
        StrikeStep(i, j);
        sieve[j] := false;
        j := j + i;
      }
      StrikeRoundDone(i, j);
      i := i + 1;
    }
    SieveRoundsDone(i, size);
    primes := [];
    NoPrimesBelowTwo(1);
    for k := 2 to size
      invariant primes == PrimesBelow(k)
    {
      if sieve[k] {
        primes := primes + [k];
      }
    }
  }

  // ---------------------------------------------------------------------
  // Window marking

  ghost predicate AllPositive(s: seq<int>)
  {
    forall j :: 0 <= j < |s| ==> s[j] > 0
  }

  /** k is divisible by none of the first count base primes. */
  ghost predicate Survives(k: int, base: seq<int>, count: int)
    requires AllPositive(base) && 0 <= count <= |base|
  {
    forall j :: 0 <= j < count ==> !Divides(base[j], k)
  }

  /** The smallest multiple of p that is >= i: round i down to a multiple of
      p and add p if that fell below i. */
  function FirstMultipleAtLeast(i: int, p: int): (lo: int)
    requires i >= 0 && p > 0
    ensures i <= lo < i + p && Divides(p, lo)
    ensures forall x :: i <= x < lo ==> !Divides(p, x)
  {
    RoundDown(i, p);
    var lo := (i / p) * p;
    if lo < i then lo + p else lo
  }

  /** i rounded down to a multiple of p lies in (i - p, i], and the next
      multiple up has no multiple of p between them. */
  lemma RoundDown(i: int, p: int)
    requires i >= 0 && p > 0
    ensures i - p < (i / p) * p <= i && Divides(p, (i / p) * p)
    ensures Divides(p, (i / p) * p + p)
    ensures forall x :: (i / p) * p < x < (i / p) * p + p ==> !Divides(p, x)
  {
    var q := i / p;
    assert q * p == p * q;
    MultipleDivides(p, q);
    NextMultiple(p, q * p);
  }

  /** Mark the window [i, hi) in the buffer, entry t standing for i + t:
      reset every entry to true, then for each base prime strike its
      multiples in the window, starting from the first one >= i. Entries
      past the window stay true. */
  method MarkWindow(sieve: array<bool>, base: seq<int>, i: int, hi: int)
    requires AllPositive(base)
    requires 0 <= i <= hi <= i + sieve.Length
    modifies sieve
    ensures forall t :: 0 <= t < sieve.Length ==>
      sieve[t] == (i + t >= hi || Survives(i + t, base, |base|))
  {
    forall t | 0 <= t < sieve.Length {
      sieve[t] := true;
    }
    for j := 0 to |base|
      invariant forall t :: 0 <= t < sieve.Length ==>
        sieve[t] == (i + t >= hi || Survives(i + t, base, j))
    {
      var p := base[j];
      var k := FirstMultipleAtLeast(i, p);
      while k < hi
        invariant i <= k && Divides(p, k)
        invariant forall t :: 0 <= t < sieve.Length ==>
          sieve[t] == (i + t >= hi || (Survives(i + t, base, j) && !(i + t < k && Divides(p, i + t))))
        decreases hi - k
      {
        NextMultiple(p, k);
        sieve[k - i] := false;
        k := k + p;
      }
    }
  }

  /** The primes up to w are positive. */
  lemma BasePositive(w: int)
    ensures AllPositive(PrimesUpTo(w))
  {
    PrimesBelowMembers(w + 1);
    var base := PrimesUpTo(w);
    forall j | 0 <= j < |base|
      ensures base[j] > 0
    {
      assert base[j] in base;
    }
  }

  /** With the primes up to w as base, an index k of a window with
      w <= k < w*w survives marking exactly when k is a prime above w. At
      k == w (where the first window starts) a prime w strikes itself, so it
      is not reported a second time. */
  lemma WindowSurvivorIsPrime(k: int, w: int, base: seq<int>)
    requires w >= 2 && base == PrimesUpTo(w) && w <= k < w * w
    ensures AllPositive(base)
    ensures Survives(k, base, |base|) <==> IsPrime(k) && k > w
  {
    BasePositive(w);
    PrimesBelowMembers(w + 1);
    if IsPrime(k) && k > w {
      forall j | 0 <= j < |base|
        ensures !Divides(base[j], k)
      {
        assert base[j] in base;
      }
    } else {
      var q;
      if IsPrime(k) {
        q := k;
        MultipleDivides(k, 1);
      } else {
        q := SmallPrimeFactor(k);
        if q >= w {
          SquareMonotone(w, q);
        }
      }
      assert q in base;
      var j :| 0 <= j < |base| && base[j] == q;
    }
  }

  /** One index of a sweep: moving the cursor from k to k + 1 appends k to
      the primes found so far exactly when k survives marking. This is what
      every sweep loop below relies on, seam at k == w included. */
  lemma SweepStep(k: int, w: int)
    requires w >= 2 && w <= k < w * w
    ensures AllPositive(PrimesUpTo(w))
    ensures PrimesBelow(Max(k + 1, w + 1)) ==
      PrimesBelow(Max(k, w + 1)) + (if Survives(k, PrimesUpTo(w), |PrimesUpTo(w)|) then [k] else [])
  {
    WindowSurvivorIsPrime(k, w, PrimesUpTo(w));
  }

  /** Upper end of the window starting at i, clamped so that no index above
      n is considered. */
  function WindowEnd(i: int, w: int, n: int): (hi: int)
    requires i <= n && w >= 1
    ensures i < hi <= n + 1 && hi <= i + w
    ensures hi <= n ==> hi == i + w
  {
    if i + w <= n then i + w else n + 1
  }

  // ---------------------------------------------------------------------
  // Segmented sweeps

  /** Segmented sieve: base primes up to w = floor(sqrt(n)) + 1, then windows
      [i, min(i + w, n + 1)) for i = w, 2w, ..., each marked in the same
      w-long buffer, appending the survivors. */
  method SegmentedSieve(n: int) returns (primes: seq<int>)
    ensures primes == PrimesUpTo(n)
  {
    if n < 2 {
      NoPrimesBelowTwo(n);
      return [];
    }
    var ssiz := Isqrt(n) + 1;
    BaseBound(n);
    primes := SimpleSieve(ssiz);
    var base := primes;
    BasePositive(ssiz);
    var sieve := new bool[ssiz];
    var i := ssiz;
    while i <= n
      invariant ssiz <= i
      invariant primes == PrimesBelow(Max(Min(i, n + 1), ssiz + 1))
      decreases n - i
    {
      var hi := WindowEnd(i, ssiz, n);
      MarkWindow(sieve, base, i, hi);
      for j := 0 to hi - i
        invariant primes == PrimesBelow(Max(i + j, ssiz + 1))
        modifies {}
      {
        SweepStep(i + j, ssiz);
        if sieve[j] {
          primes := primes + [i + j];
        }
      }
      i := i + ssiz;
    }
  }

  /** pi(n) by the same sweep as SegmentedSieve, keeping only a count. */
  method CountPrimes(n: int) returns (count: int)
    ensures count == |PrimesUpTo(n)|
  {
    if n < 2 {
      NoPrimesBelowTwo(n);
      return 0;
    }
    var ssiz := Isqrt(n) + 1;
    BaseBound(n);
    var base := SimpleSieve(ssiz);
    BasePositive(ssiz);
    count := |base|;
    var sieve := new bool[ssiz];
    var i := ssiz;
    while i <= n
      invariant ssiz <= i
      invariant count == |PrimesBelow(Max(Min(i, n + 1), ssiz + 1))|
      decreases n - i
    {
      var hi := WindowEnd(i, ssiz, n);
      MarkWindow(sieve, base, i, hi);
      for j := 0 to hi - i
        invariant count == |PrimesBelow(Max(i + j, ssiz + 1))|
        modifies {}
      {
        SweepStep(i + j, ssiz);
        if sieve[j] {
          count := count + 1;
        }
      }
      i := i + ssiz;
    }
  }

  /** The window size stands in for the floating-point estimate: it must be
      at least 2 and have at least n primes below its square. */
  ghost predicate WindowCovers(n: int, w: int)
  {
    w >= 2 && n <= |PrimesBelow(w * w)|
  }

  /** The fixed window used for n < 6. */
  const SmallWindow := 12

  /** For 1 <= n < 6 the fixed window 12 meets the precondition of NPrimes
      and NthPrime, and the base primes up to 12 already number at least n,
      so those calls never sweep a window. */
  lemma SmallWindowSuffices(n: int)
    requires 1 <= n < 6
    ensures WindowCovers(n, SmallWindow)
    ensures n <= |PrimesUpTo(SmallWindow)|
  {
    SmallPrimesTable();
    PrimesBelowMembers(14);
    assert 13 in PrimesBelow(14);
    PrimesBelowLengthMonotone(13, SmallWindow * SmallWindow);
  }

  /** NPrimes returns the first n primes: n values, strictly increasing, all
      prime, and every prime up to the last of them is among them. */
  lemma FirstPrimesMeaning(n: int, w: int)
    requires n >= 1 && WindowCovers(n, w)
    ensures |PrimesBelow(w * w)[..n]| == n
    ensures StrictlyIncreasing(PrimesBelow(w * w)[..n])
    ensures forall x :: x in PrimesBelow(w * w)[..n] <==>
      IsPrime(x) && x <= PrimesBelow(w * w)[n - 1]
  {
    var r := PrimesBelow(w * w)[..n];
    FirstPrimesAreAllUpToLast(n, w * w);
    PrimesBelowMembers(r[n - 1] + 1);
    PrimesBelowIncreasing(r[n - 1] + 1);
  }

  /** Worked values: for any window that covers six primes, the first five
      primes are 2, 3, 5, 7, 11 and the sixth prime is 13. */
  lemma FirstSixPrimes(w: int)
    requires WindowCovers(6, w)
    ensures PrimesBelow(w * w)[..5] == [2, 3, 5, 7, 11]
    ensures PrimesBelow(w * w)[5] == 13
  {
    SmallPrimesTable();
    FirstPrimesIndependent(6, w * w, 14);
    assert PrimesBelow(w * w)[..6] == [2, 3, 5, 7, 11, 13];
    assert PrimesBelow(w * w)[..5] == PrimesBelow(w * w)[..6][..5];
  }

  /** For a window w >= 2, the primes up to w are among those below w*w. */
  lemma BaseWithinSquare(w: int)
    requires w >= 2
    ensures PrimesUpTo(w) <= PrimesBelow(w * w)
  {
    MultiplyMonotone(w, 2, w);
    PrimesBelowPrefix(w + 1, w * w);
  }

  /** While fewer than n primes have been found below m, m is below w*w. */
  lemma SweepBelowSquare(n: int, w: int, m: int)
    requires WindowCovers(n, w) && |PrimesBelow(m)| < n
    ensures m < w * w
  {
  }

  /** The first n primes: the base primes up to w when there are enough of
      them, otherwise an open-ended sweep of w-wide windows from w that stops
      the moment the n-th prime is appended. */
  method NPrimes(n: int, w: int) returns (primes: seq<int>)
    requires n >= 1 ==> WindowCovers(n, w)
    ensures n < 1 ==> primes == []
    ensures n >= 1 ==> primes == PrimesBelow(w * w)[..n]
  {
    if n < 1 {
      return [];
    }
    primes := SimpleSieve(w);
    var base := primes;
    BaseWithinSquare(w);
    if |base| >= n {
      return base[..n];
    }
    BasePositive(w);
    var sieve := new bool[w];
    var i := w;
    while true
      invariant w <= i
      invariant primes == PrimesBelow(Max(i, w + 1)) && |primes| < n
      decreases w * w - i
    {
      SweepBelowSquare(n, w, Max(i, w + 1));
      MarkWindow(sieve, base, i, i + w);
      for j := 0 to w
        invariant primes == PrimesBelow(Max(i + j, w + 1)) && |primes| < n
        modifies {}
      {
        SweepBelowSquare(n, w, Max(i + j, w + 1));
        SweepStep(i + j, w);
        if sieve[j] {
          primes := primes + [i + j];
          if |primes| == n {
            PrimesBelowPrefix(i + j + 1, w * w);
            return primes;
          }
        }
      }
      i := i + w;
    }
  }

  /** The n-th prime (1-based), by the sweep of NPrimes keeping only a count;
      -1 when n < 1. */
  method NthPrime(n: int, w: int) returns (p: int)
    requires n >= 1 ==> WindowCovers(n, w)
    ensures n < 1 ==> p == -1
    ensures n >= 1 ==> p == PrimesBelow(w * w)[n - 1]
  {
    if n < 1 {
      return -1;
    }
    var base := SimpleSieve(w);
    BaseWithinSquare(w);
    if |base| >= n {
      return base[n - 1];
    }
    BasePositive(w);
    var count := |base|;
    var sieve := new bool[w];
    var i := w;
    while true
      invariant w <= i
      invariant count == |PrimesBelow(Max(i, w + 1))| && count < n
      decreases w * w - i
    {
      SweepBelowSquare(n, w, Max(i, w + 1));
      MarkWindow(sieve, base, i, i + w);
      for j := 0 to w
        invariant count == |PrimesBelow(Max(i + j, w + 1))| && count < n
        modifies {}
      {
        SweepBelowSquare(n, w, Max(i + j, w + 1));
        SweepStep(i + j, w);
        if sieve[j] {
          count := count + 1;
          if count == n {
            PrimesBelowPrefix(i + j + 1, w * w);
            return i + j;
          }
        }
      }
      i := i + w;
    }
  }
}
