# Sieve of Eratosthenes, whole-range and segmented

This project models the `sieveOfEratosthenes` routines of `sieve.cpp` and proves them
correct against a mathematical definition of the primes.

- **`simple_sieve_(n)`** sieves `[0, n]` in a `bool` buffer of length `n + 1`.
  Every `i` with `i*i < n + 1` strikes its multiples from `i*i` upward. Composite `i` are not skipped.
- **`segmented_sieve_(n)`** and **`count_primes_(n)`** take the base primes up to
  `ssiz = floor(sqrt(n)) + 1`. They then sweep the windows `[i, min(i + ssiz, n + 1))`
  for `i = ssiz, 2*ssiz, ...`, reusing one `ssiz`-long buffer.
  The first appends the survivors; the second only counts them.
- **`n_primes_(n)`** and **`nth_prime_(n)`** do the same with a window size computed
  from a floating-point estimate. They sweep without an upper bound until `n` primes are known.

Module `Primes` (`primes.dfy`) holds the reference definitions:
- `Divides` and `IsPrime`;
- `PrimesBelow(m)`, the ascending primes below `m`;
- `PrimesUpTo(n) = PrimesBelow(n + 1)`, whose length is pi(n);
- the facts the sieves rest on. A composite `k` has a prime factor `q` with `q*q <= k`.
  Raising the bound only appends. The first `n` primes do not depend on the bound used to list them.

Module `Sieve` (`sieve.dfy`) holds the routines as imperative methods over an `array<bool>` buffer.
Each result is built by appending to a `seq<int>`, or by bumping a counter.
The window-marking step is written once, as `MarkWindow`; the source repeats it inline in four routines.
Each routine is proved against `PrimesUpTo` / `PrimesBelow`. For example:
- `SimpleSieve(n)` and `SegmentedSieve(n)` both return exactly `PrimesUpTo(n)`, so they agree on every `n`.
- `CountPrimes(n)` returns its length.

The floating-point window size of `n_primes_` / `nth_prime_` is a parameter `w` here.
The caller must supply `w >= 2` with at least `n` primes below `w*w`.
That is what the estimate is meant to guarantee:
- For `n >= 6`, the Rosser–Schoenfeld bound `p_n < n (ln n + ln ln n)` gives it.
- For `n < 6`, the fixed `12` meets it (`SmallWindowSuffices`).

The same condition bounds the open-ended sweep. While fewer than `n` primes are known, the cursor is below `w*w`.

Every buffer write `sieve[k - i]` in `MarkWindow` is an array access that the verifier proves lies in `[0, sieve.Length)`,
and the buffer is `ssiz` (or `w`) long. So the index arithmetic never leaves the window.

The public members `nthPrime`, `countPrimes`, `simpleSieve`, `segmentedSieve` and `nPrimes` (sieve.cpp lines 33-56)
forward their argument unchanged to the private routines. The methods below model both layers.

Two details of the code are easy to miss:
- The whole-range sieve uses `i < sqrt(n + 1)`, modelled as `i*i < n + 1`.
  When `n + 1` is a perfect square, this leaves out `i = sqrt(n + 1)`.
- The first window starts at the base bound `ssiz` itself, not strictly above the base range.
  If `ssiz` is prime, it strikes itself in that window, so it is not emitted twice (`WindowSurvivorIsPrime`).

## Model

| member | source | states |
|---|---|---|
| `Primes.SmallPrimeFactor` | sieve.cpp:67-69 | a number >= 2 that is not prime has a prime factor whose square does not exceed it |
| `Primes.TrialDivisionPrime` | sieve.cpp:67-69 | k >= 2 is prime iff no d >= 2 with d*d <= k divides it, so striking from i*i suffices |
| `Primes.PrimesBelowMembers` | sieve.cpp:70-72 | the reference sequence holds exactly the primes below the bound |
| `Primes.PrimesBelowIncreasing` | sieve.cpp:70-72 | the reference sequence is strictly increasing (sorted, no duplicates) |
| `Primes.PrimesBelowPrefix` | sieve.cpp:101-103 | raising the bound only appends, so every prefix already produced stays sorted and prime |
| `Primes.NoPrimesBelowTwo` | sieve.cpp:61 | there are no primes up to n when n < 2 (the empty and zero results) |
| `Primes.FirstPrimesIndependent` | sieve.cpp:123-124 | the first n primes are the same whatever bound with at least n primes below it is used |
| `Primes.FirstPrimesAreAllUpToLast` | sieve.cpp:139-145 | the first n primes are exactly the primes up to the n-th prime |
| `Primes.FirstPrimesExtend` | sieve.cpp:109-148 | the first n primes are a prefix of the first n + 1 primes |
| `Primes.SmallPrimesTable` | sieve.cpp:59-75 | the primes up to 10 are 2, 3, 5, 7 and the primes below 14 are 2, 3, 5, 7, 11, 13 |
| `Sieve.Isqrt` | sieve.cpp:82 | the integer square root: r*r <= n < (r+1)*(r+1) |
| `Sieve.BaseBound` | sieve.cpp:82-88 | for n >= 2 the window size floor(sqrt(n)) + 1 is at least 2, at most n, and its square exceeds n |
| `Sieve.SieveExhausted` | sieve.cpp:67 | once every i with i*i < n + 1 has sieved, an unstruck index k >= 2 is prime and vice versa |
| `Sieve.StrikeStep` | sieve.cpp:68-69 | advancing the cursor j by i strikes j and no other index |
| `Sieve.StrikeDone` | sieve.cpp:67-69 | after index i has struck all its multiples from i*i, the unstruck indices are those with no divisor d <= i, d*d <= k |
| `Sieve.SimpleSieve` | sieve.cpp:59-75 | returns exactly the primes <= n in increasing order; empty when n < 2 |
| `Sieve.FirstMultipleAtLeast` | sieve.cpp:92-94 | lo is the smallest multiple of p at or above i: i <= lo < i + p, p divides lo, no multiple of p in [i, lo) |
| `Sieve.RoundDown` | sieve.cpp:92 | i rounded down to a multiple of p lies in (i - p, i] |
| `Sieve.MarkWindow` | sieve.cpp:90-98 | afterwards entry t of the window is true exactly when i + t is divisible by no base prime; entries past the window stay true |
| `Sieve.BasePositive` | sieve.cpp:83-84 | the base primes are positive, so dividing and stepping by them is defined |
| `Sieve.WindowSurvivorIsPrime` | sieve.cpp:90-103 | with the primes up to w as base, w <= k < w*w survives marking iff k is a prime above w (so a prime w is not emitted twice at the seam) |
| `Sieve.SweepStep` | sieve.cpp:101-103 | moving the sweep cursor past k appends k exactly when it survives marking |
| `Sieve.WindowEnd` | sieve.cpp:95-100 | the window end is clamped: never past n + 1, never longer than the buffer, and full length unless it is the last window |
| `Sieve.SegmentedSieve` | sieve.cpp:77-107 | returns exactly the primes <= n in increasing order, the same sequence as the whole-range sieve |
| `Sieve.CountPrimes` | sieve.cpp:150-180 | returns pi(n), the length of the segmented sieve's result; 0 when n < 2 |
| `Sieve.SmallWindowSuffices` | sieve.cpp:114-124 | for 1 <= n < 6 the fixed window 12 meets the window precondition and its base primes already number at least n |
| `Sieve.FirstPrimesMeaning` | sieve.cpp:109-148 | the first n primes are n values, strictly increasing, and exactly the primes up to the last of them |
| `Sieve.FirstSixPrimes` | sieve.cpp:182-221 | for any admissible window the first five primes are 2, 3, 5, 7, 11 and the sixth is 13 |
| `Sieve.BaseWithinSquare` | sieve.cpp:120-124 | the base primes up to w are a prefix of the primes below w*w |
| `Sieve.SweepBelowSquare` | sieve.cpp:128 | while fewer than n primes are known, the sweep cursor stays below w*w, which bounds the open-ended loop |
| `Sieve.NPrimes` | sieve.cpp:109-148 | returns the first n primes (length exactly n), taken from the base table when it suffices and stopping at the n-th prime otherwise; empty when n < 1 |
| `Sieve.NthPrime` | sieve.cpp:182-221 | returns the n-th prime, element n - 1 of the first n primes; -1 when n < 1 |

## Left out

- The floating-point window estimate `floor(sqrt(n log n + n log log n)) + 1` (sieve.cpp lines 115 and 189) is not computed.
  NPrimes and NthPrime take the window `w` as a parameter, with the precondition the estimate is meant to satisfy.
  The fixed value 12 for n < 6 is covered by a lemma.
- 32-bit `int` overflow in `i*i`, `i + ssiz`, the window end and the estimate: integers are unbounded.
  The source's callers must keep n small enough that none of these wrap.
- `new[]` / `delete[]`: each routine allocates one Dafny array and lets it go.
  The memory bound (one window-sized buffer) is kept, but deallocation is not modelled.
- The base primes are held in their own sequence. The source indexes the first `psiz` entries of the growing result vector.
  These are the same values, because the vector only grows by appending.
- The window end `hi` is computed once per window. The source recomputes the same value for each base prime.
- The public wrappers (sieve.cpp lines 33-56) are not separate members, because each only forwards its argument.
- `printArray`, `printVector` and the command-line driver in `main.cpp` are console I/O, argument parsing and timing.
- The header `sieve.hpp` only declares the class.
- The prime-gap table is not part of this model: no routine for it exists in these sources.
