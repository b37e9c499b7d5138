# Spiral Primes (Project Euler problem 58) in Dafny

The program builds the square number spiral that starts at 1 and winds
anticlockwise, one ring at a time. It returns the first side length at which
the share of primes among the numbers on both diagonals falls below a given
percentage. It has two parts, and the model has one module for each:

- `Primality` (`primality.dfy`) models `is_prime`. Trial division runs over
  d = 2, 3, ... while d * d <= x and answers "not prime" at the first divisor.
  It is proved equal to the reference predicate `IsPrime`: x > 1 and no d with
  2 <= d < x divides x.
- `Spiral` (`spiral.dfy`) models `main`. The method `SpiralSideLength`
  starts from the hard-coded spiral of side 3 (3 primes among 5 diagonal
  numbers). Each step adds 2 to the side s. It tests the ring's corners
  s*s - j*(s-1) with the two mod-3 shortcuts, never tests the bottom-right
  corner s*s, adds 4 to the total, and stops at the first side whose ratio is
  below pct%. The specification side is this:
  - `Diagonal(s)` is the sequence of diagonal numbers of the spiral of side s.
  - `CountPrimes` counts the primes in it.
  - `RatioBelow(s, pct)` is the exact integer test
    `CountPrimes(Diagonal(s)) * 100 < |Diagonal(s)| * pct`.

  The lemmas prove the three shortcuts sound for every s > 3, and show that
  the top-right shortcut is wrong at s = 3. They also prove that the loop's counters are the
  counts over the diagonals, and that the returned side is the first one that
  qualifies.

The comment at main.py:113-114 gives the top-right corner as `s*(s-2) + 2`.
The code computes `c - 3*d = s*s - 3*(s-1) = s*(s-3) + 3`, and the model
follows the code (`Corner(s, 3)`).

## Model

| member | source | states |
|---|---|---|
| `Primality.IsPrime` | main.py:29-35 | the reference meaning of "x is prime": x > 1 and no d with 2 <= d < x divides x |
| `Primality.IsPrimeTrial` | main.py:27-45 | for x > 1, trial division while d * d <= x returns true exactly when no d with 2 <= d < x divides x |
| `Primality.TrialDivisionSuffices` | main.py:41-44 | for x > 1, x is prime exactly when no d >= 2 with d * d <= x divides it, so the divisors up to the integer square root decide |
| `Primality.SmallDivisor` | main.py:41-42 | every proper divisor e of x has a partner divisor f with 2 <= f <= e and f * f <= x |
| `Spiral.Corner` | main.py:86-121 | corner j of the ring of side s is `c - j*d` with c = s*s and d = s - 1; the bottom-right corner (j = 0) is the odd square s*s |
| `Spiral.ShortcutCount` | main.py:101-121 | the sum one loop step adds to `primes`: bottom-left unless s % 3 == 2, top-left always, top-right unless s % 3 == 0, so at most 3 |
| `Spiral.PrimeBelowFortyNine` | main.py:41-44 | an odd x with 1 < x < 49 and no divisor 3 or 5 is prime, since trial division only tries d with d * d <= x |
| `Spiral.RingsFiveAndSeven` | main.py:5-17 | the rings of side 5 and 7 have corners 25, 21, 17, 13 (2 prime) and 49, 43, 37, 31 (3 prime) |
| `Spiral.DiagonalSeven` | main.py:5-13 | the diagonal numbers of the spiral of side 7 are 1, 9, 7, 5, 3, 25, 21, 17, 13, 49, 43, 37, 31, as in the drawn spiral |
| `Spiral.SideSevenExample` | main.py:5-17 | 8 of the 13 diagonal numbers of the spiral of side 7 (listed by `DiagonalSeven`) are prime, the ratio 8/13 of the problem statement |
| `Spiral.Ring` | main.py:82-121 | the four corners of the ring of side s, the bottom-right one s*s first |
| `Spiral.Indicator` | main.py:101-121 | a bool added to an int counts 1 exactly when it is true and 0 otherwise |
| `Spiral.Below` | main.py:71-124 | the exact form of `primes / total < pct / 100`: `primes * 100 < total * pct` |
| `Spiral.RatioBelow` | main.py:71-124 | the share of primes on the diagonals of the spiral of side s is below pct% |
| `Spiral.Diagonal` | main.py:68-70 | the spiral of side s has 2s - 1 diagonal numbers, the first being the centre 1 |
| `Spiral.CountPrimes` | main.py:69-70 | the number of primes among the diagonal numbers never exceeds their number (primes <= total) |
| `Spiral.CountPrimesAppend` | main.py:101-121 | the prime count of two sequences joined is the sum of their counts, so the count can be kept ring by ring |
| `Spiral.DiagonalAt` | main.py:76-121 | element 0 of the diagonals is 1, and element i >= 1 is corner (i-1) % 4 of the ring of side 2*((i-1)/4) + 3, that is k*k - j*(k-1) |
| `Spiral.CornerBounds` | main.py:86-121 | from side 3 on the four corners strictly decrease clockwise from the bottom-right (they rise by s - 1 at each step anticlockwise from the top-right) and the smallest is at least 3, so every tested corner meets is_prime's x > 1 |
| `Spiral.BottomRightNeverPrime` | main.py:82-86 | the bottom-right corner s*s is not prime for s >= 2, so never testing it loses nothing |
| `Spiral.BottomLeftShortcut` | main.py:88-101 | when s % 3 == 2 and s > 2, the bottom-left corner s*s - (s-1) is a multiple of 3 greater than 3 and so not prime |
| `Spiral.TopRightShortcut` | main.py:111-121 | when s % 3 == 0 and s > 3, the top-right corner s*s - 3(s-1) is a multiple of 3 greater than 3 and so not prime |
| `Spiral.ShortcutSound` | main.py:101-121 | for every s > 3, the shortcut count of one step (bottom-right never, bottom-left unless s % 3 == 2, top-left always, top-right unless s % 3 == 0) equals the number of primes among the ring's four corners |
| `Spiral.ShortcutWrongAtThree` | main.py:119-120 | at s = 3 the top-right corner is the prime 3, and the shortcuts would count 2 primes where the ring has 3, which is why the loop starts after side 3 |
| `Spiral.SmallPrimes` | main.py:69 | 3, 5 and 7 are prime and 9 is not |
| `Spiral.DiagonalThree` | main.py:66-70 | the diagonal numbers of the spiral of side 3 are 1, 9, 7, 5, 3 |
| `Spiral.BaseCase` | main.py:66-70 | the spiral of side 3 has 5 diagonal numbers, of which 3 are prime, matching the initial `primes = 3`, `total = 5` |
| `Spiral.BaseRatio` | main.py:71-72 | side 3 is below pct% exactly when pct > 60 (3 * 100 < 5 * pct) |
| `Spiral.RingStep` | main.py:101-123 | the prime count of the spiral of side s is that of side s - 2 plus that of ring s |
| `Spiral.RatioOfCounts` | main.py:124 | a definitional bridge used by the loop proof: with counters equal to the counts for side s, the loop's test `primes * 100 < total * pct` is `RatioBelow(s, pct)` unfolded |
| `Spiral.NoneBelowThroughAll` | main.py:124-125 | the loop's record that no earlier side stopped holds exactly when no odd side 3..s is below pct% |
| `Spiral.EarlierSidesNotBelow` | main.py:124-125 | when the search reaches side s, no odd side 3..s-2 is below pct% |
| `Spiral.NoneBelowUpTo` | main.py:75-125 | when the search runs out of room at side s, no odd side 3..maxSide is below pct% |
| `Spiral.RingPrimes` | main.py:76-121 | one loop step with its shortcuts and up to three is_prime calls (Python's `and` skips the call when the shortcut applies) adds exactly the number of primes among the four corners of ring s |
| `Spiral.SpiralSideLength` | main.py:48-125 | for 0 < pct <= 100 it returns an odd s >= 3 that is below pct% and all of whose earlier odd sides from 3 are not (s is the first); it returns 3 exactly when pct > 60; None only when no odd side 3..maxSide qualifies |

## Left out

- Spiral.SpiralSideLength: the source's `while True` loop has no bound. Its termination depends on the density of primes on the diagonals tending to zero, which is not proved here. The method takes a side-length bound `maxSide` and returns `None` when no side up to it qualifies. Side 3 is tried whatever the bound. The source instead runs until it finds an answer.
- The floating-point `floor(sqrt(x)) + 1` bound in `is_prime` is modelled as the exact integer test `d * d <= x`. Rounding of `sqrt` for very large x is not modelled.
- The float division `pct /= 100` and `primes / total < pct` are modelled as the exact integer comparison `primes * 100 < total * pct`. Both float divisions are correctly rounded, so at an exact tie (primes / total equal to pct / 100) both sides are the same double and the source's `<` is false, as the model's is. The two can only differ when two different ratios round to the same double: the source then says "not below" where the model says "below". That needs 1 / (100 * total) to be smaller than one rounding step, that is a total of about 10^14 or more, and is not modelled.
- The runtime type checks `type(x) == int` and `type(pct) == int` are covered by Dafny's `int` parameters. The range checks `x > 1` and `0 < pct <= 100` are the methods' preconditions, as in the source's asserts.
- The command-line block (`input`, `int()` parsing, `print` formatting) is I/O and is not part of this model.
- Concrete answers such as the side length 26241 for 10% are not proved. Reaching them needs a long computation rather than a proof.
- The three bottom-left, top-left and top-right updates of `primes`, written inline in the source's loop, are gathered in the method `RingPrimes`, which runs them in the same order.
