/** The square number spiral, its diagonals, and the search for the first
    side length at which the share of primes on the diagonals drops below
    a given percentage. */
module Spiral {
  import opened Primality

  datatype Option<T> = None | Some(value: T)

  /** A side length of the spiral: odd and at least 1. */
  predicate IsSide(s: int)
  {
    s >= 1 && s % 2 == 1
  }

  /** Corner j (0 bottom-right, 1 bottom-left, 2 top-left, 3 top-right) of the
      ring of side s: going clockwise from the bottom-right, each corner is s - 1
      below the last (the spiral itself winds anticlockwise, upwards). */
  function Corner(s: int, j: int): (r: int)
    ensures j == 0 ==> r == s * s
  {
    s * s - j * (s - 1)
  }

  /** The four corners of the ring of side s, bottom-right first. */
  function Ring(s: int): (r: seq<int>)
    ensures |r| == 4 && r[0] == s * s
  {
    [Corner(s, 0), Corner(s, 1), Corner(s, 2), Corner(s, 3)]
  }

  /** The numbers on both diagonals of the spiral of side s: the centre 1,
      then the corners of the rings of side 3, 5, ..., s. */
  function Diagonal(s: int): (r: seq<int>)
    requires IsSide(s)
    ensures |r| == 2 * s - 1
    ensures r[0] == 1
    decreases s
  {
    if s == 1 then [1] else Diagonal(s - 2) + Ring(s)
  }

  /** How many elements of xs are prime. */
  function CountPrimes(xs: seq<int>): (n: nat)
    ensures n <= |xs|
  {
    if xs == [] then 0
    else Indicator(IsPrime(xs[0])) + CountPrimes(xs[1..])
  }

  /** A boolean counted as 0 or 1, as Python adds a bool to an int. */
  function Indicator(b: bool): (n: nat)
    ensures n <= 1 && (n == 1 <==> b)
  {
    if b then 1 else 0
  }

  /** The exact form of "primes / total < pct / 100", for total > 0. */
  predicate Below(primes: int, total: int, pct: int)
  {
    primes * 100 < total * pct
  }

  /** The share of primes on the diagonals of the spiral of side s is below pct%. */
  predicate RatioBelow(s: int, pct: int)
    requires IsSide(s)
  {
    Below(CountPrimes(Diagonal(s)), |Diagonal(s)|, pct)
  }

  /** No side length 3, 5, ..., s has its share of primes below pct%. */
  predicate NoneBelowThrough(s: int, pct: int)
    requires IsSide(s)
    decreases s
  {
    s < 3 || (!RatioBelow(s, pct) && NoneBelowThrough(s - 2, pct))
  }

  /** What one loop step adds to the prime count for the ring of side s:
      the bottom-right corner is never tested, the bottom-left corner is skipped
      when s % 3 == 2 and the top-right corner when s % 3 == 0. */
  function ShortcutCount(s: int): (n: nat)
    ensures n <= 3
  {
    Indicator(s % 3 != 2 && IsPrime(Corner(s, 1)))
    + Indicator(IsPrime(Corner(s, 2)))
    + Indicator(s % 3 != 0 && IsPrime(Corner(s, 3)))
  }

  // ---------------------------------------------------------------------------
  // Facts about the corners

  /** From side 3 on the corners are strictly decreasing clockwise and the
      smallest, the top-right one, is at least 3. */
  lemma CornerBounds(s: int)
    requires s >= 3
    ensures Corner(s, 3) >= 3
    ensures Corner(s, 3) < Corner(s, 2) < Corner(s, 1) < Corner(s, 0)
  {
  }

  /** The bottom-right corner s * s is never prime for s >= 2. */
  lemma BottomRightNeverPrime(s: int)
    requires s >= 2
    ensures !IsPrime(Corner(s, 0))
  {
    assert Corner(s, 0) == s * s;
    MultipleDivides(s, s);
    MulAtLeast(s, s);
    assert s < s * s;
  }

  /** When s % 3 == 2 (and s > 2), the bottom-left corner is a multiple of 3
      above 3, so it is not prime. */
  lemma BottomLeftShortcut(s: int)
    requires s > 2 && s % 3 == 2
    ensures Corner(s, 1) % 3 == 0 && Corner(s, 1) > 3
    ensures !IsPrime(Corner(s, 1))
  {
    var q := s / 3;
    assert s == 3 * q + 2;
    assert q >= 1;
    var m := 3 * q * q + 3 * q + 1;
    assert Corner(s, 1) == s * s - s + 1;
    assert Corner(s, 1) == m * 3;
    MultipleDivides(m, 3);
    MulAtLeast(3 * q, q);
    assert m >= 7;
  }

  /** When s % 3 == 0 and s > 3, the top-right corner is a multiple of 3
      above 3, so it is not prime. */
  lemma TopRightShortcut(s: int)
    requires s > 3 && s % 3 == 0
    ensures Corner(s, 3) % 3 == 0 && Corner(s, 3) > 3
    ensures !IsPrime(Corner(s, 3))
  {
    var q := s / 3;
    assert s == 3 * q;
    assert q >= 2;
    var m := 3 * q * q - 3 * q + 1;
    assert Corner(s, 3) == s * s - 3 * s + 3;
    assert Corner(s, 3) == m * 3;
    MultipleDivides(m, 3);
    MulAtLeast(3 * q, q - 1);
    assert m >= 7;
  }

  /** 3, 5 and 7 are prime and 9 is not. */
  lemma SmallPrimes()
    ensures IsPrime(3) && IsPrime(5) && IsPrime(7) && !IsPrime(9)
  {
    forall d | 2 <= d < 7
      ensures !Divides(d, 7)
    {
      assert d == 2 || d == 3 || d == 4 || d == 5 || d == 6;
    }
    forall d | 2 <= d < 5
      ensures !Divides(d, 5)
    {
      assert d == 2 || d == 3 || d == 4;
    }
    forall d | 2 <= d < 3
      ensures !Divides(d, 3)
    {
      assert d == 2;
    }
    assert Divides(3, 9);
  }

  /** The top-right shortcut is wrong at s = 3, whose top-right corner is the
      prime 3: the loop must start after the ring of side 3. */
  lemma ShortcutWrongAtThree()
    ensures Corner(3, 3) == 3 && IsPrime(Corner(3, 3))
    ensures ShortcutCount(3) == 2 && CountPrimes(Ring(3)) == 3
  {
    SmallPrimes();
    assert Corner(3, 3) == 3;
    ShortcutCountAtThree();
    RingThreeCount();
  }

  /** The shortcuts at s = 3 count only 7 and 5. */
  lemma ShortcutCountAtThree()
    ensures ShortcutCount(3) == 2
  {
    SmallPrimes();
    assert Corner(3, 1) == 7 && Corner(3, 2) == 5;
    assert 3 % 3 == 0;
  }

  /** Three of the corners 9, 7, 5, 3 of the ring of side 3 are prime. */
  lemma RingThreeCount()
    ensures Ring(3) == [9, 7, 5, 3] && CountPrimes(Ring(3)) == 3
  {
    SmallPrimes();
    assert Corner(3, 0) == 9 && Corner(3, 1) == 7 && Corner(3, 2) == 5 && Corner(3, 3) == 3;
    CountRing(3);
  }

  /** CountPrimes of four values, one by one. */
  lemma CountFour(a: int, b: int, c: int, d: int)
    ensures CountPrimes([a, b, c, d])
            == Indicator(IsPrime(a)) + Indicator(IsPrime(b)) + Indicator(IsPrime(c)) + Indicator(IsPrime(d))
  {
    assert [d][1..] == [];
    assert CountPrimes([d]) == Indicator(IsPrime(d));
    assert [c, d][1..] == [d];
    assert CountPrimes([c, d]) == Indicator(IsPrime(c)) + CountPrimes([d]);
    assert [b, c, d][1..] == [c, d];
    assert CountPrimes([b, c, d]) == Indicator(IsPrime(b)) + CountPrimes([c, d]);
    assert [a, b, c, d][1..] == [b, c, d];
  }

  /** CountPrimes of a ring, corner by corner. */
  lemma CountRing(s: int)
    ensures CountPrimes(Ring(s)) == Indicator(IsPrime(Corner(s, 0))) + Indicator(IsPrime(Corner(s, 1)))
                                    + Indicator(IsPrime(Corner(s, 2))) + Indicator(IsPrime(Corner(s, 3)))
  {
    CountFour(Corner(s, 0), Corner(s, 1), Corner(s, 2), Corner(s, 3));
  }

  /** For every s > 3 the shortcuts of one loop step count exactly the primes
      among the four corners of the ring. */
  lemma ShortcutSound(s: int)
    requires s > 3
    ensures ShortcutCount(s) == CountPrimes(Ring(s))
  {
    CountRing(s);
    BottomRightNeverPrime(s);
    if s % 3 == 2 {
      BottomLeftShortcut(s);
    }
    if s % 3 == 0 {
      TopRightShortcut(s);
    }
  }

  // ---------------------------------------------------------------------------
  // Facts about the diagonals

  /** Counting primes distributes over concatenation. */
  lemma {:induction false} CountPrimesAppend(a: seq<int>, b: seq<int>)
    ensures CountPrimes(a + b) == CountPrimes(a) + CountPrimes(b)
    decreases |a|
  {
    if a == [] {
      assert a + b == b;
    } else {
      assert (a + b)[1..] == a[1..] + b;
      CountPrimesAppend(a[1..], b);
    }
  }

  /** The position of every diagonal value: index 0 is the centre, and index
      i >= 1 is corner (i - 1) % 4 of the ring of side 2 * ((i - 1) / 4) + 3. */
  lemma {:induction false} DiagonalAt(s: int, i: int)
    requires IsSide(s) && 0 <= i < 2 * s - 1
    ensures Diagonal(s)[i] == if i == 0 then 1 else Corner(2 * ((i - 1) / 4) + 3, (i - 1) % 4)
    decreases s
  {
    if s > 1 {
      var n := 2 * (s - 2) - 1;
      if i < n {
        DiagonalAt(s - 2, i);
      } else {
        var j := i - n;
        assert 0 <= j < 4;
        assert i - 1 == 4 * ((s - 3) / 2) + j;
        assert (i - 1) / 4 == (s - 3) / 2 && (i - 1) % 4 == j;
        assert Diagonal(s)[i] == Ring(s)[j];
      }
    }
  }

  /** The diagonals of the spiral of side 3 are 1, 9, 7, 5, 3. */
  lemma DiagonalThree()
    ensures Diagonal(3) == [1, 9, 7, 5, 3]
  {
    assert Diagonal(1) == [1];
    assert Diagonal(3) == Diagonal(1) + Ring(3);
    assert Ring(3) == [9, 7, 5, 3];
  }

  /** Three of the five diagonal values of the spiral of side 3 are prime. */
  lemma BaseCase()
    ensures |Diagonal(3)| == 5 && CountPrimes(Diagonal(3)) == 3
  {
    DiagonalThree();
    assert [1, 9, 7, 5, 3][1..] == [9, 7, 5, 3];
    SmallPrimes();
    CountFour(9, 7, 5, 3);
  }

  /** An odd x below 49 with no divisor 3 or 5 is prime: its only candidate
      divisors d with d * d <= x are 2 to 6. */
  lemma PrimeBelowFortyNine(x: int)
    requires 1 < x < 49 && x % 2 != 0 && x % 3 != 0 && x % 5 != 0
    ensures IsPrime(x)
  {
    TrialDivisionSuffices(x);
    forall d | 2 <= d && d * d <= x
      ensures !Divides(d, x)
    {
      if d >= 7 {
        SquareLe(7, d);
      }
      assert d == 2 || d == 3 || d == 4 || d == 5 || d == 6;
    }
  }

  /** The corners of the rings of side 5 and 7 are 25, 21, 17, 13 and
      49, 43, 37, 31; five of the eight are prime. */
  lemma RingsFiveAndSeven()
    ensures Ring(5) == [25, 21, 17, 13] && CountPrimes(Ring(5)) == 2
    ensures Ring(7) == [49, 43, 37, 31] && CountPrimes(Ring(7)) == 3
  {
    assert Corner(5, 1) == 21 && Corner(5, 2) == 17 && Corner(5, 3) == 13;
    assert Corner(7, 1) == 43 && Corner(7, 2) == 37 && Corner(7, 3) == 31;
    PrimeBelowFortyNine(13);
    PrimeBelowFortyNine(17);
    PrimeBelowFortyNine(31);
    PrimeBelowFortyNine(37);
    PrimeBelowFortyNine(43);
    assert Divides(5, 25) && Divides(3, 21) && Divides(7, 49);
    assert CountPrimes(Ring(5)) == 2 by {
      CountRing(5);
    }
    assert CountPrimes(Ring(7)) == 3 by {
      CountRing(7);
    }
  }

  /** The diagonals of the spiral of side 7, ring by ring. */
  lemma DiagonalSeven()
    ensures Diagonal(7) == [1, 9, 7, 5, 3, 25, 21, 17, 13, 49, 43, 37, 31]
  {
    DiagonalThree();
    assert Ring(5) == [25, 21, 17, 13];
    assert Ring(7) == [49, 43, 37, 31];
    assert Diagonal(5) == [1, 9, 7, 5, 3] + [25, 21, 17, 13];
    assert Diagonal(7) == Diagonal(5) + [49, 43, 37, 31];
  }

  /** The spiral of side 7 drawn as the example of the problem: its 13
      diagonal numbers, 8 of which are prime. */
  lemma SideSevenExample()
    ensures CountPrimes(Diagonal(7)) == 8
  {
    DiagonalSeven();
    RingsFiveAndSeven();
    BaseCase();
    RingStep(5);
    RingStep(7);
  }

  /** The ratio 3/5 at side 3 is below pct% exactly when pct > 60. */
  lemma BaseRatio(pct: int)
    ensures RatioBelow(3, pct) <==> 60 < pct
  {
    BaseCase();
  }

  /** The spiral of side s adds the primes of the ring of side s to those of
      the spiral of side s - 2. */
  lemma RingStep(s: int)
    requires IsSide(s) && s >= 3
    ensures CountPrimes(Diagonal(s)) == CountPrimes(Diagonal(s - 2)) + CountPrimes(Ring(s))
  {
    CountPrimesAppend(Diagonal(s - 2), Ring(s));
  }

  /** Two odd side lengths k <= s are equal or at least 2 apart. */
  lemma SideGap(k: int, s: int)
    requires IsSide(k) && IsSide(s) && k <= s
    ensures k == s || k <= s - 2
  {
  }

  /** NoneBelowThrough(s, pct) says of every odd side from 3 to s that its
      share of primes is not below pct%. */
  lemma {:induction false} NoneBelowThroughAll(s: int, pct: int)
    requires IsSide(s)
    ensures NoneBelowThrough(s, pct) <==> forall k :: 3 <= k <= s && IsSide(k) ==> !RatioBelow(k, pct)
    decreases s
  {
    if s >= 3 {
      NoneBelowThroughAll(s - 2, pct);
      forall k | 3 <= k <= s && IsSide(k)
        ensures k == s || k <= s - 2
      {
        SideGap(k, s);
      }
    }
  }

  /** With the loop's counts for side s, its integer test is exactly the
      statement that the share of primes on the diagonals is below pct%. */
  lemma RatioOfCounts(s: int, primes: int, total: int, pct: int)
    requires IsSide(s)
    requires primes == CountPrimes(Diagonal(s)) && total == 2 * s - 1
    ensures RatioBelow(s, pct) <==> primes * 100 < total * pct
  {
  }

  /** When no side up to s - 2 qualifies, every side before s is not below pct%. */
  lemma EarlierSidesNotBelow(s: int, pct: int)
    requires IsSide(s) && s >= 3
    requires NoneBelowThrough(s - 2, pct)
    ensures forall k :: 3 <= k < s && IsSide(k) ==> !RatioBelow(k, pct)
  {
    NoneBelowThroughAll(s - 2, pct);
    forall k | 3 <= k < s && IsSide(k)
      ensures k <= s - 2
    {
      SideGap(k, s);
    }
  }

  /** When the search stops at side s for lack of room below maxSide, no
      side up to maxSide qualifies. */
  lemma NoneBelowUpTo(s: int, maxSide: int, pct: int)
    requires IsSide(s) && maxSide < s + 2
    requires NoneBelowThrough(s, pct)
    ensures forall k :: 3 <= k <= maxSide && IsSide(k) ==> !RatioBelow(k, pct)
  {
    NoneBelowThroughAll(s, pct);
    forall k | 3 <= k <= maxSide && IsSide(k)
      ensures k <= s
    {
      if k > s {
        SideGap(s, k);
      }
    }
  }

  // ---------------------------------------------------------------------------
  // The search

  /** The primes one loop step finds on the ring of side s: the bottom-right
      corner is never tested, the bottom-left one only when s % 3 != 2, the
      top-left one always and the top-right one only when s % 3 != 0. */
  method RingPrimes(s: int) returns (added: nat)
    requires s > 3
    ensures added == CountPrimes(Ring(s))
  {
    var d := s - 1;
    var c := s * s;
    CornerBounds(s);
    assert c - d == Corner(s, 1) && c - 2 * d == Corner(s, 2) && c - 3 * d == Corner(s, 3);

    var bottomLeft := false;
    if s % 3 != 2 {
      bottomLeft := IsPrimeTrial(c - d);
    }
    var topLeft := IsPrimeTrial(c - 2 * d);
    var topRight := false;
    if s % 3 != 0 {
      topRight := IsPrimeTrial(c - 3 * d);
    }
    added := Indicator(bottomLeft) + Indicator(topLeft) + Indicator(topRight);
    ShortcutSound(s);
  }

  /** Returns the first odd side length s >= 3 at which the share of primes on
      both diagonals is below pct%. The side length 3 is tried first, then the
      rings of side 5, 7, ... up to maxSide; None when none of them qualifies. */
  method SpiralSideLength(pct: int, maxSide: int) returns (r: Option<int>)
    requires 0 < pct <= 100
    ensures r.Some? ==> IsSide(r.value) && r.value >= 3
    ensures r.Some? ==> RatioBelow(r.value, pct)
    ensures r.Some? ==> forall k :: 3 <= k < r.value && IsSide(k) ==> !RatioBelow(k, pct)
    ensures r.Some? ==> r.value == 3 || r.value <= maxSide
    ensures r.None? ==> !RatioBelow(3, pct)
    ensures r.None? ==> forall k :: 3 <= k <= maxSide && IsSide(k) ==> !RatioBelow(k, pct)
    ensures r == Some(3) <==> 60 < pct
  {
    var s := 3;
    var primes := 3;
    var total := 5;
    BaseCase();
    BaseRatio(pct);
    if primes * 100 < total * pct {
      return Some(s);
    }
    assert NoneBelowThrough(1, pct);

    while s + 2 <= maxSide
      invariant IsSide(s) && s >= 3
      invariant total == 2 * s - 1
      invariant primes == CountPrimes(Diagonal(s))
      invariant NoneBelowThrough(s, pct)
      decreases maxSide - s
    {
      s := s + 2;
      assert IsSide(s);
      var added := RingPrimes(s);
      primes := primes + added;
      total := total + 4;

      RingStep(s);
      RatioOfCounts(s, primes, total, pct);
      if primes * 100 < total * pct {
        EarlierSidesNotBelow(s, pct);
        return Some(s);
      }
    }
    NoneBelowUpTo(s, maxSide, pct);
    return None;
  }
}
