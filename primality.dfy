/** Primality by trial division, as used for the corners of the spiral. */
module Primality {

  /** d divides x. */
  predicate Divides(d: int, x: int)
    requires d != 0
  {
    x % d == 0
  }

  /** The reference definition: x > 1 and no d with 2 <= d < x divides x. */
  predicate IsPrime(x: int)
  {
    x > 1 && forall d :: 2 <= d < x ==> !Divides(d, x)
  }

  /** b * k >= b for positive b and k. */
  lemma MulAtLeast(b: int, k: int)
    requires b > 0 && k >= 1
    ensures b * k >= b
  {
  }

  /** b * k <= b for positive b and k <= 1. */
  lemma MulAtMostSelf(b: int, k: int)
    requires b > 0 && k <= 1
    ensures b * k <= b
  {
  }

  /** Every multiple of b is divisible by b. */
  lemma MultipleDivides(a: int, b: int)
    requires b > 0
    ensures Divides(b, a * b)
  {
    var q, r := (a * b) / b, (a * b) % b;
    assert a * b == b * q + r && 0 <= r < b;
    var k := a - q;
    assert b * k == r;
    if k >= 1 {
      MulAtLeast(b, k);
    } else if k <= -1 {
      MulAtLeast(b, -k);
    }
  }

  /** Squaring is monotone on non-negative integers. */
  lemma SquareLe(a: int, b: int)
    requires 0 <= a <= b
    ensures a * a <= b * b
  {
    assert a * a <= a * b;
  }

  /** Any proper divisor e of x has a partner divisor whose square is at most x:
      either e itself or x / e. */
  lemma SmallDivisor(x: int, e: int) returns (f: int)
    requires 2 <= e < x && Divides(e, x)
    ensures 2 <= f <= e && f * f <= x && Divides(f, x)
  {
    var q := x / e;
    assert x == e * q;
    if q <= 1 {
      MulAtMostSelf(e, q);
    }
    if e * e <= x {
      f := e;
    } else {
      if e <= q {
        SquareLe(e, q);
      }
      assert q * q <= e * q;
      MultipleDivides(e, q);
      f := q;
    }
  }

  /** Trial division up to the integer square root decides primality. */
  lemma TrialDivisionSuffices(x: int)
    requires x > 1
    ensures IsPrime(x) <==> forall d :: 2 <= d && d * d <= x ==> !Divides(d, x)
  {
    if forall d :: 2 <= d && d * d <= x ==> !Divides(d, x) {
      forall e | 2 <= e < x
        ensures !Divides(e, x)
      {
        if Divides(e, x) {
          var f := SmallDivisor(x, e);
        }
      }
    } else {
      var d :| 2 <= d && d * d <= x && Divides(d, x);
      assert d < x by {
        assert d * d >= 2 * d;
      }
    }
  }

  /** The trial-division test: tries every d from 2 while d * d <= x and
      reports "not prime" at the first divisor found. */
  method IsPrimeTrial(x: int) returns (b: bool)
    requires x > 1
    ensures b == IsPrime(x)
  {
    var d := 2;
    while d * d <= x
      invariant 2 <= d <= x
      invariant forall e :: 2 <= e < d ==> !Divides(e, x)
      decreases x - d
    {
      if x % d == 0 {
        assert Divides(d, x);
        assert d < x by {
          assert d * d >= 2 * d;
        }
        return false;
      }
      assert d + 1 <= x by {
        assert d * d >= 2 * d;
      }
      d := d + 1;
    }
    forall e | 2 <= e < x
      ensures !Divides(e, x)
    {
      if Divides(e, x) {
        var f := SmallDivisor(x, e);
        if d <= f {
          SquareLe(d, f);
        }
      }
    }
    return true;
  }
}
