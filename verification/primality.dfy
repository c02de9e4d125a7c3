/** The launch check that rejects a prime number of workers (isPrime). */
module Primality {
  import Layout

  /** d is a positive divisor of n. */
  predicate Divides(d: int, n: int) {
    d > 0 && n % d == 0
  }

  /** The mathematical notion the check is meant to decide. */
  predicate Prime(n: int) {
    n >= 2 && forall d :: 2 <= d < n ==> !Divides(d, n)
  }

  /** isPrime: 1 is not prime, 2 is, other even numbers are not, and an odd n is
      prime when trial division by 3, 5, 7, ... while i*i <= n finds no divisor.
      For n <= 0 the branches still run: 0 is even, and a negative odd n skips
      the loop (9 > n) and is reported prime. */
  function IsPrime(n: int): (r: bool)
    ensures n >= 1 ==> (r <==> Prime(n))
    ensures n <= 0 ==> (r <==> n % 2 == 1)
  {
    if n == 1 then false
    else if n == 2 then true
    else if n % 2 == 0 then
      if n > 2 then
        EvenNotPrime(n);
        false
      else
        false
    else
      var r := TrialDivision(n, 3);
      if n >= 3 then
        OddPrimeByTrial(n);
        r
      else
        assert forall d :: 3 <= d ==> d * d > n by {
          SquareGrows(3, n);
        }
        r
  }

  /** The trial-division loop from divisor i on: true when no odd d >= i with
      d*d <= n divides n. */
  function TrialDivision(n: int, i: int): (r: bool)
    requires i >= 3 && i % 2 == 1
    ensures r <==> forall d :: i <= d && d * d <= n && d % 2 == 1 ==> !Divides(d, n)
    decreases n - i
  {
    if i * i > n then
      SquareGrows(i, n);
      true
    else if n % i == 0 then
      assert Divides(i, n);
      false
    else
      assert i <= i * i;
      var r := TrialDivision(n, i + 2);
      assert forall d :: i <= d && d % 2 == 1 ==> d == i || i + 2 <= d;
      r
  }

  /** Once i*i exceeds n, so does d*d for every d >= i. */
  lemma SquareGrows(i: int, n: int)
    requires i >= 3 && i * i > n
    ensures forall d :: i <= d ==> d * d > n
  {
    forall d | i <= d
      ensures d * d > n
    {
      assert d * d >= i * d >= i * i;
    }
  }

  /** An even n > 2 has the divisor 2. */
  lemma EvenNotPrime(n: int)
    requires n > 2 && n % 2 == 0
    ensures !Prime(n)
  {
    assert Divides(2, n);
  }

  /** For odd n >= 3, primality is decided by odd divisors d >= 3 with d*d <= n. */
  lemma OddPrimeByTrial(n: int)
    requires n >= 3 && n % 2 == 1
    ensures Prime(n) <==> forall d :: 3 <= d && d * d <= n && d % 2 == 1 ==> !Divides(d, n)
  {
    if !Prime(n) {
      var d :| 2 <= d < n && Divides(d, n);
      var e := SmallOddDivisor(n, d);
      assert 3 <= e && e * e <= n && e % 2 == 1 && Divides(e, n);
    }
    forall d | 3 <= d && d * d <= n && d % 2 == 1
      ensures d < n
    {
      assert d * d >= 3 * d;
    }
  }

  /** A divisor strictly between 1 and an odd n yields an odd divisor e >= 3 with e*e <= n. */
  lemma SmallOddDivisor(n: int, d: int) returns (e: int)
    requires n >= 3 && n % 2 == 1 && 2 <= d < n && Divides(d, n)
    ensures 3 <= e && e * e <= n && e % 2 == 1 && Divides(e, n)
  {
    var q := n / d;
    assert n == d * q;
    OddFactors(d, q);
    QuotientAtLeastTwo(d, q);
    DividesProduct(q, d);
    if d <= q {
      e := d;
      assert d * d <= d * q;
    } else {
      e := q;
      assert q * q <= q * d;
    }
  }

  /** If d*q is odd, both factors are odd. */
  lemma OddFactors(d: int, q: int)
    requires d > 0 && (d * q) % 2 == 1
    ensures d % 2 == 1 && q % 2 == 1
  {
    var a, b := d / 2, q / 2;
    assert d == 2 * a + d % 2;
    assert q == 2 * b + q % 2;
    assert d * q == 2 * (2 * a * b + a * (q % 2) + b * (d % 2)) + (d % 2) * (q % 2);
  }

  /** The cofactor of a divisor d >= 2 of a number larger than d is at least 2. */
  lemma QuotientAtLeastTwo(d: int, q: int)
    requires 2 <= d && d * q > d
    ensures q >= 2
  {
    assert d * (q - 1) > 0;
    Layout.MulSign(q - 1, d);
  }

  /** q divides q*d. */
  lemma DividesProduct(q: int, d: int)
    requires q > 0
    ensures Divides(q, d * q)
  {
    Layout.CellOfOffset(d, 0, q);
  }
}
