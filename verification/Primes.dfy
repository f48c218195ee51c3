/**
 * The number theory behind the sample task: least divisors, the square root bound, and that there is always another
 * prime.
 */
module Primes {

  predicate Divides(d: int, n: int)
    requires d != 0
  {
    n % d == 0
  }

  /** At least two, and nothing from 2 to n - 1 divides it. */
  ghost predicate IsPrimeNumber(n: int) {
    n >= 2 && forall d :: 2 <= d < n ==> !Divides(d, n)
  }

  lemma DividesProduct(a: int, b: int)
    requires b != 0
    ensures Divides(b, a * b) && Divides(b, b * a)
  {
    DivModOf(a, 0, b);
  }

  /** Division with remainder is unique. */
  lemma DivModOf(q: int, r: int, b: int)
    requires b != 0
    requires 0 <= r < if b < 0 then -b else b
    ensures (q * b + r) / b == q && (q * b + r) % b == r
  {
    var n := q * b + r;
    var q', r' := n / b, n % b;
    assert n == q' * b + r' by { assert n == b * q' + r'; }
    assert (q - q') * b == r' - r;
    if q != q' {
      SmallMultiple(q - q', b);
    }
  }

  lemma SmallMultiple(k: int, b: int)
    requires k != 0 && b != 0
    ensures k * b >= (if b < 0 then -b else b) || k * b <= (if b < 0 then b else -b)
  {}

  lemma Transitive(a: int, b: int, n: int)
    requires a != 0 && b != 0 && Divides(a, b) && Divides(b, n)
    ensures Divides(a, n)
  {
    var k, l := b / a, n / b;
    assert n == (k * l) * a;
    DividesProduct(k * l, a);
  }

  lemma DividesSum(d: int, a: int, b: int)
    requires d != 0 && Divides(d, a) && Divides(d, b)
    ensures Divides(d, a + b) && Divides(d, a - b)
  {
    var k, l := a / d, b / d;
    assert a == k * d && b == l * d;
    assert a + b == (k + l) * d && a - b == (k - l) * d;
    DividesProduct(k + l, d);
    DividesProduct(k - l, d);
  }

  lemma DividesExactly(d: int, n: int)
    requires d != 0
    ensures Divides(d, n) <==> n == d * (n / d)
  {}

  /** A prime is no product but of itself and one. */
  lemma PrimeFactors(a: int, b: int)
    requires a >= 1 && b >= 1 && IsPrimeNumber(a * b)
    ensures a * b >= 2 && (a == 1 || b == 1)
  {
    DividesProduct(a, b);
    if a >= 2 && b >= 2 {
      Cofactor2(a, b);
    }
  }

  lemma Cofactor2(a: int, b: int)
    requires a >= 2 && b >= 1
    ensures b < a * b
  {}

  /** Any other number from two on is a product of two numbers from two on. */
  lemma CompositeFactors(n: int) returns (a: int, b: int)
    requires n >= 2 && !IsPrimeNumber(n)
    ensures a >= 2 && b >= 2 && a * b == n
  {
    a :| 2 <= a < n && Divides(a, n);
    b := n / a;
    assert n == b * a;
    Cofactor(b, a);
  }

  /** The least divisor from 2 on. */
  ghost predicate IsLeastDivisor(d: int, n: int) {
    2 <= d <= n && Divides(d, n) && forall e :: 2 <= e < d ==> !Divides(e, n)
  }

  lemma {:induction false} LeastDivisorFrom(n: int, k: int) returns (d: int)
    requires 2 <= k <= n && forall e :: 2 <= e < k ==> !Divides(e, n)
    ensures IsLeastDivisor(d, n)
    decreases n - k
  {
    if Divides(k, n) {
      d := k;
    } else {
      if k == n {
        DividesProduct(1, n);
      }
      d := LeastDivisorFrom(n, k + 1);
    }
  }

  lemma LeastDivisorPrime(d: int, n: int)
    requires IsLeastDivisor(d, n)
    ensures IsPrimeNumber(d)
  {
    forall e | 2 <= e < d
      ensures !Divides(e, d)
    {
      if Divides(e, d) {
        Transitive(e, d, n);
      }
    }
  }

  lemma Cofactor(k: int, d: int)
    requires d > 0 && k * d > d
    ensures k >= 2
  {}

  lemma SquareMonotone(a: int, b: int)
    requires 0 <= a <= b
    ensures a * a <= b * b
  {}

  /** A number that is not prime has its least divisor at or below its square root. */
  lemma LeastDivisorSmall(d: int, n: int)
    requires IsLeastDivisor(d, n) && d < n
    ensures d * d <= n
  {
    var k := n / d;
    assert n == k * d;
    Cofactor(k, d);
    DividesProduct(d, k);
    assert Divides(k, n);
    assert d * d <= k * d;
  }

  // ------------------------------------------------------------ always another prime

  function Factorial(n: nat): (f: nat)
    ensures f >= 1
  {
    if n == 0 then 1 else n * Factorial(n - 1)
  }

  lemma {:induction false} DividesFactorial(d: nat, n: nat)
    requires 1 <= d <= n
    ensures Divides(d, Factorial(n))
  {
    if d == n {
      DividesProduct(Factorial(n - 1), n);
    } else {
      DividesFactorial(d, n - 1);
      DividesProduct(n, Factorial(n - 1));
      var f := Factorial(n - 1);
      Transitive(d, f, n * f);
    }
  }

  /** The least divisor of n! + 1 is a prime above n. */
  lemma AnotherPrime(n: nat) returns (p: int)
    ensures p > n && IsPrimeNumber(p)
  {
    var m := Factorial(n) + 1;
    p := LeastDivisorFrom(m, 2);
    LeastDivisorPrime(p, m);
    if p <= n {
      DividesFactorial(p, n);
      DividesSum(p, m, Factorial(n));
    }
  }

  /** The first prime at or after n. */
  ghost predicate IsNextPrime(p: int, n: int) {
    p >= n && IsPrimeNumber(p) && forall q :: n <= q < p ==> !IsPrimeNumber(q)
  }

  lemma {:induction false} NextPrimeBelow(n: int, q: int) returns (p: int)
    requires n <= q && IsPrimeNumber(q)
    ensures IsNextPrime(p, n)
    decreases q - n
  {
    if r :| n <= r < q && IsPrimeNumber(r) {
      p := NextPrimeBelow(n, r);
    } else {
      p := q;
    }
  }

  lemma NextPrimeExists(n: nat)
    ensures exists p :: IsNextPrime(p, n)
  {
    var q := AnotherPrime(n);
    var p := NextPrimeBelow(n, q);
  }

  ghost function NextPrime(n: nat): (p: int)
    ensures IsNextPrime(p, n)
  {
    NextPrimeExists(n);
    var p :| IsNextPrime(p, n);
    p
  }

  lemma NextPrimeStep(n: nat)
    requires !IsPrimeNumber(n)
    ensures NextPrime(n) == NextPrime(n + 1) > n
  {
    var p, q := NextPrime(n), NextPrime(n + 1);
    assert p != n;
  }
}
