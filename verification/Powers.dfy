/**
 * Powers modulo a number, and a proof of primality that takes a handful of multiplications: if some power of two of
 * squarings turns a number into -1 modulo p, then p is larger than that power of two.
 */
module Powers {
  import opened Primes

  function Power(b: int, e: nat): int {
    if e == 0 then 1 else b * Power(b, e - 1)
  }

  function TwoTo(k: nat): (m: nat)
    ensures m >= 1
  {
    if k == 0 then 1 else 2 * TwoTo(k - 1)
  }

  ghost predicate Congruent(a: int, b: int, m: int)
    requires m != 0
  {
    Divides(m, a - b)
  }

  // ------------------------------------------------------------ powers

  lemma {:induction false} PowerAdd(b: int, i: nat, j: nat)
    ensures Power(b, i + j) == Power(b, i) * Power(b, j)
  {
    if i > 0 {
      PowerAdd(b, i - 1, j);
      Associative(b, Power(b, i - 1), Power(b, j));
    }
  }

  lemma Associative(a: int, b: int, c: int)
    ensures a * (b * c) == a * b * c
  {}

  lemma {:induction false} PowerTimes(b: int, i: nat, j: nat)
    ensures i * j >= 0 && Power(b, i * j) == Power(Power(b, i), j)
  {
    if j > 0 {
      PowerTimes(b, i, j - 1);
      PowerAdd(b, i, i * (j - 1));
      assert i * j == i + i * (j - 1);
    }
  }

  lemma {:induction false} PowerOfOne(e: nat)
    ensures Power(1, e) == 1
  {
    if e > 0 {
      PowerOfOne(e - 1);
    }
  }

  lemma {:induction false} PowerOfMinusOne(e: nat)
    ensures Power(-1, e) == if e % 2 == 0 then 1 else -1
  {
    if e > 0 {
      PowerOfMinusOne(e - 1);
    }
  }

  // ------------------------------------------------------------ congruence

  lemma CongruentChain(a: int, b: int, c: int, m: int)
    requires m != 0 && Congruent(a, b, m) && Congruent(b, c, m)
    ensures Congruent(b, a, m) && Congruent(a, c, m)
  {
    DividesSum(m, a - b, b - c);
    DividesProduct(0, m);
    DividesSum(m, 0, a - b);
  }

  lemma CongruentRefl(a: int, m: int)
    requires m != 0
    ensures Congruent(a, a, m)
  {
    DividesProduct(0, m);
  }

  lemma CongruentTimes(a: int, b: int, c: int, d: int, m: int)
    requires m != 0 && Congruent(a, b, m) && Congruent(c, d, m)
    ensures Congruent(a * c, b * d, m)
  {
    DividesMultiple(m, c - d, a);
    DividesMultiple(m, a - b, d);
    DividesSum(m, a * (c - d), d * (a - b));
    assert a * (c - d) + d * (a - b) == a * c - b * d;
  }

  lemma DividesMultiple(m: int, a: int, k: int)
    requires m != 0 && Divides(m, a)
    ensures Divides(m, k * a)
  {
    if a == 0 {
      DividesProduct(0, m);
    } else {
      DividesProduct(k, a);
      Transitive(m, a, k * a);
    }
  }

  lemma {:induction false} CongruentPower(a: int, b: int, e: nat, m: int)
    requires m != 0 && Congruent(a, b, m)
    ensures Congruent(Power(a, e), Power(b, e), m)
  {
    if e == 0 {
      DividesProduct(0, m);
    } else {
      CongruentPower(a, b, e - 1, m);
      CongruentTimes(a, b, Power(a, e - 1), Power(b, e - 1), m);
    }
  }

  lemma SameRemainder(a: int, b: int, m: int)
    requires m != 0 && a % m == b % m
    ensures Congruent(a, b, m)
  {
    var k, l := a / m, b / m;
    assert a == m * k + a % m && b == m * l + b % m;
    assert a - b == (k - l) * m;
    DividesProduct(k - l, m);
  }

  // ------------------------------------------------------------ no power before the last is one

  /** If 2^k squarings lead to -1, no power below the 2^(k+1)-th is 1. */
  lemma {:induction false} NotOne(b: int, k: nat, e: nat, p: int)
    requires p > 2 && Congruent(Power(b, TwoTo(k)), -1, p)
    requires 0 < e < 2 * TwoTo(k)
    ensures !Congruent(Power(b, e), 1, p)
    decreases k
  {
    hide Congruent, Power;
    if e % 2 == 1 {
      OddPower(b, TwoTo(k), e, p);
    } else {
      assert k > 0 && TwoTo(k) == 2 * TwoTo(k - 1) && e == 2 * (e / 2);
      PowerTimes(b, 2, e / 2);
      PowerTimes(b, 2, TwoTo(k - 1));
      NotOne(Power(b, 2), k - 1, e / 2, p);
    }
  }

  lemma OddPower(b: int, m: nat, e: nat, p: int)
    requires p > 2 && Congruent(Power(b, m), -1, p) && e % 2 == 1
    ensures !Congruent(Power(b, e), 1, p)
  {
    if Congruent(Power(b, e), 1, p) {
      PowerTimes(b, e, m);
      PowerTimes(b, m, e);
      CongruentPower(Power(b, e), 1, m, p);
      CongruentPower(Power(b, m), -1, e, p);
      PowerOfOne(m);
      PowerOfMinusOne(e);
      assert e * m == m * e;
      CongruentChain(Power(b, m * e), 1, 1, p);
      CongruentChain(1, Power(b, m * e), -1, p);
      DivModOf(0, 2, p);
    }
  }

  /** So the powers before that have different remainders, none of them zero. */
  lemma DifferentRemainders(b: int, k: nat, i: nat, j: nat, p: int)
    requires p > 2 && Congruent(Power(b, TwoTo(k)), -1, p)
    requires i < j < 2 * TwoTo(k)
    ensures Power(b, i) % p != Power(b, j) % p
  {
    var m := 2 * TwoTo(k);
    var x, y, e := Power(b, i), Power(b, j), j - i;
    var c, full, z := Power(b, m - i), Power(b, m), Power(b, e);
    if x % p == y % p {
      PowerAdd(b, i, m - i);
      PowerAdd(b, j, m - i);
      PowerAdd(b, e, m);
      FullCircle(b, k, p);
      NotOne(b, k, e, p);
      assert j + (m - i) == e + m;
      hide Power, TwoTo, Congruent;
      SameRemainder(y, x, p);
      CongruentRefl(c, p);
      CongruentTimes(y, x, c, c, p);
      CongruentRefl(z, p);
      CongruentTimes(z, z, full, 1, p);
      CongruentChain(z * full, z, z, p);
      CongruentChain(z * full, full, 1, p);
      CongruentChain(z, z * full, 1, p);
    }
  }

  lemma FullCircle(b: int, k: nat, p: int)
    requires p > 2 && Congruent(Power(b, TwoTo(k)), -1, p)
    ensures Congruent(Power(b, 2 * TwoTo(k)), 1, p)
  {
    var h := Power(b, TwoTo(k));
    PowerAdd(b, TwoTo(k), TwoTo(k));
    CongruentTimes(h, -1, h, -1, p);
  }

  lemma NonZeroRemainder(b: int, k: nat, i: nat, p: int)
    requires p > 2 && Congruent(Power(b, TwoTo(k)), -1, p) && i < 2 * TwoTo(k)
    ensures 1 <= Power(b, i) % p <= p - 1
  {
    var m := 2 * TwoTo(k);
    if Power(b, i) % p == 0 {
      PowerAdd(b, m - i, i);
      DividesMultiple(p, Power(b, i), Power(b, m - i));
      FullCircle(b, k, p);
      DividesSum(p, Power(b, m), Power(b, m) - 1);
      DivModOf(0, 1, p);
    }
  }

  ghost function Remainders(b: int, p: int, m: nat): set<int>
    requires p > 0
  {
    set i: nat | i < m :: Power(b, i) % p
  }

  lemma {:induction false} CountRemainders(b: int, k: nat, p: int, m: nat)
    requires p > 2 && Congruent(Power(b, TwoTo(k)), -1, p) && m <= 2 * TwoTo(k)
    ensures |Remainders(b, p, m)| == m
  {
    hide Power, Congruent, TwoTo;
    if m > 0 {
      CountRemainders(b, k, p, m - 1);
      forall i: nat | i < m - 1 ensures Power(b, i) % p != Power(b, m - 1) % p {
        DifferentRemainders(b, k, i, m - 1, p);
      }
      assert Remainders(b, p, m) == Remainders(b, p, m - 1) + {Power(b, m - 1) % p};
    }
  }

  lemma {:induction false} Pigeonhole(s: set<int>, n: nat)
    requires forall x :: x in s ==> 1 <= x <= n
    ensures |s| <= n
  {
    if n > 0 {
      Pigeonhole(s - {n}, n - 1);
    } else {
      assert forall x :: x !in s;
      assert s == {};
    }
  }

  /** There are only p - 1 such remainders. */
  lemma LargeModulus(b: int, k: nat, p: int)
    requires p > 2 && Congruent(Power(b, TwoTo(k)), -1, p)
    ensures p > 2 * TwoTo(k)
  {
    hide Power, Congruent, TwoTo;
    CountRemainders(b, k, p, 2 * TwoTo(k));
    forall i: nat | i < 2 * TwoTo(k) ensures 1 <= Power(b, i) % p <= p - 1 {
      NonZeroRemainder(b, k, i, p);
    }
    Pigeonhole(Remainders(b, p, 2 * TwoTo(k)), p - 1);
  }

  // ------------------------------------------------------------ repeated squaring

  function Squarings(b: int, k: nat, n: int): int
    requires n > 0
  {
    if k == 0 then b else Squarings(b, k - 1, n) * Squarings(b, k - 1, n) % n
  }

  lemma {:induction false} SquaringsCongruent(b: int, k: nat, n: int)
    requires n > 0
    ensures Congruent(Power(b, TwoTo(k)), Squarings(b, k, n), n)
  {
    if k == 0 {
      assert Power(b, 1) == b * Power(b, 0) == b;
      CongruentRefl(b, n);
    } else {
      SquaringsCongruent(b, k - 1, n);
      var h, s := Power(b, TwoTo(k - 1)), Squarings(b, k - 1, n);
      PowerAdd(b, TwoTo(k - 1), TwoTo(k - 1));
      CongruentTimes(h, s, h, s, n);
      DivModOf(0, s * s % n, n);
      SameRemainder(s * s, s * s % n, n);
      CongruentChain(h * h, s * s, s * s % n, n);
    }
  }

  /** What squaring makes of b modulo n says how large every divisor of n is. */
  lemma LargeDivisors(b: int, k: nat, n: int, d: int)
    requires n > 2 && d > 2 && Divides(d, n)
    requires Squarings(b, k, n) == n - 1
    ensures d > 2 * TwoTo(k)
  {
    SquaringsCongruent(b, k, n);
    var x := Power(b, TwoTo(k));
    DividesProduct(1, n);
    DividesSum(n, x - (n - 1), n);
    assert Divides(n, x + 1);
    if x + 1 == 0 {
      DividesProduct(0, d);
    } else {
      Transitive(d, n, x + 1);
    }
    LargeModulus(b, k, d);
  }
}
