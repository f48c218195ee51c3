/**
 * The sample task: trial division by 6k - 1 and 6k + 1, and the first so many primes.
 */
module WebUploadProj {
  import opened Primes
  import opened Powers

  const INT_MAX: int := 0x7FFF_FFFF

  /** Nothing from 2 up to, but not including, `i` divides `n`. */
  ghost predicate NoDivisorBelow(n: int, i: int) {
    forall d :: 2 <= d < i ==> !Divides(d, n)
  }

  /** The loop's condition is evaluated with this `i`. */
  ghost predicate Evaluated(n: int, i: int) {
    && n > 3 && i >= 5 && i % 6 == 5
    && NoDivisorBelow(n, i)
    && (i > 5 ==> (i - 6) * (i - 6) <= n)
  }

  lemma MultipleOf(c: int, d: int, n: int)
    requires c != 0 && d != 0 && Divides(c, d) && !Divides(c, n)
    ensures !Divides(d, n)
  {
    if Divides(d, n) {
      Transitive(c, d, n);
    }
  }

  lemma ResidueFive(i: int)
    requires i % 6 == 5
    ensures Divides(2, i + 1) && Divides(2, i + 3) && Divides(3, i + 4) && Divides(2, i + 5)
  {
    var k := i / 6;
    assert i == 6 * k + 5;
    DividesProduct(3 * k + 3, 2);
    DividesProduct(3 * k + 4, 2);
    DividesProduct(2 * k + 3, 3);
    DividesProduct(3 * k + 5, 2);
    hide Divides;
    assert (3 * k + 3) * 2 == i + 1 && (3 * k + 4) * 2 == i + 3;
    assert (2 * k + 3) * 3 == i + 4 && (3 * k + 5) * 2 == i + 5;
  }

  /** Six further on: the candidates in between are multiples of 2 or 3. */
  lemma SixMore(n: int, i: int)
    requires i >= 5 && i % 6 == 5 && NoDivisorBelow(n, i)
    requires !Divides(i, n) && !Divides(i + 2, n)
    ensures NoDivisorBelow(n, i + 6)
  {
    ResidueFive(i);
    hide Divides;
    MultipleOf(2, i + 1, n);
    MultipleOf(2, i + 3, n);
    MultipleOf(3, i + 4, n);
    MultipleOf(2, i + 5, n);
  }

  lemma FirstEvaluation(n: int)
    requires n > 3 && !Divides(2, n) && !Divides(3, n)
    ensures Evaluated(n, 5)
  {
    if Divides(4, n) {
      Transitive(2, 4, n);
    }
  }

  lemma NextEvaluation(n: int, i: int)
    requires Evaluated(n, i) && i * i <= n
    requires !Divides(i, n) && !Divides(i + 2, n)
    ensures Evaluated(n, i + 6)
  {
    SixMore(n, i);
  }

  /** No divisor up to the square root means none at all. */
  lemma SquareRootSuffices(n: int, i: int)
    requires n >= 2 && i >= 2 && NoDivisorBelow(n, i) && i * i > n
    ensures IsPrimeNumber(n)
  {
    var d := LeastDivisorFrom(n, 2);
    if d < n {
      LeastDivisorSmall(d, n);
      SquareMonotone(i, d);
    }
  }

  lemma SixApart(i: int, j: int)
    requires i % 6 == j % 6 && i < j
    ensures i + 6 <= j
  {}

  /** After a divisor is found, or the square root passed, the condition is not evaluated again. */
  lemma LastEvaluation(n: int, i: int, j: int)
    requires Evaluated(n, i) && Evaluated(n, j)
    requires i * i > n || Divides(i, n) || Divides(i + 2, n)
    ensures j <= i
  {
    if i < j {
      SixApart(i, j);
      if i * i > n {
        SquareMonotone(i, j - 6);
      }
    }
  }

  lemma EvaluationsSixApart(n: int, i: int, j: int)
    requires Evaluated(n, i) && Evaluated(n, j) && i < j
    ensures i + 6 <= j
  {
    SixApart(i, j);
  }

  lemma NeverEvaluated(n: int, j: int)
    requires n <= 3 || Divides(2, n) || Divides(3, n)
    ensures !Evaluated(n, j)
  {}

  lemma HasDivisor(n: int, d: int)
    requires 2 <= d < n && Divides(d, n)
    ensures !IsPrimeNumber(n)
  {}

  lemma WellBelowSquare(i: int)
    requires i >= 5
    ensures i + 2 < i * i
  {}

  /**
   * Decides primality for every n. `tested` records the values of i with which the loop's condition was evaluated,
   * in order.
   */
  method IsPrime(n: int) returns (r: bool, ghost tested: seq<int>)
    ensures r <==> IsPrimeNumber(n)
    ensures forall i :: i in tested <==> Evaluated(n, i)
  {
    tested := [];
    if n < 2 {
      return false, tested;
    }
    if n == 2 || n == 3 {
      return true, tested;
    }
    hide IsPrimeNumber, Evaluated;
    if n % 2 == 0 || n % 3 == 0 {
      HasDivisor(n, if n % 2 == 0 then 2 else 3);
      forall j ensures !Evaluated(n, j) {
        NeverEvaluated(n, j);
      }
      return false, tested;
    }
    FirstEvaluation(n);
    var i := 5;
    tested := [i];
    forall j | Evaluated(n, j) ensures j >= 5 {
      EvaluatedPositive(n, j);
    }
    while i * i <= n
      invariant i >= 5 && Evaluated(n, i)
      invariant forall j :: j in tested <==> Evaluated(n, j) && j <= i
      decreases n - i
    {
      WellBelowSquare(i);
      if n % i == 0 || n % (i + 2) == 0 {
        HasDivisor(n, if n % i == 0 then i else i + 2);
        forall j | Evaluated(n, j) ensures j <= i {
          LastEvaluation(n, i, j);
        }
        return false, tested;
      }
      NextEvaluation(n, i);
      forall j | Evaluated(n, j) && i < j ensures i + 6 <= j {
        EvaluationsSixApart(n, i, j);
      }
      i := i + 6;
      tested := tested + [i];
    }
    EvaluatedMeans(n, i);
    SquareRootSuffices(n, i);
    forall j | Evaluated(n, j) ensures j <= i {
      LastEvaluation(n, i, j);
    }
    return true, tested;
  }

  lemma EvaluatedMeans(n: int, i: int)
    requires Evaluated(n, i)
    ensures NoDivisorBelow(n, i)
  {}

  // ------------------------------------------------------------ machine arithmetic

  /** No product the loop computes exceeds `max`. */
  ghost predicate ProductsWithin(n: int, max: int) {
    forall i :: Evaluated(n, i) ==> i * i <= max
  }

  /** The last value of i whose square is within `max`. */
  predicate LastWithin(r: int, max: int) {
    r >= 5 && r % 6 == 5 && r * r <= max < (r + 6) * (r + 6)
  }

  /** A later i is reached only from r * r on, and only without a divisor up to r + 2. */
  lemma ReachesTooFar(n: int, i: int, r: int)
    requires Evaluated(n, i) && i > r >= 5 && r % 6 == 5
    ensures n >= r * r && NoDivisorBelow(n, r + 3)
  {
    SixApart(r, i);
    SquareMonotone(r, i - 6);
  }

  /** The other way: every such argument drives i to r + 6. */
  lemma ReachesOverflow(n: int, r: int)
    requires r >= 5 && r % 6 == 5
    requires n >= r * r && NoDivisorBelow(n, r + 3)
    ensures Evaluated(n, r + 6)
  {
    WellBelowSquare(r);
    if r > 5 {
      SquareMonotone(r - 6, r);
    }
    assert Evaluated(n, r);
    NextEvaluation(n, r);
  }

  /**
   * For integers of any width: trial division stays within them exactly when the argument is below the square of
   * the last i that does, or has a divisor that is found by then.
   */
  lemma {:induction false} OverflowAtAnyWidth(n: int, max: int, r: int)
    requires n <= max && LastWithin(r, max)
    ensures ProductsWithin(n, max) <==> (exists d :: 2 <= d <= r + 2 && Divides(d, n)) || n < r * r
  {
    hide Evaluated, Divides;
    if n < r * r || !NoDivisorBelow(n, r + 3) {
      forall i | Evaluated(n, i)
        ensures i * i <= max
      {
        if i > r {
          ReachesTooFar(n, i, r);
        } else {
          EvaluatedPositive(n, i);
          SquareMonotone(i, r);
        }
      }
    } else {
      ReachesOverflow(n, r);
      assert Evaluated(n, r + 6);
    }
  }

  /** Every product the loop computes is a C int. */
  ghost predicate NoOverflow(n: int) {
    ProductsWithin(n, INT_MAX)
  }

  const OVERFLOW_FROM: int := 46337 * 46337

  /**
   * For an int argument, is_prime computes without signed overflow exactly when the argument has a divisor
   * from 2 to 46339 or is below 46337^2.
   */
  lemma {:induction false} OverflowExactly(n: int)
    requires n <= INT_MAX
    ensures NoOverflow(n) <==> (exists d :: 2 <= d <= 46339 && Divides(d, n)) || n < OVERFLOW_FROM
  {
    hide Divides, ProductsWithin;
    OverflowAtAnyWidth(n, INT_MAX, 46337);
  }

  /** The ints that overflow are the primes from 46337^2 on. */
  lemma {:induction false} OverflowsForPrimes(n: int)
    requires n <= INT_MAX
    ensures NoOverflow(n) <==> !IsPrimeNumber(n) || n < OVERFLOW_FROM
  {
    OverflowExactly(n);
    hide NoOverflow, Divides;
    if n >= OVERFLOW_FROM && NoDivisorBelow(n, 46340) {
      ReachesOverflow(n, 46337);
      SquareRootSuffices(n, 46343);
    }
  }

  const OVERFLOWING: int := 32766 * 65536 + 1

  // a number that 15 squarings modulo OVERFLOWING turn into -1
  const ROOT: int := 1463237953

  lemma SquareOf(k: nat, s: int, t: int)
    requires Squarings(ROOT, k, OVERFLOWING) == s && s * s % OVERFLOWING == t
    ensures Squarings(ROOT, k + 1, OVERFLOWING) == t
  {}

  lemma RootOfMinusOne()
    ensures Squarings(ROOT, 15, OVERFLOWING) == OVERFLOWING - 1
  {
    assert Squarings(ROOT, 0, OVERFLOWING) == ROOT;
    hide Squarings;
    SquareOf(0, 1463237953, 214822318);
    SquareOf(1, 214822318, 772388167);
    SquareOf(2, 772388167, 760495213);
    SquareOf(3, 760495213, 1543607367);
    SquareOf(4, 1543607367, 1606082042);
    SquareOf(5, 1606082042, 898500465);
    SquareOf(6, 898500465, 536005245);
    SquareOf(7, 536005245, 1065745032);
    SquareOf(8, 1065745032, 1893792587);
    SquareOf(9, 1893792587, 422401682);
    SquareOf(10, 422401682, 1057264021);
    SquareOf(11, 1057264021, 227747109);
    SquareOf(12, 227747109, 324740324);
    SquareOf(13, 324740324, 1268354945);
    SquareOf(14, 1268354945, 2147352576);
  }

  /** There are such ints: this one is prime, since each of its divisors is 1 or exceeds 2^16. */
  lemma OverflowHappens()
    ensures OVERFLOW_FROM <= OVERFLOWING <= INT_MAX
    ensures IsPrimeNumber(OVERFLOWING) && !NoOverflow(OVERFLOWING)
  {
    RootOfMinusOne();
    assert TwoTo(15) == 32768;
    hide TwoTo, Squarings, NoOverflow;
    forall d | 2 <= d <= 46339
      ensures !Divides(d, OVERFLOWING)
    {
      if d > 2 && Divides(d, OVERFLOWING) {
        LargeDivisors(ROOT, 15, OVERFLOWING, d);
      }
    }
    OverflowExactly(OVERFLOWING);
    OverflowsForPrimes(OVERFLOWING);
  }

  lemma EvaluatedPositive(n: int, i: int)
    requires Evaluated(n, i)
    ensures i >= 5
  {}

  // ------------------------------------------------------------ the enumeration

  /** `ps` is the list of the `|ps|` smallest primes, in increasing order. */
  ghost predicate FirstPrimes(ps: seq<int>) {
    && (forall i :: 0 <= i < |ps| ==> IsPrimeNumber(ps[i]))
    && (forall i, j :: 0 <= i < j < |ps| ==> ps[i] < ps[j])
    && (forall i, p :: 0 <= i < |ps| && IsPrimeNumber(p) && p <= ps[i] ==> p in ps)
  }

  /** The program's loop for any number of primes; it ends because there is always another one. */
  method PrintPrimes(wanted: nat) returns (printed: seq<int>)
    ensures |printed| == wanted && FirstPrimes(printed)
    ensures forall i :: 0 <= i < |printed| ==> IsPrimeNumber(printed[i])
    ensures forall i, j :: 0 <= i < j < |printed| ==> printed[i] < printed[j]
    ensures forall i, p :: 0 <= i < |printed| && IsPrimeNumber(p) && p <= printed[i] ==> p in printed
  {
    printed := [];
    var count := 0;
    var num := 2;
    while count < wanted
      invariant count == |printed| <= wanted && num >= 2
      invariant forall i :: 0 <= i < |printed| ==> IsPrimeNumber(printed[i]) && printed[i] < num
      invariant forall i, j :: 0 <= i < j < |printed| ==> printed[i] < printed[j]
      invariant forall p :: IsPrimeNumber(p) && p < num ==> p in printed
      decreases wanted - count, NextPrime(num) - num
    {
      var prime, _ := IsPrime(num);
      if prime {
        printed := printed + [num];
        count := count + 1;
      } else {
        NextPrimeStep(num);
      }
      num := num + 1;
    }
  }

  /** There is only one such list of each length, so the output is determined. */
  lemma {:induction false} FirstPrimesUnique(ps: seq<int>, qs: seq<int>)
    requires FirstPrimes(ps) && FirstPrimes(qs) && |ps| == |qs|
    ensures ps == qs
  {
    hide FirstPrimes;
    if ps != [] {
      var n := |ps| - 1;
      FirstPrimesInit(ps);
      FirstPrimesInit(qs);
      FirstPrimesUnique(ps[..n], qs[..n]);
      assert ps == ps[..n] + [ps[n]] && qs == qs[..n] + [qs[n]];
      LastAtLeast(ps, qs);
      LastAtLeast(qs, ps);
    }
  }

  lemma FirstPrimesInit(ps: seq<int>)
    requires ps != [] && FirstPrimes(ps)
    ensures FirstPrimes(ps[..|ps| - 1])
  {
    var init := ps[..|ps| - 1];
    forall i, p | 0 <= i < |init| && IsPrimeNumber(p) && p <= init[i]
      ensures p in init
    {
      assert p <= ps[i] < ps[|ps| - 1];
      assert p in ps;
    }
  }

  lemma LastAtLeast(ps: seq<int>, qs: seq<int>)
    requires |ps| == |qs| > 0 && FirstPrimes(ps) && FirstPrimes(qs)
    requires ps[..|ps| - 1] == qs[..|ps| - 1]
    ensures ps[|ps| - 1] >= qs[|ps| - 1]
  {
    var n := |ps| - 1;
    if ps[n] < qs[n] {
      assert ps[n] in qs;
      var i :| 0 <= i < |qs| && qs[i] == ps[n];
      SameInit(ps, qs, n, i);
    }
  }

  lemma SameInit(ps: seq<int>, qs: seq<int>, n: nat, i: nat)
    requires n < |ps| == |qs| && ps[..n] == qs[..n] && i <= n
    ensures i < n ==> ps[i] == qs[i]
  {
    assert i < n ==> ps[..n][i] == qs[..n][i];
  }
}
