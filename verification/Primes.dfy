/**
  Google Test's prime tables: trial division, a sieve, and a table that uses the sieve as far as it
  goes. Over mathematical integers they agree, and a next prime is always found.
 */
module Primes {

  ghost predicate Prime(n: int) {
    n >= 2 && forall d :: 2 <= d < n ==> n % d != 0
  }

  /** The smallest prime above p. */
  ghost predicate IsNextPrime(q: int, p: int) {
    q > p && Prime(q) && forall m :: p < m < q ==> !Prime(m)
  }

  // ---------- divisibility ----------

  lemma {:induction false} Farther(d: int, a: int, b: int)
    requires d > 0 && a < b
    ensures d * a + d <= d * b
    decreases b - a
  {
    assert d * b == d * (b - 1) + d;
    if a < b - 1 {
      Farther(d, a, b - 1);
    }
  }

  lemma Regroup(d: int, a: int, b: int)
    ensures (d * a) * b == d * (a * b)
  {
  }

  lemma QuotientAndRemainder(d: int, k: int, r: int)
    requires 0 <= r < d
    ensures (d * k + r) / d == k && (d * k + r) % d == r
  {
    var q := (d * k + r) / d;
    if q < k {
      Farther(d, q, k);
    } else if k < q {
      Farther(d, k, q);
    }
  }

  lemma MultipleMod(d: int, k: int)
    requires d > 0
    ensures (d * k) % d == 0
  {
    QuotientAndRemainder(d, k, 0);
  }

  lemma FactorMod(d: int, m: int, n: int, a: int, b: int)
    requires d > 0 && m == d * a && n == m * b
    ensures n % d == 0
  {
    Regroup(d, a, b);
    MultipleMod(d, a * b);
  }

  lemma DividesTransitively(d: int, m: int, n: int)
    requires d > 0 && m > 0 && m % d == 0 && n % m == 0
    ensures n % d == 0
  {
    FactorMod(d, m, n, m / d, n / m);
  }

  lemma DividesSum(d: int, a: int, b: int)
    requires d > 0 && a % d == 0 && b % d == 0
    ensures (a + b) % d == 0
  {
    assert a + b == d * (a / d + b / d);
    MultipleMod(d, a / d + b / d);
  }

  lemma CofactorIsProper(n: int, d: int, c: int)
    requires 2 <= d < n && n == d * c
    ensures 2 <= c < n
  {
  }

  /** The cofactor of a divisor. */
  lemma Cofactor(n: int, d: int) returns (c: int)
    requires 2 <= d < n && n % d == 0
    ensures 2 <= c < n && n % c == 0 && d * c == n
  {
    c := n / d;
    CofactorIsProper(n, d, c);
    MultipleMod(c, d);
  }

  // ---------- Euclid ----------

  lemma {:induction false} HasPrimeDivisor(n: int) returns (p: int)
    requires n >= 2
    ensures Prime(p) && n % p == 0 && p <= n
    decreases n
  {
    if Prime(n) {
      p := n;
    } else {
      var d :| 2 <= d < n && n % d == 0;
      p := HasPrimeDivisor(d);
      DividesTransitively(p, d, n);
    }
  }

  function Factorial(n: nat): (f: nat)
    ensures f >= 1
  {
    if n == 0 then 1 else n * Factorial(n - 1)
  }

  lemma {:induction false} DividesFactorial(d: int, n: nat)
    requires 1 <= d <= n
    ensures Factorial(n) % d == 0
  {
    if d == n {
      MultipleMod(n, Factorial(n - 1));
    } else {
      DividesFactorial(d, n - 1);
      MultipleMod(Factorial(n - 1), n);
      assert Factorial(n) == Factorial(n - 1) * n;
      DividesTransitively(d, Factorial(n - 1), Factorial(n));
    }
  }

  /** There is a prime above every number, not above its factorial plus one. */
  lemma PrimeAbove(p: nat) returns (q: int)
    ensures Prime(q) && p < q <= Factorial(p) + 1
  {
    q := HasPrimeDivisor(Factorial(p) + 1);
    if q <= p {
      DividesFactorial(q, p);
      QuotientAndRemainder(q, Factorial(p) / q, 1);
    }
  }

  // ---------- trial division ----------

  /** A divisor or its cofactor is at most the square root. */
  lemma NoSmallDivisor(n: int, i: int)
    requires n >= 2 && i >= 2 && i * i > n && forall d :: 2 <= d < i ==> n % d != 0
    ensures Prime(n)
  {
    forall d | 2 <= d < n ensures n % d != 0 {
      if n % d == 0 {
        var c := Cofactor(n, d);
        ProductIsLarger(d, c, i);
      }
    }
  }

  lemma ProductIsLarger(a: int, b: int, i: int)
    requires i >= 0
    ensures a >= i && b >= i ==> a * b >= i * i
  {
  }

  class OnTheFlyPrimeTable {
    constructor () {
    }

    method IsPrime(n: int) returns (r: bool)
      ensures r <==> Prime(n)
    {
      if n <= 1 {
        return false;
      }
      var i := 2;
      while i * i <= n
        invariant 2 <= i
        invariant forall d :: 2 <= d < i ==> n % d != 0
        decreases n - i
      {
        SquareIsLarger(i);
        if n % i == 0 {
          return false;
        }
        i := i + 1;
      }
      NoSmallDivisor(n, i);
      return true;
    }

    method GetNextPrime(p: int) returns (q: int)
      ensures if p >= 0 then IsNextPrime(q, p) else q == -1
    {
      ghost var bound := -1;
      if p >= 0 {
        bound := PrimeAbove(p);
      }
      var n := p + 1;
      while n > 0
        invariant n >= p + 1 && (p < 0 ==> n == p + 1)
        invariant p >= 0 ==> n <= bound && Prime(bound)
        invariant forall m :: p < m < n ==> !Prime(m)
        decreases bound - n
      {
        var prime := IsPrime(n);
        if prime {
          return n;
        }
        n := n + 1;
      }
      return -1;
    }
  }

  lemma SquareIsLarger(i: int)
    requires i >= 2
    ensures i * i > i
  {
  }

  // ---------- the sieve ----------

  /** Not a proper multiple of a number from 2 up to below i. */
  ghost predicate Survives(n: int, i: int) {
    n >= 2 && forall d :: 2 <= d < i && d < n ==> n % d != 0
  }

  /** Multiples of a composite have been crossed out already. */
  lemma CompositeChangesNothing(n: int, i: int)
    requires i >= 2 && !Survives(i, i)
    ensures Survives(n, i + 1) <==> Survives(n, i)
  {
    if Survives(n, i) && i < n && n % i == 0 {
      var d :| 2 <= d < i && i % d == 0;
      DividesTransitively(d, i, n);
      assert false;
    }
  }

  /** Between a multiple and the next there is none. */
  lemma NextMultiple(i: int, j: int, n: int)
    requires i >= 2 && j % i == 0 && j < n < j + i
    ensures n % i != 0
  {
    QuotientAndRemainder(i, j / i, n - j);
  }

  class PreCalculatedPrimeTable {
    const isPrime: array<bool>

    ghost predicate Valid()
      reads isPrime
    {
      isPrime.Length >= 2 && forall n :: 0 <= n < isPrime.Length ==> (isPrime[n] <==> Prime(n))
    }

    constructor (max: int)
      requires max >= 1
      ensures Valid() && isPrime.Length == max + 1
    {
      isPrime := new bool[max + 1](_ => true);
      new;
      CalculatePrimesUpTo(max);
    }

    method CalculatePrimesUpTo(max: int)
      requires max >= 1 && isPrime.Length == max + 1 && forall n :: 0 <= n <= max ==> isPrime[n]
      modifies isPrime
      ensures Valid()
    {
      isPrime[0] := false;
      isPrime[1] := false;
      var i := 2;
      while i <= max
        invariant 2 <= i <= max + 1
        invariant forall n :: 0 <= n <= max ==> (isPrime[n] <==> Survives(n, i))
      {
        if isPrime[i] {
          var j := 2 * i;
          MultipleMod(i, 2);
          while j <= max
            invariant j > i && j % i == 0
            invariant forall n :: 0 <= n <= max ==> (isPrime[n] <==> Survives(n, i) && !(i < n < j && n % i == 0))
            decreases max - j
          {
            isPrime[j] := false;
            forall n | j < n < j + i ensures n % i != 0 {
              NextMultiple(i, j, n);
            }
            DividesSum(i, j, i);
            j := j + i;
          }
        } else {
          forall n | 0 <= n <= max ensures Survives(n, i + 1) <==> Survives(n, i) {
            CompositeChangesNothing(n, i);
          }
        }
        i := i + 1;
      }
    }

    method IsPrime(n: int) returns (r: bool)
      requires Valid()
      ensures r <==> n < isPrime.Length && Prime(n)
    {
      return 0 <= n && n < isPrime.Length && isPrime[n];
    }

    /** The next prime as far as the table goes. */
    method GetNextPrime(p: int) returns (q: int)
      requires Valid() && p >= -1
      ensures if q == -1 then forall m :: p < m < isPrime.Length ==> !Prime(m)
              else q < isPrime.Length && IsNextPrime(q, p)
    {
      var n := p + 1;
      while n < isPrime.Length
        invariant n >= 0 && n >= p + 1
        invariant forall m :: p < m < n ==> !Prime(m)
      {
        if isPrime[n] {
          return n;
        }
        n := n + 1;
      }
      return -1;
    }
  }

  // ---------- both together ----------

  lemma TwoIsFirst(q: int)
    ensures Prime(2) && (IsNextPrime(q, -1) <==> q == 2)
  {
    assert Prime(2);
    assert q > 2 ==> -1 < 2 < q;
  }

  class HybridPrimeTable {
    const onTheFly: OnTheFlyPrimeTable
    const precalc: PreCalculatedPrimeTable?
    const maxPrecalculated: int

    ghost predicate Valid()
      reads if precalc == null then {} else {precalc.isPrime}
    {
      precalc != null ==> precalc.Valid() && precalc.isPrime.Length == maxPrecalculated + 1
    }

    constructor (forceOnTheFly: bool, maxPrecalculated: int)
      requires forceOnTheFly || maxPrecalculated >= 1
      ensures Valid() && this.maxPrecalculated == maxPrecalculated && (precalc == null <==> forceOnTheFly)
    {
      onTheFly := new OnTheFlyPrimeTable();
      if forceOnTheFly {
        precalc := null;
      } else {
        var table := new PreCalculatedPrimeTable(maxPrecalculated);
        precalc := table;
      }
      this.maxPrecalculated := maxPrecalculated;
    }

    method IsPrime(n: int) returns (r: bool)
      requires Valid()
      ensures r <==> Prime(n)
    {
      if precalc != null && n < maxPrecalculated {
        r := precalc.IsPrime(n);
      } else {
        r := onTheFly.IsPrime(n);
      }
    }

    /** What trial division gives, except that the sieve finds 2 above -1. */
    method GetNextPrime(p: int) returns (q: int)
      requires Valid() && (precalc != null ==> p >= -1)
      ensures if p >= 0 then IsNextPrime(q, p)
              else q == if precalc != null && maxPrecalculated >= 2 then 2 else -1
    {
      var nextPrime := -1;
      TwoIsFirst(2);
      if precalc != null && p < maxPrecalculated {
        nextPrime := precalc.GetNextPrime(p);
      }
      if nextPrime != -1 {
        if p < 0 {
          TwoIsFirst(nextPrime);
        }
        return nextPrime;
      }
      q := onTheFly.GetNextPrime(p);
    }
  }
}
