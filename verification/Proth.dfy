/** Primality certificates: enough primes to bracket every generator modulus up to 2^32. */
module Proth {
  import opened NumberTheory
  import opened HullDobell
  import Pigeonhole

  // ------------------------------------------------- trial division (small n)

  predicate NoDivisorFrom(d: nat, n: nat)
    decreases n - d
  {
    d >= n || d * d > n || (d > 0 && n % d != 0 && NoDivisorFrom(d + 1, n))
  }

  lemma {:induction false} TrialSound(d: nat, n: nat, e: nat)
    requires 2 <= d <= e && e * e <= n && NoDivisorFrom(d, n)
    ensures !Divides(e, n)
    decreases e - d
  {
    MulMono(d, d, e);
    MulMono(e, d, e);
    MulMono(e, 2, e);
    DividesMod(e, n);
    if d < e { TrialSound(d + 1, n, e); }
  }

  lemma SmallerFactor(d: nat, k: nat) returns (e: nat)
    requires d >= 2 && k >= 2
    ensures 2 <= e && Divides(e, d * k) && e * e <= d * k
  {
    if d <= k {
      e := d;
      DividesMul(d, k);
      MulMono(d, d, k);
    } else {
      e := k;
      DividesMul(k, d);
      MulMono(k, k, d);
    }
  }

  lemma SmallFactor(n: nat) returns (q: nat)
    requires n >= 2 && !IsPrime(n)
    ensures IsPrime(q) && Divides(q, n) && q * q <= n
  {
    var d: nat :| 2 <= d < n && Divides(d, n);
    var k := ProperCofactor(d, n);
    var e := SmallerFactor(d, k);
    q := PrimeFactor(e);
    DividesTrans(q, e, n);
    MulMono(q, q, e);
    MulMono(e, q, e);
  }

  lemma TrialPrime(n: nat)
    requires n >= 2 && NoDivisorFrom(2, n)
    ensures IsPrime(n)
  {
    if !IsPrime(n) {
      var q := SmallFactor(n);
      TrialSound(2, n, q);
    }
  }

  // ------------------------------------------------- elements of large order

  /** A run of modular squarings, each with its quotient, ending at -1. */
  datatype Squarings = End | Sq(quotient: nat, residue: nat, rest: Squarings)

  predicate Certifies(c: Squarings, N: nat, b: nat)
    decreases c
  {
    match c
    case End => b == N - 1
    case Sq(k, r, rest) => b * b == k * N + r && Certifies(rest, N, r)
  }

  /** Two to the number of squarings. */
  function Reach(c: Squarings): nat {
    match c
    case End => 1
    case Sq(_, _, rest) => 2 * Reach(rest)
  }

  /** Four to the number of squarings plus one. */
  function ReachSquared(c: Squarings): nat {
    match c
    case End => 4
    case Sq(_, _, rest) => 4 * ReachSquared(rest)
  }

  function Steps(c: Squarings): nat {
    match c
    case End => 0
    case Sq(_, _, rest) => 1 + Steps(rest)
  }

  lemma {:induction false} ReachIsPow(c: Squarings)
    ensures Reach(c) == Pow(2, Steps(c)) >= 1
    ensures ReachSquared(c) == (2 * Reach(c)) * (2 * Reach(c))
  {
    if c.Sq? {
      ReachIsPow(c.rest);
      var e := Reach(c.rest);
      assert (2 * (2 * e)) * (2 * (2 * e)) == 4 * ((2 * e) * (2 * e));
    }
  }

  lemma {:induction false} PowCongruent(x: int, y: int, n: nat, e: nat)
    requires n > 0 && Divides(n, x - y)
    ensures Divides(n, Pow(x, e) - Pow(y, e))
  {
    if e == 0 {
      DividesMul(n, 0);
    } else {
      PowCongruent(x, y, n, e - 1);
      var X, Y := Pow(x, e - 1), Pow(y, e - 1);
      assert x * X - y * Y == (x - y) * X + y * (X - Y);
      DividesMulOther(n, x - y, X);
      DividesMulOther(n, X - Y, y);
      DividesAdd(n, (x - y) * X, y * (X - Y));
    }
  }

  lemma {:induction false} SquaringsReachMinusOne(c: Squarings, N: nat, b: nat)
    requires N > 1 && Certifies(c, N, b)
    ensures Divides(N, Pow(b, Reach(c)) + 1)
  {
    match c
    case End =>
      assert Pow(b, 1) == b * Pow(b, 0);
      DividesMul(N, 1);
    case Sq(k, r, rest) =>
      SquaringsReachMinusOne(rest, N, r);
      var e := Reach(rest);
      assert Pow(b, 2) == b * (b * Pow(b, 0)) == b * b;
      PowMul(b, 2, e);
      DividesMul(N, k);
      assert N * k == k * N;
      PowCongruent(b * b, r, N, e);
      DividesAdd(N, Pow(b * b, e) - Pow(r, e), Pow(r, e) + 1);
  }

  lemma {:induction false} MinusOneOdd(x: int, q: nat, e: nat)
    requires q > 0 && Divides(q, x + 1) && e % 2 == 1
    ensures Divides(q, Pow(x, e) + 1)
  {
    if e == 1 {
      assert Pow(x, 1) == x * Pow(x, 0) == x;
    } else {
      MinusOneOdd(x, q, e - 2);
      var P := Pow(x, e - 2);
      assert Pow(x, e) == x * (x * P);
      assert x * (x * P) + 1 == ((x + 1) * ((x - 1) * P)) + (P + 1);
      DividesMulOther(q, x + 1, (x - 1) * P);
      DividesAdd(q, (x + 1) * ((x - 1) * P), P + 1);
    }
  }

  /** If b^(2^n) is -1 modulo q then no smaller positive power than b^(2^(n+1)) is 1. */
  lemma {:induction false} OrderIsLarge(b: int, q: nat, n: nat, d: nat)
    requires q > 2 && Pow(2, n) >= 1 && Divides(q, Pow(b, Pow(2, n)) + 1)
    requires 0 < d < 2 * Pow(2, n)
    ensures !Divides(q, Pow(b, d) - 1)
    decreases n
  {
    if d % 2 == 1 {
      var e := Pow(2, n);
      PowMul(b, e, d);
      PowMul(b, d, e);
      assert e * d == d * e;
      MinusOneOdd(Pow(b, e), q, d);
      if Divides(q, Pow(b, d) - 1) {
        GeoModDivisor(Pow(b, d), q, e);
        var X := Pow(b, e * d);
        DividesAdd(q, X + 1, X - 1);
        DividesAdd(q, X + 1, 2);
        assert X + 1 - 2 == X - 1;
        DividesLe(q, 2);
      }
    } else {
      var h, b2 := d / 2, Pow(b, 2);
      PowPos(2, n - 1);
      PowMul(b, 2, h);
      PowMul(b, 2, Pow(2, n - 1));
      OrderIsLarge(b2, q, n - 1, h);
    }
  }

  /** b^(2^n) is -1 modulo the odd prime q. */
  ghost predicate HalfOrder(b: nat, q: nat, n: nat) {
    IsPrime(q) && q > 2 && Pow(2, n) >= 1 && Divides(q, Pow(b, Pow(2, n)) + 1)
  }

  lemma FactorOut(q: nat, P: int, D: int)
    requires IsPrime(q) && Divides(q, P * D - P)
    ensures Divides(q, P) || Divides(q, D - 1)
  {
    assert P * D - P == P * (D - 1);
    Euclid(q, P, D - 1);
  }

  lemma PowersDistinct(b: nat, q: nat, n: nat, i: nat, j: nat)
    requires HalfOrder(b, q, n)
    requires i < j < 2 * Pow(2, n)
    ensures Pow(b, i) % q != Pow(b, j) % q
  {
    if Pow(b, i) % q == Pow(b, j) % q {
      ModCongruent(Pow(b, j), Pow(b, i), q);
      PowAdd(b, i, j - i);
      FactorOut(q, Pow(b, i), Pow(b, j - i));
      PowerNotZero(b, q, n, i);
      OrderIsLarge(b, q, n, j - i);
    }
  }

  lemma PowerNotZero(b: nat, q: nat, n: nat, i: nat)
    requires HalfOrder(b, q, n)
    ensures !Divides(q, Pow(b, i))
  {
    if Divides(q, Pow(b, i)) {
      var e := Pow(2, n);
      BaseDivided(b, q, i);
      DividesMulOther(q, b, Pow(b, e - 1));
      DividesAdd(q, Pow(b, e), 1);
      DividesLe(q, 1);
    }
  }

  lemma {:induction false} BaseDivided(b: nat, q: nat, i: nat)
    requires IsPrime(q) && Divides(q, Pow(b, i))
    ensures Divides(q, b)
  {
    if i == 0 {
      DividesLe(q, 1);
    } else {
      Euclid(q, b, Pow(b, i - 1));
      if !Divides(q, b) { BaseDivided(b, q, i - 1); }
    }
  }

  lemma LargePrimeFactor(b: nat, q: nat, n: nat)
    requires HalfOrder(b, q, n)
    ensures q > 2 * Pow(2, n)
  {
    var k := 2 * Pow(2, n);
    var s := seq(k, i requires 0 <= i < k => UnitResidue(b, q, n, i));
    forall i, j | 0 <= i < j < |s| ensures s[i] != s[j] {
      PowersDistinct(b, q, n, i, j);
    }
    Pigeonhole.Fits(s, q - 1);
  }

  /** One less than a power of b modulo q. */
  ghost function UnitResidue(b: nat, q: nat, n: nat, i: nat): (r: nat)
    requires HalfOrder(b, q, n)
    ensures r < q - 1
  {
    PowerNotZero(b, q, n, i);
    DividesMod(q, Pow(b, i));
    Pow(b, i) % q - 1
  }

  /** Proth's test: an element whose 2^n-th power is -1 modulo N, with 2^(n+1) at least
      the square root of N, leaves no room for a small factor. */
  lemma ProthPrime(N: nat, b: nat, c: Squarings)
    requires N > 2 && N % 2 == 1 && Certifies(c, N, b) && ReachSquared(c) >= N
    ensures IsPrime(N)
  {
    if !IsPrime(N) {
      var q := SmallFactor(N);
      FactorIsLarge(N, b, c, q);
      ReachIsPow(c);
      SquareMono(2 * Reach(c), q);
    }
  }

  lemma FactorIsLarge(N: nat, b: nat, c: Squarings, q: nat)
    requires N > 2 && N % 2 == 1 && Certifies(c, N, b) && IsPrime(q) && Divides(q, N)
    ensures q > 2 * Reach(c)
  {
    var n := Steps(c);
    ReachIsPow(c);
    SquaringsReachMinusOne(c, N, b);
    DividesTrans(q, N, Pow(b, Pow(2, n)) + 1);
    LargePrimeFactor(b, q, n);
  }

  lemma SquareMono(x: nat, y: nat)
    requires x < y
    ensures x * x < y * y
  {
    MulMono(x, x, y);
    MulMono(y, x + 1, y);
  }
}
