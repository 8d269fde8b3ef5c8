/** The queue's search for a generator (src/finelock_queue.cc, constructor, getA, getC). */
module Generator {
  import opened NumberTheory
  import opened HullDobell
  import PrimeChain

  /** What the scan needs of (a_, c_, modlength_) for a queue of q pages. */
  ghost predicate GoodPath(q: nat, a: nat, c: nat, m: nat) {
    && 1 <= q <= m <= q + 7
    && GoodMultiplier(a, m)
    && Coprime(m, c)
    && a <= m && c <= m
  }

  lemma RoundTripDivides(n: nat, d: nat)
    requires d > 0
    ensures n / d * d == n <==> Divides(d, n)
  {
    DividesMod(d, n);
  }

  /** Every prime of m is either in the product built so far or still to be divided out. */
  ghost predicate Accounted(m: nat, a: nat, remaining: nat) {
    forall p: nat :: IsPrime(p) && Divides(p, m) ==> Divides(p, a) || Divides(p, remaining)
  }

  lemma DivideOut(m: nat, a: nat, remaining: nat, i: nat) returns (k: nat)
    requires m > 0 && remaining > 0 && i >= 2 && Divides(i, remaining)
    requires Accounted(m, a * i, remaining) && Divides(remaining, m)
    ensures k == remaining / i && 0 < k < remaining && remaining == i * k
    ensures Divides(k, m) && Divides(k, remaining)
    ensures Accounted(m, a * i, k)
  {
    k := ProperCofactor(i, remaining);
    assert Times(k, i) == remaining;
    DividesTrans(k, remaining, m);
    forall p: nat | IsPrime(p) && Divides(p, m)
      ensures Divides(p, a * i) || Divides(p, k)
    {
      if Divides(p, remaining) {
        Euclid(p, i, k);
        if Divides(p, i) { DividesMulOther(p, i, a); }
      }
    }
  }

  lemma NoSmallDivisor(i: nat, k: nat, remaining: nat)
    requires k > 0 && remaining > 0 && Divides(k, remaining)
    requires forall d: nat :: 2 <= d < i ==> !Divides(d, remaining)
    ensures forall d: nat :: 2 <= d < i ==> !Divides(d, k)
  {
    forall d: nat | 2 <= d < i ensures !Divides(d, k) {
      if Divides(d, k) { DividesTrans(d, k, remaining); }
    }
  }

  lemma TimesFactor(m: nat, a: nat, i: nat, remaining: nat)
    requires Accounted(m, a, remaining)
    ensures Accounted(m, a * i, remaining)
  {
    forall p: nat | IsPrime(p) && Divides(p, m)
      ensures Divides(p, a * i) || Divides(p, remaining)
    {
      if Divides(p, a) { DividesMulOther(p, a, i); }
    }
  }

  /** Powers of two kept in the product: 4 when 4 divides m, and never 8. */
  ghost predicate TwosKept(m: nat, a: nat, remaining: nat, i: nat) {
    && (Divides(4, m) ==> if i <= 2 then a == 2 && Divides(2, remaining) else Divides(4, a))
    && (Divides(8, m) && i > 2 ==> a % 8 == 4 && remaining % 2 == 1)
  }

  lemma OddMultiple(a: nat, i: nat)
    requires a % 8 == 4 && i % 2 == 1
    ensures (a * i) % 8 == 4
  {
    var h, k := a / 8, i / 2;
    assert (8 * h + 4) * i == 8 * (h * i) + 4 * (2 * k + 1);
    DivUnique(a * i, 8, h * i + k, 4);
  }

  lemma TwosStep(m: nat, a: nat, remaining: nat, i: nat, rest: nat)
    requires i >= 2 && m > 0 && remaining > 0 && rest > 0
    requires TwosKept(m, a, remaining, i) && Divides(i, remaining)
    requires !Divides(i, rest) && Divides(rest, remaining)
    ensures TwosKept(m, a * i, rest, i + 1)
  {
    if i == 2 {
      if Divides(4, m) { DividesMul(4, 1); }
      DividesMod(2, rest);
      if Divides(8, m) { EightIsFour(m); }
    } else {
      if Divides(4, m) { DividesMulOther(4, a, i); }
      if Divides(8, m) {
        DividesMod(2, remaining);
        DividesMod(2, i);
        DividesMod(2, rest);
        if i % 2 == 0 { DividesTrans(2, i, remaining); }
        if rest % 2 == 0 { DividesTrans(2, rest, remaining); }
        OddMultiple(a, i);
      }
    }
  }

  lemma EightIsFour(m: nat)
    requires Divides(8, m)
    ensures Divides(4, m)
  {
    assert Times(4, 2) == 8;
    DividesTrans(4, 8, m);
  }

  lemma TwosSkip(m: nat, a: nat, remaining: nat, i: nat)
    requires i >= 2 && m > 0 && remaining > 0
    requires TwosKept(m, a, remaining, i) && !Divides(i, remaining)
    ensures TwosKept(m, a, remaining, i + 1)
  {
    if i == 2 && Divides(8, m) { EightIsFour(m); }
  }

  /** The product of the primes from i up that divide m. */
  ghost function Radical(m: nat, i: nat): nat
    requires i >= 2
    decreases m + 1 - i
  {
    if i > m then 1
    else if IsPrime(i) && Divides(i, m) then i * Radical(m, i + 1)
    else Radical(m, i + 1)
  }

  ghost function Twos(m: nat): nat {
    if Divides(4, m) then 2 else 1
  }

  /** Primes not reached yet are still all in what remains. */
  ghost predicate Fresh(m: nat, remaining: nat, i: nat) {
    forall p: nat :: IsPrime(p) && p >= i && Divides(p, m) ==> Divides(p, remaining)
  }

  /** The divisors the loop meets are exactly the primes of m. */
  lemma MeetsPrimes(m: nat, remaining: nat, i: nat)
    requires m > 0 && remaining > 0 && i >= 2 && Divides(remaining, m) && Fresh(m, remaining, i)
    requires forall d: nat :: 2 <= d < i ==> !Divides(d, remaining)
    ensures Divides(i, remaining) <==> IsPrime(i) && Divides(i, m)
  {
    if Divides(i, remaining) {
      DividesTrans(i, remaining, m);
      forall d: nat | 2 <= d < i ensures !Divides(d, i) {
        if Divides(d, i) { DividesTrans(d, i, remaining); }
      }
    }
  }

  lemma FreshAfter(m: nat, k: nat, remaining: nat, i: nat)
    requires m > 0 && k > 0 && i >= 2 && remaining == i * k
    requires forall p: nat :: IsPrime(p) && p > i && Divides(p, m) ==> Divides(p, remaining)
    ensures forall p: nat :: IsPrime(p) && p > i && Divides(p, m) ==> Divides(p, k)
  {
    forall p: nat | IsPrime(p) && p > i && Divides(p, m) ensures Divides(p, k) {
      Euclid(p, i, k);
      if Divides(p, i) { DividesLe(p, i); }
    }
  }

  /** What the loop over candidate factors keeps. */
  ghost predicate Searching(m: nat, a: nat, remaining: nat, i: nat) {
    && m >= 2 && 2 <= i <= m + 1 && 0 < remaining <= m && a > 0
    && Divides(remaining, m)
    && Accounted(m, a, remaining)
    && TwosKept(m, a, remaining, i)
    && (forall d: nat :: 2 <= d < i ==> !Divides(d, remaining))
    && Fresh(m, remaining, i)
    && a * Radical(m, i) == Twos(m) * Radical(m, 2)
  }

  lemma StartSearch(m: nat)
    requires m >= 2
    ensures Searching(m, if Divides(4, m) then 2 else 1, m, 2)
  {
    DividesMul(m, 1);
    if Divides(4, m) {
      assert Times(2, 2) == 4;
      DividesTrans(2, 4, m);
    }
  }

  lemma RadicalStep(m: nat, a: nat, i: nat, total: nat)
    requires 2 <= i <= m && IsPrime(i) && Divides(i, m) && a * Radical(m, i) == total
    ensures (a * i) * Radical(m, i + 1) == total
  {
    hide Divides, IsPrime;
    MulAssoc(a, i, Radical(m, i + 1));
  }

  lemma FactorFound(m: nat, a: nat, remaining: nat, i: nat, rest: nat)
    requires Searching(m, a, remaining, i) && i <= m && Divides(i, remaining)
    requires 0 < rest < remaining && !Divides(i, rest) && Divides(rest, remaining)
    requires Accounted(m, a * i, rest) && Divides(rest, m) && Fresh(m, rest, i + 1)
    ensures a * i > 0 && Searching(m, a * i, rest, i + 1)
  {
    hide Radical, Twos, Divides, IsPrime, TwosKept, Accounted, Fresh;
    TwosStep(m, a, remaining, i, rest);
    NoSmallDivisor(i, rest, remaining);
    MulPos(a, i);
    MeetsPrimes(m, remaining, i);
    RadicalStep(m, a, i, Twos(m) * Radical(m, 2));
  }

  lemma FactorAbsent(m: nat, a: nat, remaining: nat, i: nat)
    requires Searching(m, a, remaining, i) && i <= m && !Divides(i, remaining)
    ensures Searching(m, a, remaining, i + 1)
  {
    TwosSkip(m, a, remaining, i);
    MeetsPrimes(m, remaining, i);
  }

  lemma SearchDone(m: nat, a: nat, remaining: nat)
    requires Searching(m, a, remaining, m + 1)
    ensures remaining == 1 && a == Twos(m) * Radical(m, 2)
    ensures Accounted(m, a, 1) && TwosKept(m, a, 1, m + 1)
  {
    if remaining > 1 { DividesMul(remaining, 1); }
  }

  /** src/finelock_queue.cc getA: one more than the product of the primes of m (twice
      that when 4 divides m), reduced modulo m. */
  method GetA(m: nat) returns (r: nat)
    requires m >= 2
    ensures r == (Twos(m) * Radical(m, 2) + 1) % m
    ensures r < m && GoodMultiplier(r, m)
    ensures Divides(8, m) ==> r != 1
  {
    hide Searching, Radical, Twos, Divides, GoodMultiplier;
    var remaining, a: nat := m, 1;
    RoundTripDivides(m, 4);
    if remaining / 4 * 4 == remaining { a := 2; }
    StartSearch(m);
    var i := 2;
    while i <= m
      invariant 2 <= i <= m + 1 && 0 < remaining && a > 0
      invariant Searching(m, a, remaining, i)
    {
      RoundTripDivides(remaining, i);
      if remaining / i * i == remaining {
        var rest := DivideAll(m, a, remaining, i);
        FactorFound(m, a, remaining, i, rest);
        a := a * i;
        remaining := rest;
      } else {
        FactorAbsent(m, a, remaining, i);
      }
      i := i + 1;
    }
    SearchDone(m, a, remaining);
    r := (a + 1) % m;
    AIsGood(m, a, r);
  }

  /** The division of the factor i and its repetition (src/finelock_queue.cc:111-116). */
  method DivideAll(m: nat, a: nat, remaining: nat, i: nat) returns (rest: nat)
    requires Searching(m, a, remaining, i) && Divides(i, remaining)
    ensures 0 < rest < remaining && !Divides(i, rest) && Divides(rest, remaining)
    ensures Accounted(m, a * i, rest) && Divides(rest, m) && Fresh(m, rest, i + 1)
  {
    TimesFactor(m, a, i, remaining);
    ghost var k := DivideOut(m, a, remaining, i);
    FreshAfter(m, k, remaining, i);
    rest := remaining / i;
    RoundTripDivides(rest, i);
    while rest / i * i == rest
      invariant 0 < rest < remaining && Divides(rest, remaining) && Divides(rest, m)
      invariant rest / i * i == rest <==> Divides(i, rest)
      invariant Accounted(m, a * i, rest) && Fresh(m, rest, i + 1)
      decreases rest
    {
      k := DivideOut(m, a, rest, i);
      FreshAfter(m, k, rest, i);
      DividesTrans(k, rest, remaining);
      rest := rest / i;
      RoundTripDivides(rest, i);
    }
  }

  lemma AIsGood(m: nat, a: nat, r: nat)
    requires m >= 2 && a > 0 && r == (a + 1) % m
    requires Accounted(m, a, 1) && TwosKept(m, a, 1, m + 1)
    ensures GoodMultiplier(r, m)
    ensures Divides(8, m) ==> r != 1
  {
    assert Times(m, (a + 1) / m) == (a + 1) - r;
    forall p: nat | IsPrime(p) && Divides(p, m) ensures Divides(p, r - 1) {
      ReducedDivisor(m, a, r, p);
      if Divides(p, 1) { DividesLe(p, 1); }
    }
    if r == 0 {
      var p := PrimeFactor(m);
      DividesMod(p, -1);
      NotMinusOne(p);
    }
    if Divides(4, m) { ReducedDivisor(m, a, r, 4); }
    if Divides(8, m) {
      EightIsFour(m);
      if m == 2 { DividesLe(8, m); }
      ReducedDivisor(m, a, r, 8);
      DividesMod(8, a);
      DividesMul(8, 0);
    }
  }

  lemma NotMinusOne(p: nat)
    requires p >= 2
    ensures (-1) % p != 0
  {
    DivUnique(-1, p, -1, p - 1);
  }

  /** Modulo a divisor of m, r - 1 and a agree. */
  lemma ReducedDivisor(m: nat, a: nat, r: int, d: nat)
    requires m > 0 && d > 0 && Divides(m, (a + 1) - r) && Divides(d, m)
    ensures Divides(d, r - 1) <==> Divides(d, a)
  {
    DividesTrans(d, m, (a + 1) - r);
    DividesAdd(d, (a + 1) - r, r - 1);
    assert (a + 1) - r + (r - 1) == a;
  }

  // ---------------------------------------------------------- least multiplier

  /** The step between good multipliers of m. */
  ghost function Step(m: nat): nat {
    Twos(m) * Radical(m, 2)
  }

  lemma PrimeInPrime(p: nat, i: nat)
    requires IsPrime(p) && IsPrime(i) && Divides(p, i)
    ensures p == i
  {
    DividesLe(p, i);
  }

  /** The primes of the radical are primes of m not below i. */
  lemma {:induction false} RadicalPrimes(m: nat, i: nat, p: nat)
    requires m > 0 && i >= 2 && IsPrime(p)
    ensures Radical(m, i) > 0
    ensures Divides(p, Radical(m, i)) ==> p >= i && Divides(p, m)
    decreases m + 1 - i
  {
    hide Divides;
    if i > m {
      if Divides(p, 1) { DividesLe(p, 1); }
    } else {
      RadicalPrimes(m, i + 1, p);
      if IsPrime(i) && Divides(i, m) {
        MulPos(i, Radical(m, i + 1));
        if Divides(p, i * Radical(m, i + 1)) {
          Euclid(p, i, Radical(m, i + 1));
          if Divides(p, i) { PrimeInPrime(p, i); }
        }
      }
    }
  }

  lemma RadicalAvoids(m: nat, i: nat, u: nat)
    requires m > 0 && i >= 2 && u > 0
    requires forall p: nat :: IsPrime(p) && Divides(p, u) ==> p < i
    ensures Radical(m, i) > 0 && Coprime(Radical(m, i), u)
  {
    assert IsPrime(2);
    RadicalPrimes(m, i, 2);
    forall p: nat | IsPrime(p) && Divides(p, Radical(m, i)) ensures !Divides(p, u) {
      RadicalPrimes(m, i, p);
    }
  }

  /** Two factors without a common prime divide together what each of them divides. */
  lemma ProductDividesBoth(u: nat, v: nat, z: int)
    requires u > 0 && v > 0 && Coprime(v, u) && Divides(u, z) && Divides(v, z)
    ensures u * v > 0 && Divides(u * v, z)
  {
    hide Divides, Coprime;
    var k := Cofactor(u, z);
    CoprimeCancel(v, u, k);
    DividesCancel(u, v, k);
  }

  /** What all primes of m from i on divide, the radical divides. */
  lemma {:induction false} RadicalDivides(m: nat, i: nat, z: int)
    requires m > 0 && i >= 2
    requires forall p: nat :: IsPrime(p) && p >= i && Divides(p, m) ==> Divides(p, z)
    ensures Radical(m, i) > 0 && Divides(Radical(m, i), z)
    decreases m + 1 - i
  {
    if i > m {
      assert Times(1, z) == z;
    } else {
      RadicalDivides(m, i + 1, z);
      if IsPrime(i) && Divides(i, m) {
        forall p: nat | IsPrime(p) && Divides(p, i) ensures p < i + 1 { PrimeInPrime(p, i); }
        RadicalAvoids(m, i + 1, i);
        ProductDividesBoth(i, Radical(m, i + 1), z);
      }
    }
  }

  lemma PrimesOfFour(p: nat)
    requires IsPrime(p) && Divides(p, 4)
    ensures p == 2
  {
    assert Times(2, 2) == 4;
    Euclid(p, 2, 2);
    assert IsPrime(2);
    PrimeInPrime(p, 2);
  }

  /** Every good multiplier of m is one more than a multiple of the step. */
  lemma StepDivides(m: nat, x: nat)
    requires m >= 2 && GoodMultiplier(x, m)
    ensures Step(m) > 0 && Divides(Step(m), x - 1)
  {
    RadicalDivides(m, 2, x - 1);
    if Divides(4, m) {
      assert Times(2, 2) == 4;
      DividesTrans(2, 4, m);
      assert IsPrime(2) && Radical(m, 2) == 2 * Radical(m, 3);
      RadicalDivides(m, 3, x - 1);
      forall p: nat | IsPrime(p) && Divides(p, 4) ensures p < 3 { PrimesOfFour(p); }
      RadicalAvoids(m, 3, 4);
      ProductDividesBoth(4, Radical(m, 3), x - 1);
      assert Step(m) == 4 * Radical(m, 3);
    }
  }

  /** The step divides m, and is at least two. */
  lemma StepOfModulus(m: nat)
    requires m >= 2
    ensures Step(m) >= 2 && Divides(Step(m), m)
  {
    DividesMul(m, 1);
    StepDivides(m, m + 1);
    hide Radical, Twos;
    if Step(m) == 1 { StepIsNotOne(m); }
  }

  lemma StepIsNotOne(m: nat)
    requires m >= 2
    ensures Step(m) != 1
  {
    var p := PrimeFactor(m);
    PrimeInRadical(m, 2, p);
    RadicalPrimes(m, 2, p);
    DividesLe(p, Radical(m, 2));
  }

  lemma {:induction false} PrimeInRadical(m: nat, i: nat, p: nat)
    requires m > 0 && 2 <= i <= p && IsPrime(p) && Divides(p, m)
    ensures Divides(p, Radical(m, i))
    decreases m + 1 - i
  {
    DividesLe(p, m);
    if i == p {
      DividesMul(p, Radical(m, i + 1));
    } else {
      PrimeInRadical(m, i + 1, p);
      if IsPrime(i) && Divides(i, m) { DividesMulOther(p, Radical(m, i + 1), i); }
    }
  }

  /** m has no good multiplier below it but 1. */
  ghost predicate OnlyTrivial(m: nat) {
    forall x: nat :: x < m && GoodMultiplier(x, m) ==> x == 1
  }

  /** a is the least good multiplier of m other than 1. */
  ghost predicate LeastMultiplier(a: nat, m: nat) {
    && 1 < a < m && GoodMultiplier(a, m)
    && forall x: nat :: GoodMultiplier(x, m) && x != 1 ==> a <= x
  }

  /** What getA computes: 1 if m has no other good multiplier, and otherwise the least. */
  lemma GetAIsLeast(m: nat, a: nat)
    requires m >= 3 && a == (Step(m) + 1) % m && GoodMultiplier(a, m)
    ensures if a == 1 then OnlyTrivial(m) else LeastMultiplier(a, m)
  {
    hide Step, GoodMultiplier;
    StepOfModulus(m);
    DividesLe(Step(m), m);
    if Step(m) == m {
      DivUnique(m + 1, m, 1, 1);
      forall x: nat | x < m && GoodMultiplier(x, m) ensures x == 1 { OneStep(m, x); }
    } else {
      StepIsHalf(m);
      DivUnique(Step(m) + 1, m, 0, Step(m) + 1);
      forall x: nat | GoodMultiplier(x, m) && x != 1 ensures a <= x { OneStep(m, x); }
    }
  }

  lemma OneStep(m: nat, x: nat)
    requires m >= 2 && GoodMultiplier(x, m)
    ensures x >= 1 && (x != 1 ==> Step(m) + 1 <= x)
  {
    StepDivides(m, x);
    if x > 1 { DividesLe(Step(m), x - 1); }
  }

  lemma StepIsHalf(m: nat)
    requires m >= 3 && Step(m) >= 2 && Divides(Step(m), m) && Step(m) != m
    ensures Step(m) + 1 < m
  {
    hide Step;
    var k := Cofactor(Step(m), m);
    if k <= 1 { MulMono(Step(m), k, 1); } else { MulMono(Step(m), 2, k); }
  }

  // -------------------------------------------------------------------- getC

  /** The increment: the largest prime at most three quarters of m, plus one. */
  ghost predicate LargestPrime(c: nat, m: nat) {
    && (c == 1 || IsPrime(c))
    && c <= 3 * m / 4 + 1
    && forall p: nat :: c < p <= 3 * m / 4 + 1 ==> !IsPrime(p)
  }

  method GetC(m: nat) returns (c: nat)
    ensures LargestPrime(c, m)
  {
    var start := 3 * m / 4 + 1;
    c := start;
    while c > 1
      invariant 1 <= c <= start
      invariant forall p: nat :: c < p <= start ==> !IsPrime(p)
    {
      var failed := false;
      var i := 2;
      while i < c && !failed
        invariant 2 <= i <= c
        invariant failed ==> !IsPrime(c)
        invariant !failed ==> forall d: nat :: 2 <= d < i ==> !Divides(d, c)
      {
        RoundTripDivides(c, i);
        if c / i * i == c { failed := true; }
        i := i + 1;
      }
      if !failed { return; }
      c := c - 1;
    }
  }

  /** The increment never divides a modulus between 5 and 2^32, so it is a unit. */
  lemma IncrementIsCoprime(c: nat, m: nat)
    requires 5 <= m <= 0x1_0000_0000 && LargestPrime(c, m)
    ensures Coprime(m, c) && c <= m
  {
    var p := PrimeChain.Bracket(m);
    assert c >= p;
    if Divides(c, m) {
      var k := ProperCofactor(c, m);
      if k >= 2 { MulMono(c, 2, k); } else { MulMono(c, k, 1); }
    }
    CoprimeOfPrime(c, m);
  }

  /** For a modulus of any size, whether the increment divides it decides everything. */
  lemma IncrementDecides(c: nat, m: nat)
    requires m >= 5 && LargestPrime(c, m)
    ensures c <= m && IsPrime(c) && (Coprime(m, c) <==> !Divides(c, m))
  {
    SmallPrimes();
    assert !(c < 3);
    if Divides(c, m) {
      DividesMul(c, 1);
    } else {
      CoprimeOfPrime(c, m);
    }
  }

  lemma SmallPrimes()
    ensures IsPrime(3)
  {
    DividesMod(2, 3);
  }

  /** The generator of a queue of this length: the least modulus from the length on that has a
      multiplier other than 1, the least such multiplier, and the largest prime in range. */
  ghost predicate Generated(length: nat, a: nat, c: nat, m: nat) {
    if length < 3 then a == c == 1 && m == length
    else
      && length <= m && LeastMultiplier(a, m) && LargestPrime(c, m)
      && forall k: nat :: length <= k < m ==> OnlyTrivial(k)
  }

  /** The whole search of the constructor. A queue of three or more pages moves on to
      larger moduli until the multiplier is not 1; a multiple of eight always stops it. The result
      is the least modulus that has a multiplier other than 1, with the least such one. The path
      is good exactly when the increment does not divide the modulus, which is so for every
      queue size up to the bound. */
  method ChooseGenerator(length: nat) returns (a: nat, c: nat, modlength: nat)
    ensures length <= modlength <= length + 7 && Generated(length, a, c, modlength)
    ensures length >= 3 ==> (GoodPath(length, a, c, modlength) <==> !Divides(c, modlength))
    ensures 1 <= length <= 0xFFFF_FFF8 ==> GoodPath(length, a, c, modlength)
  {
    modlength := length;
    if length < 3 {
      a, c := 1, 1;
      SmallQueue(length);
    } else {
      a := NextMultiplier(length);
      while a == 1
        invariant length <= modlength <= RoundUp(length)
        invariant a < modlength && GoodMultiplier(a, modlength)
        invariant if a == 1 then OnlyTrivial(modlength) else LeastMultiplier(a, modlength)
        invariant forall m: nat :: length <= m < modlength ==> OnlyTrivial(m)
        invariant modlength % 8 == 0 ==> a != 1
        decreases RoundUp(length) - modlength
      {
        modlength := modlength + 1;
        a := NextMultiplier(modlength);
      }
      c := GetC(modlength);
      NontrivialModulus(a, modlength);
      IncrementDecides(c, modlength);
      if length <= 0xFFFF_FFF8 {
        IncrementIsCoprime(c, modlength);
      }
    }
  }

  method NextMultiplier(m: nat) returns (a: nat)
    requires m >= 3
    ensures a < m && GoodMultiplier(a, m)
    ensures if a == 1 then OnlyTrivial(m) else LeastMultiplier(a, m)
    ensures m % 8 == 0 ==> a != 1
  {
    var r := GetA(m);
    a := r % m;
    DivUnique(r, m, 0, r);
    DividesMod(8, m);
    GetAIsLeast(m, a);
  }

  /** The next multiple of eight. */
  function RoundUp(n: nat): (r: nat)
    ensures n <= r <= n + 7 && r % 8 == 0
  {
    (n + 7) / 8 * 8
  }

  lemma SmallQueue(q: nat)
    ensures 1 <= q < 3 ==> GoodPath(q, 1, 1, q)
  {
    if 1 <= q < 3 {
      forall p: nat | IsPrime(p) && Divides(p, q) ensures Divides(p, 0) {
        DividesMul(p, 0);
      }
      DividesMod(4, q);
      CoprimeOfPrime(1, q);
    }
  }

  /** Moduli three and four admit no multiplier but 1. */
  lemma NontrivialModulus(a: nat, m: nat)
    requires m >= 3 && a < m && GoodMultiplier(a, m) && a != 1
    ensures m >= 5
  {
    if m == 3 {
      DividesMod(2, 3);
      DividesMul(3, 1);
      assert IsPrime(3);
      DividesMod(3, a - 1);
    } else if m == 4 {
      DividesMul(4, 1);
      DividesMod(4, a - 1);
    }
  }
}
