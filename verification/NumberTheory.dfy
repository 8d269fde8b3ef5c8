/** Divisibility, primes and the power sums behind a linear congruential path. */
module NumberTheory {

  function Times(d: int, k: int): int {
    d * k
  }

  /** d divides n. Stated with a cofactor; DividesMod relates it to the remainder. */
  ghost predicate Divides(d: nat, n: int)
    requires d > 0
  {
    exists k: int :: Times(d, k) == n
  }

  ghost predicate IsPrime(p: nat) {
    p >= 2 && forall d: nat :: 2 <= d < p ==> !Divides(d, p)
  }

  /** No prime divides both numbers. */
  ghost predicate Coprime(a: nat, b: nat) {
    forall p: nat :: IsPrime(p) && Divides(p, a) ==> !Divides(p, b)
  }

  // ---------------------------------------------------------------- division

  lemma MulMono(d: nat, x: int, y: int)
    requires x <= y
    ensures d * x <= d * y
  {
    assert d * y - d * x == d * (y - x);
    var k: nat := y - x;
    assert d * k >= 0;
  }

  lemma DivUnique(n: int, d: nat, q: int, r: int)
    requires d > 0 && 0 <= r < d && n == d * q + r
    ensures n / d == q && n % d == r
  {
    var q', r' := n / d, n % d;
    assert n == d * q' + r';
    if q < q' {
      MulMono(d, q + 1, q');
    } else if q' < q {
      MulMono(d, q' + 1, q);
    }
  }

  lemma DividesMod(d: nat, n: int)
    requires d > 0
    ensures Divides(d, n) <==> n % d == 0
    ensures Divides(d, n) ==> n == d * (n / d)
  {
    if Divides(d, n) {
      var k :| Times(d, k) == n;
      DivUnique(n, d, k, 0);
    }
    if n % d == 0 {
      assert Times(d, n / d) == n;
    }
  }

  lemma DividesMul(d: nat, k: int)
    requires d > 0
    ensures Divides(d, d * k)
  {
    assert Times(d, k) == d * k;
  }

  lemma Cofactor(d: nat, n: int) returns (k: int)
    requires d > 0 && Divides(d, n)
    ensures n == d * k
  {
    k :| Times(d, k) == n;
  }

  lemma DividesMulOther(d: nat, a: int, k: int)
    requires d > 0 && Divides(d, a)
    ensures Divides(d, a * k) && Divides(d, k * a)
  {
    var q := Cofactor(d, a);
    assert a * k == d * (q * k);
    DividesMul(d, q * k);
  }

  lemma DividesAdd(d: nat, a: int, b: int)
    requires d > 0 && Divides(d, a)
    ensures Divides(d, a + b) <==> Divides(d, b)
    ensures Divides(d, a - b) <==> Divides(d, b)
    ensures Divides(d, b - a) <==> Divides(d, b)
  {
    var q := Cofactor(d, a);
    if Divides(d, b) {
      var k := Cofactor(d, b);
      assert Times(d, q + k) == a + b && Times(d, q - k) == a - b && Times(d, k - q) == b - a;
    }
    if Divides(d, a + b) {
      var k := Cofactor(d, a + b);
      assert Times(d, k - q) == b;
    }
    if Divides(d, a - b) {
      var k := Cofactor(d, a - b);
      assert Times(d, q - k) == b;
    }
    if Divides(d, b - a) {
      var k := Cofactor(d, b - a);
      assert Times(d, k + q) == b;
    }
  }

  lemma DividesTrans(d: nat, e: nat, n: int)
    requires d > 0 && e > 0 && Divides(d, e) && Divides(e, n)
    ensures Divides(d, n)
  {
    var k := Cofactor(e, n);
    DividesMulOther(d, e, k);
  }

  lemma DividesLe(d: nat, n: nat)
    requires d > 0 && n > 0 && Divides(d, n)
    ensures d <= n
  {
    var q := Cofactor(d, n);
    if q <= 0 { MulMono(d, q, 0); } else { MulMono(d, 1, q); }
  }

  lemma MulPos(a: nat, b: nat)
    requires a > 0 && b > 0
    ensures a * b > 0
  {
    MulMono(a, 1, b);
  }

  lemma MulCancel(p: int, x: int, y: int)
    requires p != 0 && p * x == p * y
    ensures x == y
  {
    assert p * (x - y) == 0;
  }

  /** Cancels a common positive factor on both sides of a divisibility. */
  lemma DividesCancel(p: nat, d: nat, n: int)
    requires p > 0 && d > 0
    ensures p * d > 0
    ensures Divides(p * d, p * n) <==> Divides(d, n)
  {
    MulPos(p, d);
    if Divides(d, n) {
      var k := Cofactor(d, n);
      assert Times(p * d, k) == p * n;
    }
    if Divides(p * d, p * n) {
      var k := Cofactor(p * d, p * n);
      MulCancel(p, n, d * k);
      DividesMul(d, k);
    }
  }

  /** What is left of m once a factor of at least two is taken out. */
  lemma ProperCofactor(p: nat, m: nat) returns (k: nat)
    requires p >= 2 && m > 0 && Divides(p, m)
    ensures m == p * k && m / p == k && 0 < k < m
  {
    DividesMod(p, m);
    k := m / p;
    if k >= m { MulMono(k, 2, p); }
  }

  lemma ModCongruent(x: int, y: int, m: nat)
    requires m > 0
    ensures x % m == y % m <==> Divides(m, x - y)
  {
    var qx, qy := x / m, y / m;
    if x % m == y % m {
      assert Times(m, qx - qy) == x - y;
    }
    if Divides(m, x - y) {
      var k := Cofactor(m, x - y);
      assert x == m * (qy + k) + y % m;
      DivUnique(x, m, qy + k, y % m);
    }
  }

  // ------------------------------------------------------------------ primes

  lemma PrimeFactor(n: nat) returns (p: nat)
    requires n >= 2
    ensures IsPrime(p) && Divides(p, n) && p <= n
  {
    if IsPrime(n) {
      p := n;
      DividesMul(n, 1);
    } else {
      var d: nat :| 2 <= d < n && Divides(d, n);
      p := PrimeFactor(d);
      DividesTrans(p, d, n);
    }
  }

  lemma {:induction false} EuclidSmall(p: nat, a: nat, b: int)
    requires IsPrime(p) && 0 < a < p && Divides(p, a * b)
    ensures Divides(p, b)
    decreases a
  {
    if a == 1 {
      assert a * b == b;
    } else {
      var q, r := p / a, p % a;
      DividesMod(a, p);
      assert r * b == p * b - q * (a * b) by {
        assert (a * q) * b == q * (a * b);
        assert (p - a * q) * b == p * b - (a * q) * b;
      }
      DividesMul(p, b);
      DividesMulOther(p, a * b, q);
      DividesAdd(p, p * b, q * (a * b));
      EuclidSmall(p, r, b);
    }
  }

  /** Euclid's lemma. */
  lemma Euclid(p: nat, a: int, b: int)
    requires IsPrime(p) && Divides(p, a * b)
    ensures Divides(p, a) || Divides(p, b)
  {
    var q, r := a / p, a % p;
    DividesMod(p, a);
    if r != 0 {
      assert r * b == a * b - p * (q * b) by {
        assert (p * q + r) * b == (p * q) * b + r * b;
      }
      DividesMul(p, q * b);
      DividesAdd(p, p * (q * b), a * b);
      EuclidSmall(p, r, b);
    }
  }

  lemma CoprimeFactor(p: nat, m: nat, u: nat)
    requires p > 0 && m > 0 && p * m > 0 && Coprime(p * m, u)
    ensures Coprime(m, u)
  {
    forall q: nat | IsPrime(q) && Divides(q, m) ensures !Divides(q, u) {
      DividesMulOther(q, m, p);
    }
  }

  lemma PrimeOutOfProduct(p: nat, m: nat, u: nat, s: int) returns (s': int)
    requires IsPrime(p) && m > 0 && p * m > 0 && Coprime(p * m, u) && Divides(p * m, u * s)
    ensures s == p * s' && Divides(m, u * s')
  {
    DividesMul(p, m);
    DividesTrans(p, p * m, u * s);
    Euclid(p, u, s);
    s' := Cofactor(p, s);
    assert u * s == p * (u * s');
    DividesCancel(p, m, u * s');
  }

  /** A divisor with no prime in common with one factor divides the other. */
  lemma {:induction false} CoprimeCancel(m: nat, u: nat, s: int)
    requires m > 0 && Coprime(m, u) && Divides(m, u * s)
    ensures Divides(m, s)
    decreases m
  {
    if m == 1 {
      assert Times(1, s) == s;
    } else {
      var p := PrimeFactor(m);
      var m' := ProperCofactor(p, m);
      var s' := PrimeOutOfProduct(p, m', u, s);
      CoprimeFactor(p, m', u);
      CoprimeCancel(m', u, s');
      DividesCancel(p, m', s');
    }
  }

  lemma CoprimeOfPrime(c: nat, m: nat)
    requires m > 0 && (c == 1 || (IsPrime(c) && !Divides(c, m)))
    ensures Coprime(m, c)
  {
    forall p: nat | IsPrime(p) && Divides(p, m) ensures !Divides(p, c) {
      if Divides(p, c) {
        DividesLe(p, c);
      }
    }
  }

  // --------------------------------------------------------- geometric sums

  ghost function Pow(a: int, n: nat): int {
    if n == 0 then 1 else a * Pow(a, n - 1)
  }

  /** 1 + a + ... + a^(n-1). */
  ghost function Geo(a: int, n: nat): int {
    if n == 0 then 0 else 1 + a * Geo(a, n - 1)
  }

  lemma {:induction false} PowPos(a: int, n: nat)
    requires a >= 1
    ensures Pow(a, n) >= 1
  {
    if n > 0 { PowPos(a, n - 1); MulMono(a, 1, Pow(a, n - 1)); }
  }

  lemma {:induction false} GeoNonNeg(a: int, n: nat)
    requires a >= 0
    ensures Geo(a, n) >= 0
  {
    if n > 0 { GeoNonNeg(a, n - 1); MulMono(a, 0, Geo(a, n - 1)); }
  }

  lemma {:induction false} PowAdd(a: int, x: nat, y: nat)
    ensures Pow(a, x + y) == Pow(a, x) * Pow(a, y)
  {
    if x > 0 {
      PowAdd(a, x - 1, y);
      assert Pow(a, x + y) == a * (Pow(a, x - 1) * Pow(a, y));
    }
  }

  lemma {:induction false} PowMul(a: int, x: nat, y: nat)
    ensures Pow(Pow(a, x), y) == Pow(a, x * y)
  {
    if y == 0 {
      assert x * y == 0;
    } else {
      PowMul(a, x, y - 1);
      assert x * y == x + x * (y - 1);
      PowAdd(a, x, x * (y - 1));
    }
  }

  lemma AddAlgebra(a: int, G: int, P: int, H: int)
    ensures 1 + a * (G + P * H) == (1 + a * G) + (a * P) * H
  {
    assert a * (G + P * H) == a * G + a * (P * H);
    assert a * (P * H) == (a * P) * H;
  }

  lemma {:induction false} GeoAdd(a: int, x: nat, y: nat)
    ensures Geo(a, x + y) == Geo(a, x) + Pow(a, x) * Geo(a, y)
  {
    if x > 0 {
      GeoAdd(a, x - 1, y);
      AddAlgebra(a, Geo(a, x - 1), Pow(a, x - 1), Geo(a, y));
    }
  }

  /** A sum of p*n terms splits into n blocks of p terms. */
  lemma {:induction false} GeoMul(a: int, p: nat, n: nat)
    ensures Geo(a, p * n) == Geo(a, p) * Geo(Pow(a, p), n)
  {
    hide *;
    if n == 0 {
      GeoZero(a);
      GeoZero(Pow(a, p));
      assert p * n == 0;
    } else {
      GeoMul(a, p, n - 1);
      BlockAlgebra(p, n, Pow(a, p), Geo(a, p), Geo(Pow(a, p), n - 1));
      GeoAdd(a, p, p * (n - 1));
      GeoStep(Pow(a, p), n);
    }
  }

  lemma GeoZero(a: int)
    ensures Geo(a, 0) == 0
  {}

  lemma GeoStep(a: int, n: nat)
    requires n > 0
    ensures Geo(a, n) == 1 + a * Geo(a, n - 1)
  {}

  lemma BlockAlgebra(p: nat, n: nat, A: int, G: int, T: int)
    requires n > 0
    ensures p * n == p + p * (n - 1) && p * (n - 1) >= 0
    ensures G + A * (G * T) == G * (1 + A * T)
  {
    MulMono(p, 0, n - 1);
    assert G * (A * T) == A * (G * T);
  }

  /** Modulo any divisor of a - 1 every power is 1 and the sum of n of them is n. */
  lemma {:induction false} GeoModDivisor(a: int, d: nat, n: nat)
    requires d > 0 && Divides(d, a - 1)
    ensures Divides(d, Pow(a, n) - 1) && Divides(d, Geo(a, n) - n)
  {
    if n == 0 {
      DividesMul(d, 0);
    } else {
      GeoModDivisor(a, d, n - 1);
      var P, G := Pow(a, n - 1), Geo(a, n - 1);
      assert Pow(a, n) - 1 == (a - 1) * P + (P - 1);
      DividesMulOther(d, a - 1, P);
      DividesAdd(d, (a - 1) * P, P - 1);
      assert Geo(a, n) - n == (a - 1) * G + (G - (n - 1));
      DividesMulOther(d, a - 1, G);
      DividesAdd(d, (a - 1) * G, G - (n - 1));
    }
  }
}
