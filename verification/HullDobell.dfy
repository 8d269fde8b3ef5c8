/** When x -> (a*x + c) mod m visits every residue before it repeats one. */
module HullDobell {
  import opened NumberTheory
  import Pigeonhole

  /** The two conditions the queue's multiplier search aims at. */
  ghost predicate GoodMultiplier(a: nat, m: nat) {
    && a >= 1
    && (forall p: nat :: IsPrime(p) && Divides(p, m) ==> Divides(p, a - 1))
    && (Divides(4, m) ==> Divides(4, a - 1))
  }

  function Tri(n: nat): nat {
    if n == 0 then 0 else Tri(n - 1) + n - 1
  }

  lemma {:induction false} TriTwice(n: nat)
    ensures 2 * Tri(n) == n * (n - 1)
  {
    if n > 0 {
      TriTwice(n - 1);
      assert n * (n - 1) == (n - 1) * (n - 2) + 2 * (n - 1);
    }
  }

  lemma SecondOrderAlgebra(t: int, G: int, T: int, n: int, e: int)
    requires e == G - (n - 1) - t * T
    ensures 1 + (1 + t) * G - n - t * (T + n - 1) == e + t * e + (t * t) * T
  {
    assert (1 + t) * G == G + t * G;
    assert t * e == t * G - t * (n - 1) - t * (t * T);
    assert t * (T + n - 1) == t * T + t * (n - 1);
    assert t * (t * T) == (t * t) * T;
  }

  lemma ProductDivides(p: nat, s: int, t: int)
    requires p > 0 && Divides(p, s) && Divides(p, t)
    ensures p * p > 0 && Divides(p * p, s * t)
  {
    MulPos(p, p);
    var k := Cofactor(p, s);
    var h := Cofactor(p, t);
    assert Times(p * p, k * h) == s * t;
  }

  /** Second-order expansion of the geometric sum around a == 1. */
  lemma {:induction false} GeoSecondOrder(a: int, d: nat, n: nat)
    requires d > 0 && Divides(d, a - 1)
    ensures d * d > 0 && Divides(d * d, Geo(a, n) - n - (a - 1) * Tri(n))
  {
    MulPos(d, d);
    var t := a - 1;
    if n == 0 {
      assert t * Tri(0) == 0;
      DividesMul(d * d, 0);
    } else {
      GeoSecondOrder(a, d, n - 1);
      var G, T, dd := Geo(a, n - 1), Tri(n - 1), d * d;
      var e := G - (n - 1) - t * T;
      SecondOrderAlgebra(t, G, T, n, e);
      ProductDivides(d, t, t);
      DividesMulOther(dd, t * t, T);
      DividesMulOther(dd, e, t);
      DividesAdd(dd, e, t * e);
      DividesAdd(dd, e + t * e, (t * t) * T);
    }
  }

  lemma GeoCofactor(a: nat, p: nat) returns (u: nat)
    requires p > 0 && a >= 1 && Divides(p, a - 1)
    ensures Geo(a, p) == p * u
  {
    GeoModDivisor(a, p, p);
    DividesMul(p, 1);
    DividesAdd(p, p, Geo(a, p) - p);
    var k := Cofactor(p, Geo(a, p));
    GeoNonNeg(a, p);
    if k < 0 { MulMono(p, k, -1); }
    u := k;
  }

  lemma OddPrimeSquare(a: nat, p: nat)
    requires IsPrime(p) && p > 2 && a >= 1 && Divides(p, a - 1)
    ensures p * p > 0 && Divides(p * p, Geo(a, p) - p)
  {
    GeoSecondOrder(a, p, p);
    OddTri(p);
    ProductDivides(p, a - 1, Tri(p));
    DividesAdd(p * p, Geo(a, p) - p - (a - 1) * Tri(p), (a - 1) * Tri(p));
  }

  /** One factor p leaves a sum of p terms, and only one. */
  lemma GeoPrimeOnce(a: nat, p: nat, u: nat)
    requires IsPrime(p) && a >= 1 && Divides(p, a - 1) && Geo(a, p) == p * u
    requires p == 2 ==> Divides(4, a - 1)
    ensures !Divides(p, u)
  {
    if p == 2 {
      GeoTwoOnce(a, u);
    } else {
      OddPrimeSquare(a, p);
      DividesCancel(p, p, u);
      MulMono(p, 2, p);
      if Divides(p, u) {
        DividesAdd(p * p, p * u, p);
        DividesLe(p * p, p);
      }
    }
  }

  lemma GeoTwoOnce(a: nat, u: nat)
    requires a >= 1 && Divides(4, a - 1) && Geo(a, 2) == 2 * u
    ensures !Divides(2, u)
  {
    assert Geo(a, 2) == 1 + a * (1 + a * Geo(a, 0)) == 1 + a;
    DividesMod(4, a - 1);
    DividesMod(2, u);
  }

  lemma TwiceProduct(p: nat, h: nat)
    requires p == 2 * h + 1
    ensures p * (p - 1) == 2 * (p * h)
  {}

  lemma OddPrime(p: nat)
    requires IsPrime(p) && p > 2
    ensures p % 2 == 1
  {
    DividesMod(2, p);
  }

  lemma OddTri(p: nat)
    requires IsPrime(p) && p > 2
    ensures Divides(p, Tri(p))
  {
    hide *;
    OddPrime(p);
    var h := p / 2;
    TriTwice(p);
    TwiceProduct(p, h);
    DividesMul(p, h);
  }

  /** The cofactor left after taking p out of a sum of p terms shares no prime with m/p. */
  lemma CofactorCoprime(a: nat, m: nat, p: nat) returns (u: nat)
    requires m > 0 && p * m > 0 && GoodMultiplier(a, p * m) && IsPrime(p)
    ensures Geo(a, p) == p * u && Coprime(m, u)
  {
    DividesMul(p, m);
    u := GeoCofactor(a, p);
    forall q: nat | IsPrime(q) && Divides(q, m) ensures !Divides(q, u) {
      DividesMulOther(q, m, p);
      if q == p {
        if p == 2 {
          var h := Cofactor(2, m);
          assert Times(4, h) == p * m;
        }
        GeoPrimeOnce(a, p, u);
      } else if Divides(q, u) {
        DividesMulOther(q, u, p);
        GeoModDivisor(a, q, p);
        DividesAdd(q, Geo(a, p), p);
        DividesLe(q, p);
      }
    }
  }

  lemma MultiplierPower(a: nat, m: nat, p: nat)
    requires m > 0 && p > 0 && GoodMultiplier(a, p * m)
    ensures Pow(a, p) >= 1 && GoodMultiplier(Pow(a, p), m)
  {
    PowPos(a, p);
    forall q: nat | IsPrime(q) && Divides(q, m) ensures Divides(q, Pow(a, p) - 1) {
      DividesMulOther(q, m, p);
      GeoModDivisor(a, q, p);
    }
    if Divides(4, m) {
      DividesMulOther(4, m, p);
      GeoModDivisor(a, 4, p);
    }
  }

  /** m divides a sum of n powers exactly when it divides n. */
  lemma {:induction false} GeoDivisible(a: nat, m: nat, n: nat)
    requires m > 0 && GoodMultiplier(a, m)
    ensures Divides(m, Geo(a, n)) <==> Divides(m, n)
    decreases m
  {
    if m == 1 {
      assert Times(1, n) == n && Times(1, Geo(a, n)) == Geo(a, n);
    } else {
      var p := PrimeFactor(m);
      GeoModDivisor(a, p, n);
      if Divides(m, Geo(a, n)) {
        DividesTrans(p, m, Geo(a, n));
        DividesAdd(p, Geo(a, n), n);
        GeoDivisibleStep(a, m, n, p);
      } else if Divides(m, n) {
        DividesTrans(p, m, n);
        GeoDivisibleStep(a, m, n, p);
      }
    }
  }

  lemma GeoDivisibleStep(a: nat, m: nat, n: nat, p: nat)
    requires m > 1 && GoodMultiplier(a, m) && IsPrime(p) && Divides(p, m) && Divides(p, n)
    ensures Divides(m, Geo(a, n)) <==> Divides(m, n)
    decreases m, 0
  {
    var m' := ProperCofactor(p, m);
    DividesMod(p, n);
    var n' := n / p;
    MultiplierPower(a, m', p);
    GeoDivisible(Pow(a, p), m', n');
    GeoBlocks(a, m', n', p);
    DividesCancel(p, m', n');
  }

  lemma MulAssoc(a: int, b: int, c: int)
    ensures (a * b) * c == a * (b * c)
  {}

  /** Taking p out of both the modulus and the number of terms. */
  lemma GeoBlocks(a: nat, m: nat, n: nat, p: nat)
    requires m > 0 && p * m > 0 && GoodMultiplier(a, p * m) && IsPrime(p)
    ensures Divides(p * m, Geo(a, p * n)) <==> Divides(m, Geo(Pow(a, p), n))
  {
    hide GoodMultiplier, Coprime, Geo, Pow, Divides, IsPrime;
    var u := CofactorCoprime(a, m, p);
    GeoMul(a, p, n);
    var s := Geo(Pow(a, p), n);
    MulAssoc(p, u, s);
    DividesCancel(p, m, u * s);
    if Divides(m, u * s) { CoprimeCancel(m, u, s); }
    if Divides(m, s) { DividesMulOther(m, s, u); }
  }

  // ------------------------------------------------------------------- orbit

  /** n steps of x -> (a*x + c) mod m. */
  function Orbit(a: nat, c: nat, m: nat, x: nat, n: nat): nat
    requires m > 0
  {
    if n == 0 then x else (a * Orbit(a, c, m, x, n - 1) + c) % m
  }

  lemma StepAlgebra(a: int, c: int, x: int, y: int, P: int, G: int, e: int)
    requires e == y - (P * x + c * G)
    ensures a * y + c - ((a * P) * x + c * (1 + a * G)) == a * e
  {
    assert a * e == a * y - a * (P * x) - a * (c * G);
    assert a * (P * x) == (a * P) * x;
    assert c * (1 + a * G) == c + a * (c * G);
  }

  /** Reducing modulo a multiple of p keeps congruence modulo p. */
  lemma ReduceCongruent(p: nat, m: nat, z: int, w: int)
    requires m > 0 && p > 0 && Divides(p, m) && Divides(p, z - w)
    ensures Divides(p, z % m - w)
  {
    assert Times(m, z / m) == z - z % m;
    DividesTrans(p, m, z - z % m);
    DividesAdd(p, z - z % m, z - w);
    assert (z - w) - (z - z % m) == z % m - w;
  }

  lemma {:induction false} OrbitClosedForm(a: nat, c: nat, m: nat, x: nat, n: nat)
    requires m > 0
    ensures Divides(m, Orbit(a, c, m, x, n) - (Pow(a, n) * x + c * Geo(a, n)))
  {
    if n == 0 {
      assert Pow(a, 0) * x == x && c * Geo(a, 0) == 0;
      DividesMul(m, 0);
    } else {
      OrbitClosedForm(a, c, m, x, n - 1);
      var y, P, G := Orbit(a, c, m, x, n - 1), Pow(a, n - 1), Geo(a, n - 1);
      var e := y - (P * x + c * G);
      StepAlgebra(a, c, x, y, P, G, e);
      DividesMulOther(m, e, a);
      DividesMul(m, 1);
      ReduceCongruent(m, m, a * y + c, Pow(a, n) * x + c * Geo(a, n));
    }
  }

  lemma DistanceAlgebra(a: int, c: int, x: int, P: int, Q: int, R: int, S: int)
    requires Q - 1 == (a - 1) * S
    ensures (P * Q) * x + c * (R + P * S) - (P * x + c * R) == P * (((a - 1) * x + c) * S)
  {
    assert (P * Q) * x - P * x == P * ((Q - 1) * x);
    assert ((a - 1) * S) * x == ((a - 1) * x) * S;
    assert c * (R + P * S) - c * R == P * (c * S);
    assert ((a - 1) * x + c) * S == ((a - 1) * x) * S + c * S;
    assert P * (((a - 1) * x) * S + c * S) == P * (((a - 1) * x) * S) + P * (c * S);
  }

  /** Two points of the path coincide exactly when m divides their distance. */
  lemma FullPeriod(a: nat, c: nat, m: nat, x: nat, i: nat, j: nat)
    requires m > 0 && GoodMultiplier(a, m) && Coprime(m, c)
    requires i <= j && x < m
    ensures Orbit(a, c, m, x, i) == Orbit(a, c, m, x, j) <==> Divides(m, j - i)
  {
    var n := j - i;
    var P, S, w := Pow(a, i), Geo(a, n), (a - 1) * x + c;
    PowPos(a, i);
    MulMono(a - 1, 0, x);
    Coincidence(a, c, m, x, i, n);
    UnitFactors(a, c, m, x, i);
    if Divides(m, P * (w * S)) {
      CoprimeCancel(m, P, w * S);
      CoprimeCancel(m, w, S);
    } else if Divides(m, S) {
      DividesMulOther(m, S, w);
      DividesMulOther(m, w * S, P);
    }
    GeoDivisible(a, m, n);
  }

  lemma Coincidence(a: nat, c: nat, m: nat, x: nat, i: nat, n: nat)
    requires m > 0 && a >= 1 && x < m
    ensures Orbit(a, c, m, x, i) == Orbit(a, c, m, x, i + n)
       <==> Divides(m, Pow(a, i) * (((a - 1) * x + c) * Geo(a, n)))
  {
    OrbitClosedForm(a, c, m, x, i);
    OrbitClosedForm(a, c, m, x, i + n);
    OrbitInRange(a, c, m, x, i);
    OrbitInRange(a, c, m, x, i + n);
    PowAdd(a, i, n);
    GeoAdd(a, i, n);
    PowGeo(a, n);
    DistanceAlgebra(a, c, x, Pow(a, i), Pow(a, n), Geo(a, i), Geo(a, n));
    SameResidue(m, Orbit(a, c, m, x, i), Orbit(a, c, m, x, i + n),
                Pow(a, i) * x + c * Geo(a, i), Pow(a, i + n) * x + c * Geo(a, i + n));
  }

  lemma SameResidue(m: nat, oi: nat, oj: nat, ci: int, cj: int)
    requires m > 0 && oi < m && oj < m
    requires Divides(m, oi - ci) && Divides(m, oj - cj)
    ensures oi == oj <==> Divides(m, cj - ci)
  {
    ModCongruent(oi, ci, m);
    ModCongruent(oj, cj, m);
    ModCongruent(cj, ci, m);
    DivUnique(oi, m, 0, oi);
    DivUnique(oj, m, 0, oj);
  }

  lemma UnitFactors(a: nat, c: nat, m: nat, x: nat, i: nat)
    requires m > 0 && GoodMultiplier(a, m) && Coprime(m, c)
    requires (a - 1) * x >= 0 && Pow(a, i) >= 1
    ensures Coprime(m, Pow(a, i)) && Coprime(m, (a - 1) * x + c)
  {
    forall q: nat | IsPrime(q) && Divides(q, m)
      ensures !Divides(q, Pow(a, i)) && !Divides(q, (a - 1) * x + c)
    {
      GeoModDivisor(a, q, i);
      if Divides(q, Pow(a, i)) {
        DividesAdd(q, Pow(a, i), 1);
        DividesLe(q, 1);
      }
      DividesMulOther(q, a - 1, x);
      DividesAdd(q, (a - 1) * x, c);
    }
  }

  lemma {:induction false} PowGeo(a: int, n: nat)
    ensures Pow(a, n) - 1 == (a - 1) * Geo(a, n)
  {
    if n > 0 {
      PowGeo(a, n - 1);
      var G := Geo(a, n - 1);
      assert (a - 1) * (1 + a * G) == (a - 1) + a * ((a - 1) * G);
      assert a * Pow(a, n - 1) == a * (1 + (a - 1) * G);
    }
  }

  lemma OrbitInRange(a: nat, c: nat, m: nat, x: nat, n: nat)
    requires x < m
    ensures Orbit(a, c, m, x, n) < m
  {}

  lemma PointsDiffer(a: nat, c: nat, m: nat, x: nat, i: nat, j: nat)
    requires m > 0 && GoodMultiplier(a, m) && Coprime(m, c) && x < m
    requires i < j < i + m
    ensures Orbit(a, c, m, x, i) != Orbit(a, c, m, x, j)
  {
    FullPeriod(a, c, m, x, i, j);
    if Divides(m, j - i) { DividesLe(m, j - i); }
  }

  /** The first n points of the path. */
  ghost function Points(a: nat, c: nat, m: nat, x: nat, n: nat): seq<nat>
    requires m > 0
  {
    seq(n, k requires 0 <= k < n => Orbit(a, c, m, x, k))
  }

  /** The first m points of the path are the m residues, each once. */
  lemma VisitsAll(a: nat, c: nat, m: nat, x: nat)
    requires m > 0 && GoodMultiplier(a, m) && Coprime(m, c) && x < m
    ensures Pigeonhole.Distinct(Points(a, c, m, x, m))
    ensures Pigeonhole.AllBelow(Points(a, c, m, x, m), m)
    ensures forall r: nat :: r < m ==> r in Points(a, c, m, x, m)
  {
    var s := Points(a, c, m, x, m);
    forall i, j | 0 <= i < j < |s| ensures s[i] != s[j] {
      PointsDiffer(a, c, m, x, i, j);
    }
    forall i | 0 <= i < |s| ensures s[i] < m {
      OrbitInRange(a, c, m, x, i);
    }
    Pigeonhole.Fits(s, m);
  }

  lemma {:induction false} SharedFactorStuck(a: nat, c: nat, m: nat, x: nat, p: nat, n: nat)
    requires m > 0 && p > 0 && Divides(p, m) && Divides(p, c) && Divides(p, a - 1)
    ensures Divides(p, Orbit(a, c, m, x, n) - x)
  {
    if n == 0 {
      DividesMul(p, 0);
    } else {
      SharedFactorStuck(a, c, m, x, p, n - 1);
      var y := Orbit(a, c, m, x, n - 1);
      StuckStep(a, c, p, x, y);
      ReduceCongruent(p, m, a * y + c, x);
    }
  }

  lemma StuckStep(a: nat, c: nat, p: nat, x: nat, y: nat)
    requires p > 0 && Divides(p, c) && Divides(p, a - 1) && Divides(p, y - x)
    ensures Divides(p, a * y + c - x)
  {
    DividesMulOther(p, a - 1, y);
    DividesAdd(p, (a - 1) * y, c);
    DividesAdd(p, (a - 1) * y + c, y - x);
    assert (a - 1) * y + c + (y - x) == a * y + c - x;
  }

  /** An increment that shares a prime with the modulus never reaches a neighbour of
      the start, so the condition on the increment cannot be dropped. */
  lemma NeedsCoprimeIncrement(a: nat, c: nat, m: nat, x: nat, n: nat)
    requires m > 0 && GoodMultiplier(a, m) && !Coprime(m, c) && x < m
    ensures Orbit(a, c, m, x, n) != x + 1 && Orbit(a, c, m, x, n) != x - 1
  {
    var p: nat :| IsPrime(p) && Divides(p, m) && Divides(p, c);
    SharedFactorStuck(a, c, m, x, p, n);
    var d := Orbit(a, c, m, x, n) - x;
    if d == 1 { DividesLe(p, 1); }
    if d == -1 {
      DividesAdd(p, -1, 1);
      DividesMul(p, 0);
      DividesLe(p, 1);
    }
  }
}
