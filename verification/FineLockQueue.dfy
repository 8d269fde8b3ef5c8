/** The fine-lock page queue: one try-lock per page, scanned along a linear congruential
    path that skips values outside the queue (src/finelock_queue.cc). */
module FineLockQueue {
  import opened NumberTheory
  import opened HullDobell
  import opened Generator
  import opened Pigeonhole

  // ----------------------------------------------------------- the probe path

  /** The path value after t steps. next_try starts at 1, which a one-page queue only
      ever uses modulo its size. */
  function Value(q: nat, a: nat, c: nat, m: nat, t: nat): nat
    requires 1 <= q <= m
  {
    Orbit(a, c, m, 1 % q, t)
  }

  /** The next step after t whose value is inside the queue, or m if there is none below m. */
  function NextStep(q: nat, a: nat, c: nat, m: nat, t: nat): (r: nat)
    requires 1 <= q <= m && t < m
    ensures t < r <= m
    ensures r < m ==> Value(q, a, c, m, r) < q
    ensures forall s: nat :: t < s < r ==> Value(q, a, c, m, s) >= q
    decreases m - t
  {
    if t + 1 == m || Value(q, a, c, m, t + 1) < q then t + 1
    else NextStep(q, a, c, m, t + 1)
  }

  /** The step at which probe k is made. */
  function ProbeStep(q: nat, a: nat, c: nat, m: nat, k: nat): (t: nat)
    requires 1 <= q <= m
    ensures t <= m
  {
    if k == 0 then 0
    else
      var t := ProbeStep(q, a, c, m, k - 1);
      if t < m then NextStep(q, a, c, m, t) else m
  }

  /** The queue index examined by probe k of a scan that starts at first. */
  function Probe(q: nat, a: nat, c: nat, m: nat, first: nat, k: nat): (i: nat)
    requires 1 <= q <= m
    ensures i < q
  {
    (Value(q, a, c, m, ProbeStep(q, a, c, m, k)) + first) % q
  }

  /** The values inside the queue met before step n. */
  ghost function Met(q: nat, a: nat, c: nat, m: nat, n: nat): seq<nat>
    requires 1 <= q <= m
  {
    if n == 0 then []
    else
      var v := Value(q, a, c, m, n - 1);
      if v < q then Met(q, a, c, m, n - 1) + [v] else Met(q, a, c, m, n - 1)
  }

  lemma {:induction false} MetIsPath(q: nat, a: nat, c: nat, m: nat, n: nat)
    requires GoodPath(q, a, c, m) && n <= m
    ensures AllBelow(Met(q, a, c, m, n), q) && Distinct(Met(q, a, c, m, n))
    ensures forall v: nat :: v in Met(q, a, c, m, n) <==>
      v < q && exists s: nat :: s < n && Value(q, a, c, m, s) == v
  {
    hide Orbit, GoodMultiplier, Coprime;
    if n > 0 {
      MetIsPath(q, a, c, m, n - 1);
      var v := Value(q, a, c, m, n - 1);
      forall s: nat | s < n - 1 ensures Value(q, a, c, m, s) != v {
        PointsDiffer(a, c, m, 1 % q, s, n - 1);
      }
      assert v !in Met(q, a, c, m, n - 1);
    }
  }

  lemma MetAll(q: nat, a: nat, c: nat, m: nat)
    requires GoodPath(q, a, c, m)
    ensures |Met(q, a, c, m, m)| == q
  {
    var met := Met(q, a, c, m, m);
    MetIsPath(q, a, c, m, m);
    VisitsAll(a, c, m, 1 % q);
    var pts := Points(a, c, m, 1 % q, m);
    forall v: nat | v < q ensures v in met {
      assert v in pts;
      var s :| 0 <= s < |pts| && pts[s] == v;
      assert Value(q, a, c, m, s) == v;
    }
    Fits(met, q);
    DistinctSize(met);
    SubsetSize(Residues(q), Elements(met));
  }

  lemma {:induction false} MetSkip(q: nat, a: nat, c: nat, m: nat, t: nat, r: nat)
    requires 1 <= q <= m && t <= r
    requires forall s: nat :: t <= s < r ==> Value(q, a, c, m, s) >= q
    ensures Met(q, a, c, m, r) == Met(q, a, c, m, t)
    decreases r - t
  {
    if t < r { MetSkip(q, a, c, m, t, r - 1); }
  }

  /** Before probe k exactly k values inside the queue have been met, and a probe that
      is one of the first q is made before the path closes. */
  lemma {:induction false} ProbeCount(q: nat, a: nat, c: nat, m: nat, k: nat)
    requires GoodPath(q, a, c, m) && k <= q
    ensures |Met(q, a, c, m, ProbeStep(q, a, c, m, k))| == k
    ensures k < q ==> ProbeStep(q, a, c, m, k) < m && Value(q, a, c, m, ProbeStep(q, a, c, m, k)) < q
    ensures k == q ==> ProbeStep(q, a, c, m, k) == m
  {
    hide Value, NextStep, GoodMultiplier, Coprime, Distinct;
    if k == 0 {
      StartInside(q, a, c, m);
    } else {
      ProbeCount(q, a, c, m, k - 1);
      hide Met;
      var t := ProbeStep(q, a, c, m, k - 1);
      MetOneMore(q, a, c, m, t);
      MetAtEnd(q, a, c, m, NextStep(q, a, c, m, t));
    }
  }

  /** From one value inside the queue to the next, one more has been met. */
  lemma MetOneMore(q: nat, a: nat, c: nat, m: nat, t: nat)
    requires 1 <= q <= m && t < m && Value(q, a, c, m, t) < q
    ensures var r := NextStep(q, a, c, m, t);
      t < r <= m && (r < m ==> Value(q, a, c, m, r) < q) && |Met(q, a, c, m, r)| == |Met(q, a, c, m, t)| + 1
  {
    hide Value, NextStep;
    MetSkip(q, a, c, m, t + 1, NextStep(q, a, c, m, t));
    assert Met(q, a, c, m, t + 1) == Met(q, a, c, m, t) + [Value(q, a, c, m, t)];
  }

  /** All q have been met exactly where the path closes. */
  lemma MetAtEnd(q: nat, a: nat, c: nat, m: nat, r: nat)
    requires GoodPath(q, a, c, m) && r <= m && (r < m ==> Value(q, a, c, m, r) < q)
    ensures |Met(q, a, c, m, r)| == q <==> r == m
  {
    hide GoodMultiplier, Coprime, Value;
    MetAll(q, a, c, m);
    if r < m { MetPrefix(q, a, c, m, r + 1, m); }
  }

  lemma StartInside(q: nat, a: nat, c: nat, m: nat)
    requires 1 <= q <= m
    ensures Value(q, a, c, m, 0) < q
  {
    DivUnique(1, q, 1 / q, 1 % q);
  }

  lemma {:induction false} MetPrefix(q: nat, a: nat, c: nat, m: nat, n: nat, r: nat)
    requires 1 <= q <= m && n <= r
    ensures |Met(q, a, c, m, n)| <= |Met(q, a, c, m, r)|
    decreases r - n
  {
    if n < r { MetPrefix(q, a, c, m, n, r - 1); }
  }

  lemma ProbeStepsIncrease(q: nat, a: nat, c: nat, m: nat, j: nat, k: nat)
    requires GoodPath(q, a, c, m) && j < k <= q
    ensures ProbeStep(q, a, c, m, j) < ProbeStep(q, a, c, m, k)
    decreases k - j
  {
    ProbeCount(q, a, c, m, k - 1);
    if j < k - 1 { ProbeStepsIncrease(q, a, c, m, j, k - 1); }
  }

  /** The indices one scan examines, in order. */
  function Probes(q: nat, a: nat, c: nat, m: nat, first: nat): seq<nat>
    requires 1 <= q <= m
  {
    seq(q, k requires 0 <= k < q => Probe(q, a, c, m, first, k))
  }

  lemma ShiftInjective(q: nat, x: nat, y: nat, first: nat)
    requires x < q && y < q && x != y
    ensures (x + first) % q != (y + first) % q
  {
    ModCongruent(x + first, y + first, q);
    if Divides(q, x - y) {
      if x > y {
        DividesLe(q, x - y);
      } else {
        DividesMul(q, 0);
        DividesAdd(q, x - y, 0);
        DividesAdd(q, x - y, x - y);
        DividesAdd(q, 0, x - y);
        DividesLe(q, y - x);
      }
    }
  }

  /** One scan examines every index of the queue exactly once, wherever it starts. */
  lemma ProbePermutation(q: nat, a: nat, c: nat, m: nat, first: nat)
    requires GoodPath(q, a, c, m)
    ensures Distinct(Probes(q, a, c, m, first))
    ensures AllBelow(Probes(q, a, c, m, first), q)
    ensures forall i: nat :: i < q ==> i in Probes(q, a, c, m, first)
  {
    var p := Probes(q, a, c, m, first);
    forall j, k | 0 <= j < k < |p| ensures p[j] != p[k] {
      ProbeStepsIncrease(q, a, c, m, j, k);
      ProbeCount(q, a, c, m, j);
      ProbeCount(q, a, c, m, k);
      var s, t := ProbeStep(q, a, c, m, j), ProbeStep(q, a, c, m, k);
      PointsDiffer(a, c, m, 1 % q, s, t);
      ShiftInjective(q, Value(q, a, c, m, s), Value(q, a, c, m, t), first);
    }
    Fits(p, q);
  }

  /** The discard loop skips at most seven values between two probes. */
  lemma SkipsAreShort(q: nat, a: nat, c: nat, m: nat, t: nat)
    requires GoodPath(q, a, c, m) && t < m
    ensures NextStep(q, a, c, m, t) - t - 1 <= m - q <= 7
  {
    var n := NextStep(q, a, c, m, t) - t - 1;
    var skipped := seq(n, k requires 0 <= k < n => SkippedValue(q, a, c, m, t, k));
    forall i, j | 0 <= i < j < |skipped| ensures skipped[i] != skipped[j] {
      PointsDiffer(a, c, m, 1 % q, t + 1 + i, t + 1 + j);
    }
    Fits(skipped, m - q);
  }

  ghost function SkippedValue(q: nat, a: nat, c: nat, m: nat, t: nat, k: nat): (v: nat)
    requires GoodPath(q, a, c, m) && t < m && t + 1 + k < NextStep(q, a, c, m, t)
    ensures v < m - q
  {
    OrbitInRange(a, c, m, 1 % q, t + 1 + k);
    Value(q, a, c, m, t + 1 + k) - q
  }
}
