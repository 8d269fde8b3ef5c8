/** Counting with duplicate-free sequences and finite sets. */
module Pigeonhole {

  predicate Distinct<T(==)>(s: seq<T>) {
    forall i, j :: 0 <= i < j < |s| ==> s[i] != s[j]
  }

  ghost predicate AllBelow(s: seq<nat>, m: nat) {
    forall i :: 0 <= i < |s| ==> s[i] < m
  }

  ghost function Elements<T>(s: seq<T>): set<T> {
    set x | x in s
  }

  ghost function Residues(m: nat): (s: set<nat>)
    ensures forall r: nat :: r in s <==> r < m
    ensures |s| == m
  {
    if m == 0 then {} else Residues(m - 1) + {m - 1}
  }

  lemma SubsetSize<T>(a: set<T>, b: set<T>)
    requires a <= b
    ensures |a| <= |b| && (|a| == |b| ==> a == b)
  {
    assert b == a + (b - a);
    assert |b| == |a| + |b - a|;
  }

  lemma {:induction false} DistinctSize<T>(s: seq<T>)
    requires Distinct(s)
    ensures |Elements(s)| == |s|
  {
    if s != [] {
      var last := |s| - 1;
      DistinctSize(s[..last]);
      assert s == s[..last] + [s[last]];
      assert Elements(s) == Elements(s[..last]) + {s[last]};
    }
  }

  /** Distinct numbers below m are at most m, and m of them are all of them. */
  lemma Fits(s: seq<nat>, m: nat)
    requires Distinct(s) && AllBelow(s, m)
    ensures |s| <= m
    ensures |s| == m ==> forall r: nat :: r < m ==> r in s
  {
    DistinctSize(s);
    SubsetSize(Elements(s), Residues(m));
    if |s| == m {
      forall r: nat | r < m ensures r in s {
        assert r in Elements(s);
      }
    }
  }
}
