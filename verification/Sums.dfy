/** Sums over sequences of naturals. */
module Sums {

  function Sum(s: seq<nat>): nat {
    if s == [] then 0 else Sum(s[..|s| - 1]) + s[|s| - 1]
  }

  lemma {:induction false} SumUpdate(s: seq<nat>, i: nat, v: nat)
    requires i < |s|
    ensures Sum(s[i := v]) + s[i] == Sum(s) + v
  {
    var last := |s| - 1;
    var s' := s[i := v];
    if i == last {
      assert s'[..last] == s[..last];
    } else {
      assert s'[..last] == s[..last][i := v];
      SumUpdate(s[..last], i, v);
    }
  }

  /** Sums are monotone, and equal only when the terms are. */
  lemma {:induction false} SumMonotone(s: seq<nat>, t: seq<nat>)
    requires |s| == |t| && forall i :: 0 <= i < |s| ==> s[i] <= t[i]
    ensures Sum(s) <= Sum(t)
    ensures Sum(s) == Sum(t) ==> s == t
  {
    if s != [] {
      var last := |s| - 1;
      SumMonotone(s[..last], t[..last]);
      if Sum(s) == Sum(t) { SameEnds(s, t); }
    }
  }

  lemma SameEnds(s: seq<nat>, t: seq<nat>)
    requires |s| == |t| > 0 && s[..|s| - 1] == t[..|s| - 1] && s[|s| - 1] == t[|s| - 1]
    ensures s == t
  {
    assert s == s[..|s| - 1] + [s[|s| - 1]];
    assert t == t[..|s| - 1] + [t[|s| - 1]];
  }

  lemma {:induction false} SumConstant(s: seq<nat>, c: nat)
    requires forall i :: 0 <= i < |s| ==> s[i] == c
    ensures Sum(s) == c * |s|
  {
    if s != [] {
      SumConstant(s[..|s| - 1], c);
      assert c * |s| == c * (|s| - 1) + c;
    }
  }
}
