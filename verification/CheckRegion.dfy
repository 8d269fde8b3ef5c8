/** The word-by-word comparison behind every mismatch report: CheckRegion's bounded record
    list, its overflow pass, its repairs, and its block-error classifier
    (src/worker.cc:1145-1357). Memory is stable and untagged. */
module CheckRegion {
  import opened Adler
  import opened Patterns

  const ERROR_LIMIT: nat := 128

  /** A queued mismatch: the 64-bit word's number and the value it should have. */
  datatype ErrorRecord = ErrorRecord(word: nat, low: u32, high: u32)

  /** A region of n 64-bit words starting at 32-bit word base, compared with pattern p
      from pattern word offset. */
  datatype Region = Region(base: nat, n: nat, p: Pattern, offset: nat)

  predicate Fits(r: Region, length: nat) {
    r.base + 2 * r.n <= length && WellFormed(r.p)
  }

  /** What memory word x of the region should hold. */
  function Expected(r: Region, x: nat): u32
    requires WellFormed(r.p) && r.base <= x
  {
    Value(r.p, x - r.base + r.offset)
  }

  /** A pattern offset moves the expected contents along. */
  lemma OffsetMoves(r: Region, x: nat, d: nat)
    requires WellFormed(r.p) && r.base <= x
    ensures Expected(r.(offset := r.offset + d), x) == Expected(r, x + d) == Expected(r.(base := r.base + d), x + 2 * d)
  {}

  function Low(r: Region, i: nat): u32
    requires WellFormed(r.p)
  {
    Expected(r, r.base + 2 * i)
  }

  function High(r: Region, i: nat): u32
    requires WellFormed(r.p)
  {
    Expected(r, r.base + 2 * i + 1)
  }

  predicate Differs(m: seq<u32>, r: Region, i: nat)
    requires Fits(r, |m|) && i < r.n
  {
    m[r.base + 2 * i] != Low(r, i) || m[r.base + 2 * i + 1] != High(r, i)
  }

  /** The mismatching words among the first k, in order. */
  function Mismatches(m: seq<u32>, r: Region, k: nat): seq<nat>
    requires Fits(r, |m|) && k <= r.n
  {
    if k == 0 then []
    else if Differs(m, r, k - 1) then Mismatches(m, r, k - 1) + [k - 1]
    else Mismatches(m, r, k - 1)
  }

  /** m with the first k words of the region as they should be. */
  function Repaired(m: seq<u32>, r: Region, k: nat): (m': seq<u32>)
    requires Fits(r, |m|) && k <= r.n
    ensures |m'| == |m|
    ensures forall x: nat :: x < |m| ==>
      m'[x] == if r.base <= x < r.base + 2 * k then Expected(r, x) else m[x]
  {
    seq(|m|, x requires 0 <= x < |m| =>
      if r.base <= x < r.base + 2 * k then Expected(r, x) else m[x])
  }

  lemma {:induction false} MismatchesAre(m: seq<u32>, r: Region, k: nat)
    requires Fits(r, |m|) && k <= r.n
    ensures forall i: nat :: i in Mismatches(m, r, k) <==> i < k && Differs(m, r, i)
    ensures Ascending(Mismatches(m, r, k))
  {
    hide Differs;
    if k > 0 {
      MismatchesAre(m, r, k - 1);
      var before := Mismatches(m, r, k - 1);
      forall e | 0 <= e < |before| ensures before[e] < k - 1 {
        assert before[e] in before;
      }
    }
  }

  ghost predicate Ascending(s: seq<nat>) {
    forall a, b :: 0 <= a < b < |s| ==> s[a] < s[b]
  }

  /** The region holds the pattern. */
  ghost predicate Matches(m: seq<u32>, r: Region)
    requires Fits(r, |m|)
  {
    forall x: nat :: r.base <= x < r.base + 2 * r.n ==> m[x] == Expected(r, x)
  }

  lemma NoMismatches(m: seq<u32>, r: Region)
    requires Fits(r, |m|)
    ensures |Mismatches(m, r, r.n)| == 0 <==> Matches(m, r)
  {
    hide Expected, Mismatches;
    MismatchesAre(m, r, r.n);
    var found := Mismatches(m, r, r.n);
    if |found| > 0 {
      assert found[0] in found && Differs(m, r, found[0]);
    }
    if |found| == 0 {
      forall x: nat | r.base <= x < r.base + 2 * r.n ensures m[x] == Expected(r, x) {
        var i := (x - r.base) / 2;
        assert i !in found;
        assert x == r.base + 2 * i || x == r.base + 2 * i + 1;
      }
    }
  }

  /** Words that already match need no repair. */
  lemma RepairSkips(m: seq<u32>, r: Region, k: nat, k': nat)
    requires Fits(r, |m|) && k <= k' <= r.n
    requires forall i: nat :: k <= i < k' ==> !Differs(m, r, i)
    ensures Repaired(m, r, k') == Repaired(m, r, k)
  {
    hide Expected;
    forall x: nat | r.base + 2 * k <= x < r.base + 2 * k' ensures m[x] == Expected(r, x) {
      var i := (x - r.base) / 2;
      assert !Differs(m, r, i);
      assert x == r.base + 2 * i || x == r.base + 2 * i + 1;
    }
  }

  lemma RepairOne(m: seq<u32>, r: Region, i: nat)
    requires Fits(r, |m|) && i < r.n
    ensures Repaired(m, r, i + 1)
         == Repaired(m, r, i)[r.base + 2 * i := Low(r, i)][r.base + 2 * i + 1 := High(r, i)]
    ensures Differs(Repaired(m, r, i), r, i) <==> Differs(m, r, i)
  {
    hide Expected;
  }

  // ------------------------------------------------------------------- passes

  /** Writes the expected value back (the lasting effect of ProcessError). */
  method ProcessError(mem: array<u32>, base: nat, e: ErrorRecord)
    requires base + 2 * e.word + 1 < mem.Length
    modifies mem
    ensures mem[..] == old(mem[..])[base + 2 * e.word := e.low][base + 2 * e.word + 1 := e.high]
  {
    mem[base + 2 * e.word], mem[base + 2 * e.word + 1] := e.low, e.high;
  }

  /** The records queued for a list of mismatching words. */
  ghost predicate RecordsOf(recorded: seq<ErrorRecord>, words: seq<nat>, r: Region)
    requires WellFormed(r.p)
  {
    && |words| <= |recorded|
    && forall e :: 0 <= e < |words| ==>
         recorded[e] == ErrorRecord(words[e], Low(r, words[e]), High(r, words[e]))
  }

  /** Compares until the end, or until the mismatch after the 128 that fit. */
  method FirstPass(mem: array<u32>, r: Region, recorded: array<ErrorRecord>)
    returns (errors: nat, stop: nat)
    requires Fits(r, mem.Length) && recorded.Length == ERROR_LIMIT
    modifies recorded
    ensures stop <= r.n && errors <= ERROR_LIMIT && errors == |Mismatches(mem[..], r, stop)|
    ensures RecordsOf(recorded[..], Mismatches(mem[..], r, stop), r)
    ensures stop < r.n ==> errors == ERROR_LIMIT && Differs(mem[..], r, stop)
  {
    hide Expected, Low, High;
    errors, stop := 0, 0;
    while stop < r.n
      invariant stop <= r.n && errors <= ERROR_LIMIT && errors == |Mismatches(mem[..], r, stop)|
      invariant RecordsOf(recorded[..], Mismatches(mem[..], r, stop), r)
    {
      var low, high := Low(r, stop), High(r, stop);
      if mem[r.base + 2 * stop] != low || mem[r.base + 2 * stop + 1] != high {
        if errors < ERROR_LIMIT {
          recorded[errors] := ErrorRecord(stop, low, high);
          errors := errors + 1;
        } else {
          return;
        }
      }
      stop := stop + 1;
    }
  }

  /** Up to where memory is right once the first err mismatches are repaired. */
  ghost function RightUpTo(words: seq<nat>, err: nat, stop: nat): nat {
    if err < |words| then words[err] else stop
  }

  lemma NextWrong(m: seq<u32>, r: Region, stop: nat, err: nat)
    requires Fits(r, |m|) && stop <= r.n && err < |Mismatches(m, r, stop)|
    ensures var words := Mismatches(m, r, stop);
      && words[err] < stop
      && words[err] + 1 <= RightUpTo(words, err + 1, stop) <= stop
      && Repaired(m, r, RightUpTo(words, err + 1, stop)) == Repaired(m, r, words[err] + 1)
  {
    hide Differs, Repaired, Mismatches;
    var words := Mismatches(m, r, stop);
    MismatchesAre(m, r, stop);
    assert words[err] in words;
    if err + 1 < |words| { assert words[err + 1] in words; }
    var next := RightUpTo(words, err + 1, stop);
    assert forall e :: 0 <= e < |words| ==> words[e] <= words[err] || next <= words[e];
    RepairSkips(m, r, words[err] + 1, next);
  }

  lemma FirstWrong(m: seq<u32>, r: Region, stop: nat)
    requires Fits(r, |m|) && stop <= r.n
    ensures var words := Mismatches(m, r, stop);
      RightUpTo(words, 0, stop) <= stop && Repaired(m, r, RightUpTo(words, 0, stop)) == m
  {
    hide Differs, Repaired, Mismatches;
    var words := Mismatches(m, r, stop);
    MismatchesAre(m, r, stop);
    if |words| > 0 { assert words[0] in words; }
    var next := RightUpTo(words, 0, stop);
    assert forall e :: 0 <= e < |words| ==> next <= words[e];
    RepairSkips(m, r, 0, next);
    NothingRepaired(m, r);
  }

  lemma NothingRepaired(m: seq<u32>, r: Region)
    requires Fits(r, |m|)
    ensures Repaired(m, r, 0) == m
  {}

  /** The loop over the queued records. */
  method ProcessQueue(mem: array<u32>, r: Region, recorded: array<ErrorRecord>, errors: nat, ghost stop: nat)
    requires Fits(r, mem.Length) && stop <= r.n && errors == |Mismatches(mem[..], r, stop)| <= recorded.Length
    requires RecordsOf(recorded[..], Mismatches(mem[..], r, stop), r)
    modifies mem
    ensures mem[..] == Repaired(old(mem[..]), r, stop)
  {
    hide Low, High, Repaired, Mismatches;
    ghost var m := mem[..];
    ghost var words := Mismatches(m, r, stop);
    FirstWrong(m, r, stop);
    var err := 0;
    while err < errors
      invariant 0 <= err <= errors && RightUpTo(words, err, stop) <= stop
      invariant mem[..] == Repaired(m, r, RightUpTo(words, err, stop))
    {
      var e := recorded[err];
      assert e == recorded[..][err];
      NextWrong(m, r, stop, err);
      RepairOne(m, r, words[err]);
      ProcessError(mem, r.base, e);
      err := err + 1;
    }
  }

  /** CheckRegion: returns exactly the number of mismatching words, processes each of them
      once and in order, and leaves the region equal to the pattern. */
  method Check(mem: array<u32>, r: Region) returns (errors: nat, ghost processed: seq<nat>)
    requires Fits(r, mem.Length)
    modifies mem
    ensures processed == Mismatches(old(mem[..]), r, r.n) && errors == |processed|
    ensures mem[..] == Repaired(old(mem[..]), r, r.n)
  {
    hide Low, High, Repaired, Mismatches;
    ghost var m := mem[..];
    var recorded := new ErrorRecord[ERROR_LIMIT](_ => ErrorRecord(0, 0, 0));
    var stop;
    errors, stop := FirstPass(mem, r, recorded);
    processed := Mismatches(m, r, stop);
    ProcessQueue(mem, r, recorded, errors, stop);

    // The overflow pass goes on at the first mismatch that was not queued.
    var i := stop;
    while i < r.n
      invariant stop <= i <= r.n
      invariant processed == Mismatches(m, r, i) && errors == |processed|
      invariant mem[..] == Repaired(m, r, i)
    {
      var low, high := Low(r, i), High(r, i);
      RepairOne(m, r, i);
      OneMore(m, r, i);
      if mem[r.base + 2 * i] != low || mem[r.base + 2 * i + 1] != high {
        ProcessError(mem, r.base, ErrorRecord(i, low, high));
        errors := errors + 1;
        processed := processed + [i];
      }
      i := i + 1;
    }
  }

  lemma OneMore(m: seq<u32>, r: Region, i: nat)
    requires Fits(r, |m|) && i < r.n
    ensures !Differs(m, r, i) ==> Repaired(m, r, i + 1) == Repaired(m, r, i)
    ensures Mismatches(m, r, i + 1)
         == if Differs(m, r, i) then Mismatches(m, r, i) + [i] else Mismatches(m, r, i)
  {
    if !Differs(m, r, i) { RepairSkips(m, r, i, i + 1); }
  }

  // --------------------------------------------------------------- classifier

  /** Where an alternate pattern would put memory word x. */
  function Possible(r: Region, alt: Pattern, x: nat): u32
    requires WellFormed(alt) && r.base <= x
  {
    Value(alt, x - r.base + r.offset)
  }

  predicate IsExpected(m: seq<u32>, r: Region, i: nat)
    requires Fits(r, |m|) && i < r.n
  {
    !Differs(m, r, i)
  }

  predicate IsPossible(m: seq<u32>, r: Region, alt: Pattern, i: nat)
    requires Fits(r, |m|) && WellFormed(alt) && i < r.n
  {
    && m[r.base + 2 * i] == Possible(r, alt, r.base + 2 * i)
    && m[r.base + 2 * i + 1] == Possible(r, alt, r.base + 2 * i + 1)
  }

  /** Words [s, e] hold the alternate pattern, all others the expected one, and there is a
      mismatch among the first k words. */
  ghost predicate BlockError(m: seq<u32>, r: Region, alt: Pattern, s: nat, e: nat, k: nat)
    requires Fits(r, |m|) && WellFormed(alt) && k <= r.n
  {
    && s <= e < k
    && (forall i: nat :: s <= i <= e ==> IsPossible(m, r, alt, i))
    && (forall i: nat :: i < k && (i < s || e < i) ==> IsExpected(m, r, i))
    && (exists i: nat :: i < k && !IsExpected(m, r, i))
  }

  datatype Verdict = Good | Bad | GoodAgain | NoMatch

  /** What the classifier's state says about the first k words. */
  ghost predicate Means(v: Verdict, s: nat, e: nat, m: seq<u32>, r: Region, alt: Pattern, k: nat)
    requires Fits(r, |m|) && WellFormed(alt) && k <= r.n
  {
    match v
    case Good => forall i: nat :: i < k ==> IsExpected(m, r, i)
    case Bad => BlockError(m, r, alt, s, e, k) && e == k - 1 && !IsExpected(m, r, s)
    case GoodAgain =>
      && BlockError(m, r, alt, s, e, k) && e + 1 < k && !IsExpected(m, r, s)
      && !IsPossible(m, r, alt, e + 1)
    case NoMatch => forall x: nat, y: nat :: !BlockError(m, r, alt, x, y, r.n)
  }

  /** A word that is neither, or an alternate word after the expected ones resumed, rules
      out every interval. */
  lemma RulesOut(v: Verdict, s: nat, e: nat, m: seq<u32>, r: Region, alt: Pattern, k: nat)
    requires Fits(r, |m|) && WellFormed(alt) && k < r.n
    requires Means(v, s, e, m, r, alt, k) && !IsExpected(m, r, k)
    requires v == GoodAgain || !IsPossible(m, r, alt, k)
    ensures forall x: nat, y: nat :: !BlockError(m, r, alt, x, y, r.n)
  {
    hide IsExpected, IsPossible;
  }

  /** The Good/Bad/GoodAgain/NoMatch machine run against one alternate pattern: it reports
      exactly when some interval of the region holds that pattern and the rest the expected
      one, with at least one mismatch, and what it reports is such an interval. */
  method Classify(mem: array<u32>, r: Region, alt: Pattern)
    returns (reported: bool, badstart: nat, badend: nat)
    requires Fits(r, mem.Length) && WellFormed(alt)
    ensures reported <==> exists s: nat, e: nat :: BlockError(mem[..], r, alt, s, e, r.n)
    ensures reported ==> BlockError(mem[..], r, alt, badstart, badend, r.n) && !IsExpected(mem[..], r, badstart)
  {
    hide IsExpected, IsPossible;
    ghost var m := mem[..];
    var state := Good;
    badstart, badend := 0, 0;
    var i := 0;
    while i < r.n && state != NoMatch
      invariant 0 <= i <= r.n
      invariant Means(state, badstart, badend, m, r, alt, i)
    {
      var expected := WordIsExpected(mem, r, i);
      var possible := WordIsPossible(mem, r, alt, i);
      if state == Good {
        if expected {
        } else if possible {
          badstart, badend, state := i, i, Bad;
        } else {
          RulesOut(state, badstart, badend, m, r, alt, i);
          state := NoMatch;
        }
      } else if state == Bad {
        if possible {
          badend := i;
        } else if expected {
          state := GoodAgain;
        } else {
          RulesOut(state, badstart, badend, m, r, alt, i);
          state := NoMatch;
        }
      } else {
        if !expected {
          RulesOut(state, badstart, badend, m, r, alt, i);
          state := NoMatch;
        }
      }
      i := i + 1;
    }
    reported := state == GoodAgain || state == Bad;
  }

  predicate WordIsExpected(mem: array<u32>, r: Region, i: nat)
    requires Fits(r, mem.Length) && i < r.n
    reads mem
    ensures WordIsExpected(mem, r, i) <==> IsExpected(mem[..], r, i)
  {
    mem[r.base + 2 * i] == Low(r, i) && mem[r.base + 2 * i + 1] == High(r, i)
  }

  predicate WordIsPossible(mem: array<u32>, r: Region, alt: Pattern, i: nat)
    requires Fits(r, mem.Length) && WellFormed(alt) && i < r.n
    reads mem
    ensures WordIsPossible(mem, r, alt, i) <==> IsPossible(mem[..], r, alt, i)
  {
    && mem[r.base + 2 * i] == Possible(r, alt, r.base + 2 * i)
    && mem[r.base + 2 * i + 1] == Possible(r, alt, r.base + 2 * i + 1)
  }
}
