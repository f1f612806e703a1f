/**
 Split-conformal recall prediction: calibrate on queries with known answers, then
 promise the largest recall that a large enough share of those queries reached.
 */
module Conformal {
  import opened Prelude
  import opened Sorting

  datatype Query = Query(text: string, truth: seq<I64>)

  // ---------- Recall ----------

  function CountIn(xs: seq<I64>, s: set<I64>): (n: nat)
    ensures n <= |xs|
  {
    if xs == [] then 0
    else CountIn(xs[..|xs| - 1], s) + if xs[|xs| - 1] in s then 1 else 0
  }

  ghost function Elements(xs: seq<I64>): set<I64> {
    set x | x in xs
  }

  /** Every predicted position that hits counts, repeated or not. */
  function RecallAtK(predicted: seq<I64>, truth: seq<I64>): (r: real)
    ensures r >= 0.0
  {
    if truth == [] then 1.0
    else CountIn(predicted, set x | x in truth) as real / |truth| as real
  }

  /** No hit is predicted twice. */
  ghost predicate DistinctHits(xs: seq<I64>, s: set<I64>) {
    forall i, j :: 0 <= i < j < |xs| && xs[i] in s ==> xs[i] != xs[j]
  }

  /** One more prediction. */
  lemma HitStep(xs: seq<I64>, s: set<I64>, n: nat)
    requires |xs| == n + 1
    ensures CountIn(xs, s) == CountIn(xs[..n], s) + if xs[n] in s then 1 else 0
    ensures Elements(xs) == Elements(xs[..n]) + {xs[n]}
    ensures DistinctHits(xs, s) <==> DistinctHits(xs[..n], s) && (xs[n] in s ==> xs[n] !in Elements(xs[..n]))
  {
    var init := xs[..n];
    assert xs == init + [xs[n]];
    if DistinctHits(init, s) && (xs[n] in s ==> xs[n] !in Elements(init)) {
      forall i, j | 0 <= i < j < |xs| && xs[i] in s
        ensures xs[i] != xs[j]
      {
        assert xs[i] == init[i] && init[i] in Elements(init);
        assert j < n ==> xs[j] == init[j];
      }
    }
  }

  /** The hits are at least the intersection, and as many exactly when no hit is predicted twice. */
  lemma {:induction false} HitsAreIntersection(xs: seq<I64>, s: set<I64>)
    ensures CountIn(xs, s) >= |Elements(xs) * s|
    ensures CountIn(xs, s) == |Elements(xs) * s| <==> DistinctHits(xs, s)
    decreases |xs|
  {
    if xs == [] {
      assert Elements(xs) * s == {};
    } else {
      hide CountIn, Elements, DistinctHits;
      var n := |xs| - 1;
      var x, before := xs[n], Elements(xs[..n]) * s;
      HitsAreIntersection(xs[..n], s);
      HitStep(xs, s, n);
      if x in s && x !in Elements(xs[..n]) {
        assert Elements(xs) * s == before + {x};
      } else {
        assert Elements(xs) * s == before;
      }
    }
  }

  /** A list is as long as its elements are many exactly when none repeats. */
  lemma {:induction false} DistinctSize(xs: seq<I64>)
    ensures |Elements(xs)| <= |xs|
    ensures |Elements(xs)| == |xs| <==> NoRepeats(xs)
  {
    var all := Elements(xs);
    HitsAreIntersection(xs, all);
    CountInAll(xs, all);
    assert all * all == all;
    assert forall i :: 0 <= i < |xs| ==> xs[i] in all;
  }

  lemma {:induction false} CountInAll(xs: seq<I64>, s: set<I64>)
    requires forall x :: x in xs ==> x in s
    ensures CountIn(xs, s) == |xs|
  {
    if xs != [] {
      CountInAll(xs[..|xs| - 1], s);
    }
  }

  /**
   Recall is set recall exactly when no hit is predicted twice, and then at most
   one; otherwise it is larger. A truth list is taken with its repeats.
   */
  lemma RecallIsSetRecall(predicted: seq<I64>, truth: seq<I64>)
    requires truth != []
    ensures var hits := |Elements(predicted) * Elements(truth)|;
      && RecallAtK(predicted, truth) >= hits as real / |truth| as real
      && (RecallAtK(predicted, truth) == hits as real / |truth| as real <==> DistinctHits(predicted, Elements(truth)))
    ensures DistinctHits(predicted, Elements(truth)) ==> RecallAtK(predicted, truth) <= 1.0
    ensures |Elements(truth)| <= |truth| && (|Elements(truth)| == |truth| <==> NoRepeats(truth))
  {
    hide CountIn, DistinctHits;
    var hits := |Elements(predicted) * Elements(truth)|;
    HitsAreIntersection(predicted, Elements(truth));
    DistinctSize(truth);
    SubsetSize(Elements(predicted) * Elements(truth), Elements(truth));
    SharesCompare(hits, CountIn(predicted, Elements(truth)), |truth|);
    ShareAtMostOne(hits, |truth|);
  }

  lemma SharesCompare(a: nat, b: nat, n: nat)
    requires a <= b && n > 0
    ensures a as real / n as real <= b as real / n as real
    ensures a as real / n as real == b as real / n as real <==> a == b
  {
    var x, y := a as real / n as real, b as real / n as real;
    assert x * n as real == a as real && y * n as real == b as real;
  }

  /** One relevant document predicted twice scores a recall of two. */
  lemma RepeatedHitExceedsOne()
    ensures RecallAtK([1, 1], [1]) == 2.0
  {
    var xs: seq<I64>, truth: seq<I64> := [1, 1], [1];
    var relevant := Elements(truth);
    assert truth[0] in relevant;
    assert xs[..1] == truth;
    assert CountIn(truth, relevant) == 1 && CountIn(xs, relevant) == 2;
    assert RecallAtK(xs, truth) == CountIn(xs, relevant) as real / |truth| as real;
  }

  lemma {:induction false} SubsetSize(a: set<I64>, b: set<I64>)
    requires a <= b
    ensures |a| <= |b|
  {
    assert b == a + (b - a);
  }

  lemma ShareAtMostOne(a: nat, b: nat)
    requires a <= b && b > 0
    ensures a as real / b as real <= 1.0
  {
  }

  // ---------- Counting scores ----------

  /** How many scores are at most q. */
  function CountUpTo(scores: seq<real>, q: real): (n: nat)
    ensures n <= |scores|
  {
    if scores == [] then 0
    else CountUpTo(scores[..|scores| - 1], q) + if scores[|scores| - 1] <= q then 1 else 0
  }

  /** That many places hold a score of at most q. */
  lemma {:induction false} CountsPlaces(scores: seq<real>, q: real)
    ensures CountUpTo(scores, q) == |set i: nat | i < |scores| && scores[i] <= q|
  {
    if scores != [] {
      var n := |scores| - 1;
      CountsPlaces(scores[..n], q);
      var init := set i: nat | i < |scores[..n]| && scores[..n][i] <= q;
      var all := set i: nat | i < |scores| && scores[i] <= q;
      assert all == if scores[n] <= q then init + {n} else init;
    }
  }

  lemma {:induction false} CountSplit(a: seq<real>, b: seq<real>, q: real)
    ensures CountUpTo(a + b, q) == CountUpTo(a, q) + CountUpTo(b, q)
    decreases |b|
  {
    if b == [] {
      assert a + b == a;
    } else {
      var n := |b| - 1;
      CountSplit(a, b[..n], q);
      assert (a + b)[..|a + b| - 1] == a + b[..n];
    }
  }

  lemma TakeOut(r: seq<real>, i: nat, q: real)
    requires i < |r|
    ensures CountUpTo(r, q) == CountUpTo(Without(r, i), q) + CountUpTo([r[i]], q)
  {
    hide CountUpTo;
    var left, right := r[..i], r[i + 1..];
    assert r == left + [r[i]] + right;
    CountSplit(left, right, q);
    CountSplit(left + [r[i]], right, q);
    CountSplit(left, [r[i]], q);
  }

  lemma {:induction false} CountPermuted(r: seq<real>, s: seq<real>, q: real)
    requires Permutation(r, s)
    ensures CountUpTo(r, q) == CountUpTo(s, q)
    decreases |s|
  {
    PermutationFacts(r, s);
    if s != [] {
      hide CountUpTo, Permutation, Without;
      var n := |s| - 1;
      assert s[n] in s;
      var i: nat :| i < |r| && r[i] == s[n];
      WithoutPermutes(r, s, i, n);
      WithoutLength(s, n);
      TakeOut(r, i, q);
      TakeOut(s, n, q);
      CountPermuted(Without(r, i), Without(s, n), q);
    }
  }

  lemma {:induction false} CountAll(s: seq<real>, q: real)
    requires forall i :: 0 <= i < |s| ==> s[i] <= q
    ensures CountUpTo(s, q) == |s|
  {
    if s != [] {
      CountAll(s[..|s| - 1], q);
    }
  }

  lemma {:induction false} CountNone(s: seq<real>, q: real)
    requires forall i :: 0 <= i < |s| ==> s[i] > q
    ensures CountUpTo(s, q) == 0
  {
    if s != [] {
      CountNone(s[..|s| - 1], q);
    }
  }

  ghost predicate Ascending(s: seq<real>) {
    Sorted(s, (a: real, b: real) => a <= b)
  }

  /** In ascending order, the scores at most q are those before a cut. */
  lemma OrderStatistic(s: seq<real>, i: nat, q: real)
    requires Ascending(s) && i < |s|
    ensures s[i] <= q <==> CountUpTo(s, q) > i
  {
    hide CountUpTo;
    if s[i] <= q {
      var a, b := s[..i + 1], s[i + 1..];
      assert s == a + b;
      CountSplit(a, b, q);
      CountAll(a, q);
    } else {
      var a, b := s[..i], s[i..];
      assert s == a + b;
      CountSplit(a, b, q);
      CountNone(b, q);
    }
  }

  // ---------- The quantile ----------

  /** (1 - alpha)(1 + 1/n), at most one. */
  function Level(alpha: real, n: nat): real
    requires n > 0
  {
    var l := (1.0 - alpha) * (1.0 + 1.0 / n as real);
    if l < 1.0 then l else 1.0
  }

  function Ceil(x: real): (c: int)
    ensures x <= c as real < x + 1.0
  {
    -((-x).Floor)
  }

  /** The position of the quantile in the sorted scores. */
  function Rank(alpha: real, n: nat): (k: nat)
    requires n > 0 && 0.0 < alpha < 1.0
    ensures k < n
  {
    var c := Ceil(Level(alpha, n) * n as real);
    Min(if c >= 1 then c - 1 else 0, n - 1)
  }

  /** The level's share of n scores is (1 - alpha)(n + 1) of them, or all. */
  lemma LevelShare(alpha: real, n: nat)
    requires n > 0
    ensures var share := (1.0 - alpha) * (n + 1) as real;
      Level(alpha, n) * n as real == if share < n as real then share else n as real
  {
    var m := n as real;
    var u := 1.0 / m;
    assert u * m == 1.0;
    var l := (1.0 - alpha) * (1.0 + u);
    assert l * m == (1.0 - alpha) * (m + u * m);
    assert (n + 1) as real == m + 1.0;
    if l < 1.0 {
      assert (1.0 - l) * m > 0.0;
    } else {
      assert (l - 1.0) * m >= 0.0;
    }
  }

  /** Counted from 1, the quantile's place is the first at or above (1 - alpha)(n + 1), or the last. */
  lemma RankPlace(alpha: real, n: nat)
    requires n > 0 && 0.0 < alpha < 1.0
    ensures var place, share := Rank(alpha, n) + 1, (1.0 - alpha) * (n + 1) as real;
      1 <= place <= n && (place as real >= share || place == n) && (place - 1) as real < share
  {
    hide Level;
    LevelShare(alpha, n);
    assert (1.0 - alpha) * (n + 1) as real > 0.0;
  }

  /** With nothing to find, everything is found. */
  lemma NothingToFind(predicted: seq<I64>)
    ensures RecallAtK(predicted, []) == 1.0
  {
  }

  /** A count exceeds the rank exactly when its share reaches the level. */
  lemma RankMeaning(alpha: real, n: nat, count: nat)
    requires n > 0 && 0.0 < alpha < 1.0
    ensures count > Rank(alpha, n) <==> count as real >= Level(alpha, n) * n as real
  {
    LevelRange(alpha, n);
  }

  lemma LevelRange(alpha: real, n: nat)
    requires n > 0 && 0.0 < alpha < 1.0
    ensures 1.0 - alpha <= Level(alpha, n) <= 1.0
    ensures 0.0 < Level(alpha, n) * n as real <= n as real
  {
    Enlarged(1.0 - alpha, 1.0 / n as real);
    ShareOf(Level(alpha, n), n);
  }

  lemma Enlarged(c: real, u: real)
    requires c > 0.0 && u > 0.0
    ensures c * (1.0 + u) > c
  {
    assert c * u > 0.0;
  }

  lemma ShareOf(l: real, n: nat)
    requires n > 0 && 0.0 < l <= 1.0
    ensures 0.0 < l * n as real <= n as real
  {
    assert (1.0 - l) * n as real >= 0.0;
  }

  /** The sorted copy's entry at the rank: enough scores are at most q' exactly when q' reaches it. */
  method ConformalQuantile(scores: seq<real>, alpha: real) returns (q: real)
    requires scores != [] && 0.0 < alpha < 1.0
    ensures q in scores
    ensures forall q' :: q <= q' <==> CountUpTo(scores, q') as real >= Level(alpha, |scores|) * |scores| as real
  {
    var sorted := Sort(scores, (a: real, b: real) => a <= b);
    PermutationFacts(sorted, scores);
    q := sorted[Rank(alpha, |scores|)];
    forall q'
      ensures q <= q' <==> CountUpTo(scores, q') as real >= Level(alpha, |scores|) * |scores| as real
    {
      OrderStatistic(sorted, Rank(alpha, |scores|), q');
      CountPermuted(sorted, scores, q');
      RankMeaning(alpha, |scores|, CountUpTo(scores, q'));
    }
  }

  // ---------- The promise ----------

  /** How many calibration queries had a recall of at least `target`. */
  function Reached(residuals: seq<real>, target: real): (n: nat)
    ensures n <= |residuals|
  {
    if residuals == [] then 0
    else Reached(residuals[..|residuals| - 1], target) + if 1.0 - residuals[|residuals| - 1] >= target then 1 else 0
  }

  lemma {:induction false} ReachedAsCount(residuals: seq<real>, target: real)
    ensures Reached(residuals, target) == CountUpTo(residuals, 1.0 - target)
  {
    if residuals != [] {
      ReachedAsCount(residuals[..|residuals| - 1], target);
    }
  }

  /** That many queries have a residual of at most what the target leaves. */
  lemma ReachedPlaces(residuals: seq<real>, target: real)
    ensures Reached(residuals, target) == |set i: nat | i < |residuals| && residuals[i] <= 1.0 - target|
  {
    ReachedAsCount(residuals, target);
    CountsPlaces(residuals, 1.0 - target);
  }

  /** The share of calibration queries that reached `target` is at least the level. */
  ghost predicate Guaranteed(residuals: seq<real>, alpha: real, target: real)
    requires residuals != []
  {
    Reached(residuals, target) as real >= Level(alpha, |residuals|) * |residuals| as real
  }

  /** The promised recall is the largest one, up to one, that enough calibration queries reached. */
  ghost predicate Promise(residuals: seq<real>, alpha: real, bound: real)
    requires residuals != []
  {
    0.0 <= bound <= 1.0 && forall target :: target <= 1.0 ==>
      (target <= bound <==> Guaranteed(residuals, alpha, target))
  }

  lemma PromiseUnique(residuals: seq<real>, alpha: real, a: real, b: real)
    requires residuals != [] && Promise(residuals, alpha, a) && Promise(residuals, alpha, b)
    ensures a == b
  {
    hide Guaranteed;
    assert Guaranteed(residuals, alpha, a) && Guaranteed(residuals, alpha, b);
  }

  lemma ShareAtLeast(count: real, n: real, l: real)
    requires n > 0.0 && count >= l * n
    ensures count / n >= l
  {
    var share := count / n;
    assert share * n == count;
    assert (l - share) * n <= 0.0;
  }

  lemma CoverageFacts(residuals: seq<real>, alpha: real, bound: real)
    requires residuals != [] && 0.0 < alpha < 1.0 && Promise(residuals, alpha, bound)
    ensures 1.0 >= Reached(residuals, bound) as real / |residuals| as real >= Level(alpha, |residuals|) >= 1.0 - alpha
  {
    hide Level, Reached;
    LevelRange(alpha, |residuals|);
    assert Guaranteed(residuals, alpha, bound);
    ShareAtLeast(Reached(residuals, bound) as real, |residuals| as real, Level(alpha, |residuals|));
    ShareAtMostOne(Reached(residuals, bound), |residuals|);
  }

  method CountReached(residuals: seq<real>, bound: real) returns (covered: nat)
    ensures covered == Reached(residuals, bound)
  {
    covered := 0;
    for i := 0 to |residuals|
      invariant covered == Reached(residuals[..i], bound)
    {
      assert residuals[..i + 1][..i] == residuals[..i];
      if 1.0 - residuals[i] >= bound {
        covered := covered + 1;
      }
    }
    assert residuals[..|residuals|] == residuals;
  }

  class Calibrator {
    var residuals: seq<real>
    const alpha: real

    /** No recall is negative, so no residual exceeds one. */
    ghost predicate Valid()
      reads this
    {
      0.0 < alpha < 1.0 && forall i :: 0 <= i < |residuals| ==> residuals[i] <= 1.0
    }

    constructor (alpha: real)
      requires 0.0 < alpha < 1.0
      ensures Valid() && residuals == [] && this.alpha == alpha
    {
      this.alpha := alpha;
      residuals := [];
    }

    /** Replaces all residuals; `predicted` holds what the retrieval answered to each query. */
    method Calibrate(queries: seq<Query>, predicted: seq<seq<I64>>)
      requires Valid() && |predicted| == |queries|
      modifies this
      ensures Valid()
      ensures |residuals| == |queries|
      ensures forall i :: 0 <= i < |queries| ==> residuals[i] == 1.0 - RecallAtK(predicted[i], queries[i].truth)
    {
      residuals := [];
      for i := 0 to |queries|
        invariant Valid() && |residuals| == i
        invariant forall j :: 0 <= j < i ==> residuals[j] == 1.0 - RecallAtK(predicted[j], queries[j].truth)
      {
        var recall := RecallAtK(predicted[i], queries[i].truth);
        residuals := residuals + [1.0 - recall];
      }
    }

    method PredictRecallLowerBound() returns (bound: real)
      requires Valid()
      ensures residuals == [] ==> bound == 0.0
      ensures residuals != [] ==> Promise(residuals, alpha, bound)
    {
      if residuals == [] {
        return 0.0;
      }
      var q := ConformalQuantile(residuals, alpha);
      bound := if 1.0 - q < 0.0 then 0.0 else if 1.0 - q > 1.0 then 1.0 else 1.0 - q;
      forall target | target <= 1.0
        ensures target <= bound <==> Guaranteed(residuals, alpha, target)
      {
        ReachedAsCount(residuals, target);
        assert q <= 1.0 - target <==> Guaranteed(residuals, alpha, target);
      }
    }

    /** Falls back exactly when too few calibration queries reached the target, or when the target exceeds one. */
    method ShouldFallback(target: real) returns (fallback: bool)
      requires Valid()
      ensures residuals == [] ==> (fallback <==> target > 0.0)
      ensures residuals != [] ==> (fallback <==> target > 1.0 || !Guaranteed(residuals, alpha, target))
    {
      var bound := PredictRecallLowerBound();
      fallback := bound < target;
    }

    /** At least (1 - alpha)(1 + 1/n) of the calibration queries, or all, meet the promised recall. */
    method EmpiricalCoverage() returns (share: real)
      requires Valid()
      ensures residuals == [] ==> share == 0.0
      ensures residuals != [] ==> 1.0 >= share >= Level(alpha, |residuals|) >= 1.0 - alpha
      ensures residuals != [] ==> forall b :: Promise(residuals, alpha, b) ==>
        share == Reached(residuals, b) as real / |residuals| as real
    {
      if residuals == [] {
        return 0.0;
      }
      hide Promise, Level, Reached;
      var bound := PredictRecallLowerBound();
      var covered := CountReached(residuals, bound);
      share := covered as real / |residuals| as real;
      CoverageFacts(residuals, alpha, bound);
      forall b | Promise(residuals, alpha, b)
        ensures share == Reached(residuals, b) as real / |residuals| as real
      {
        PromiseUnique(residuals, alpha, bound, b);
      }
    }
  }

  /** The decision made for a search: without a calibrator or a target there is no fallback. */
  method NeedsExactFallback(calibrator: Option<Calibrator>, target: Option<real>) returns (fallback: bool)
    requires calibrator.Some? ==> calibrator.value.Valid()
    ensures calibrator.None? || target.None? ==> !fallback
    ensures calibrator.Some? && target.Some? && calibrator.value.residuals == [] ==> (fallback <==> target.value > 0.0)
    ensures calibrator.Some? && target.Some? && calibrator.value.residuals != [] ==>
      (fallback <==>
        target.value > 1.0 || !Guaranteed(calibrator.value.residuals, calibrator.value.alpha, target.value))
  {
    if calibrator.None? || target.None? {
      return false;
    }
    fallback := calibrator.value.ShouldFallback(target.value);
  }
}
