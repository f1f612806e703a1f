/**
 What a beam search finds, independently of its heaps: the order in which a
 best-first search meets the nodes, and the beam it leaves when the beam is full.
 */
module Beams {
  import opened Prelude
  import opened Sorting
  import opened Reachability

  // ---------- Distances ----------

  /** Squared Euclidean distance over the common length. */
  function L2sq(a: seq<real>, b: seq<real>): (d: real)
    ensures d >= 0.0
  {
    if a == [] || b == [] then 0.0
    else SquareNonNegative(a[0] - b[0]); (a[0] - b[0]) * (a[0] - b[0]) + L2sq(a[1..], b[1..])
  }

  lemma SquareNonNegative(x: real)
    ensures x * x >= 0.0
  {
  }

  /** The sum over the first n coordinates. */
  function SquaredSum(a: seq<real>, b: seq<real>, n: nat): real
    requires n <= |a| && n <= |b|
  {
    if n == 0 then 0.0 else SquaredSum(a, b, n - 1) + (a[n - 1] - b[n - 1]) * (a[n - 1] - b[n - 1])
  }

  lemma {:induction false} SumFromFront(a: seq<real>, b: seq<real>, n: nat)
    requires 0 < n <= |a| && n <= |b|
    ensures SquaredSum(a, b, n) == (a[0] - b[0]) * (a[0] - b[0]) + SquaredSum(a[1..], b[1..], n - 1)
  {
    if n > 1 {
      SumFromFront(a, b, n - 1);
    }
  }

  /** The distance is the sum of the squared differences of all coordinates that both vectors have. */
  lemma {:induction false} DistanceIsSum(a: seq<real>, b: seq<real>)
    ensures L2sq(a, b) == SquaredSum(a, b, Min(|a|, |b|))
    decreases |a|
  {
    if a != [] && b != [] {
      DistanceIsSum(a[1..], b[1..]);
      SumFromFront(a, b, Min(|a|, |b|));
    }
  }

  /** One coordinate, and one part of the vectors after the other. */
  lemma {:induction false} DistanceParts(a: seq<real>, b: seq<real>, c: seq<real>, d: seq<real>)
    requires |a| == |b|
    ensures L2sq(a + c, b + d) == L2sq(a, b) + L2sq(c, d)
    decreases |a|
  {
    if a == [] {
      assert a + c == c && b + d == d;
    } else {
      assert (a + c)[1..] == a[1..] + c && (b + d)[1..] == b[1..] + d;
      DistanceParts(a[1..], b[1..], c, d);
    }
  }

  lemma OneCoordinate(x: real, y: real)
    ensures L2sq([x], [y]) == (x - y) * (x - y)
  {
    assert L2sq([x][1..], [y][1..]) == 0.0;
  }

  lemma {:induction false} DistanceSymmetric(a: seq<real>, b: seq<real>)
    ensures L2sq(a, b) == L2sq(b, a)
    decreases |a|
  {
    if a != [] && b != [] {
      DistanceSymmetric(a[1..], b[1..]);
      SameSquare(a[0], b[0]);
      assert L2sq(b, a) == (b[0] - a[0]) * (b[0] - a[0]) + L2sq(b[1..], a[1..]);
    }
  }

  lemma SameSquare(x: real, y: real)
    ensures (x - y) * (x - y) == (y - x) * (y - x)
  {
  }

  /** Vectors of one length are at distance 0 exactly when they are equal. */
  lemma {:induction false} ZeroDistance(a: seq<real>, b: seq<real>)
    requires |a| == |b|
    ensures L2sq(a, b) == 0.0 <==> a == b
    decreases |a|
  {
    if a != [] {
      ZeroDistance(a[1..], b[1..]);
      assert a == [a[0]] + a[1..] && b == [b[0]] + b[1..];
      ZeroSquare(a[0] - b[0]);
    }
  }

  lemma ZeroSquare(x: real)
    ensures x * x >= 0.0 && (x * x == 0.0 <==> x == 0.0)
  {
    if x != 0.0 {
      var y := 1.0 / x;
      assert y * x == 1.0;
      assert y * (x * x) == y * x * x == x;
    }
  }

  function Distances(query: seq<real>, vecs: seq<seq<real>>): (d: seq<real>)
    ensures |d| == |vecs|
    ensures forall i :: 0 <= i < |vecs| ==> d[i] == L2sq(query, vecs[i])
  {
    seq(|vecs|, i requires 0 <= i < |vecs| => L2sq(query, vecs[i]))
  }

  // ---------- Entries ----------

  datatype Entry = Entry(id: nat, dist: real)

  predicate Nearer(a: Entry, b: Entry) {
    a.dist <= b.dist
  }

  ghost function EntryIds(h: seq<Entry>): set<nat> {
    set i | 0 <= i < |h| :: h[i].id
  }

  ghost predicate DistinctEntries(h: seq<Entry>) {
    forall i, j :: 0 <= i < j < |h| ==> h[i].id != h[j].id
  }

  /** Entries name nodes of `nodes` at their true distances. */
  ghost predicate Exact(h: seq<Entry>, nodes: set<nat>, dist: seq<real>) {
    forall i :: 0 <= i < |h| ==> h[i].id in nodes && h[i].id < |dist| && h[i].dist == dist[h[i].id]
  }

  lemma {:induction false} DistinctCount(h: seq<Entry>)
    requires DistinctEntries(h)
    ensures |EntryIds(h)| == |h|
  {
    if h != [] {
      var n := |h| - 1;
      DistinctCount(h[..n]);
      assert EntryIds(h) == EntryIds(h[..n]) + {h[n].id};
      assert h[n].id !in EntryIds(h[..n]);
    }
  }

  /** Distinct reachable nodes at their true distances, nearest first, at most k. */
  ghost predicate IsAnswer(g: Graph, dist: seq<real>, entry: nat, k: nat, out: seq<Entry>)
    requires g.Valid()
  {
    && |out| <= k && DistinctEntries(out) && Exact(out, ReachSet(g, entry), dist)
    && forall i, j :: 0 <= i < j < |out| ==> out[i].dist <= out[j].dist
  }

  /** The k nearest of `nodes`, or all of them if there are fewer. */
  ghost predicate AreNearest(nodes: set<nat>, dist: seq<real>, k: nat, out: seq<Entry>) {
    && |out| == Min(k, |nodes|)
    && forall v, i :: v in nodes && v < |dist| && v !in EntryIds(out) && 0 <= i < |out| ==> out[i].dist <= dist[v]
  }

  // ---------- Meeting nodes ----------

  function Unmet(nbrs: seq<nat>, met: set<nat>): (r: seq<nat>)
    ensures forall v :: v in r <==> v in nbrs && v !in met
    ensures NoRepeats(nbrs) ==> NoRepeats(r)
  {
    if nbrs == [] then []
    else
      var n := |nbrs| - 1;
      assert nbrs[n] in nbrs && nbrs == nbrs[..n] + [nbrs[n]];
      assert forall v :: v in nbrs[..n] ==> v in nbrs;
      Unmet(nbrs[..n], met) + if nbrs[n] in met then [] else [nbrs[n]]
  }

  ghost function Out(g: Graph, v: nat): (nbrs: seq<nat>)
    requires g.Valid()
    ensures NoRepeats(nbrs)
  {
    if v < g.Size() then g.Neighbours(v) else []
  }

  lemma NoRepeatsConcat(a: seq<nat>, b: seq<nat>)
    requires NoRepeats(a) && NoRepeats(b) && forall v :: v in b ==> v !in a
    ensures NoRepeats(a + b)
  {
    forall i, j | 0 <= i < j < |a + b|
      ensures (a + b)[i] != (a + b)[j]
    {
      assert i < |a| <= j ==> b[j - |a|] in b && a[i] in a;
    }
  }

  /** The nodes met, in order, by expanding the nodes of `order` one after the other. */
  ghost function Met(g: Graph, entry: nat, order: seq<nat>): (met: seq<nat>)
    requires g.Valid()
    ensures |met| > 0 && met[0] == entry && NoRepeats(met)
  {
    if order == [] then [entry]
    else
      var n := |order| - 1;
      var before := Met(g, entry, order[..n]);
      var batch := Unmet(Out(g, order[n]), Elements(before));
      NoRepeatsConcat(before, batch);
      before + batch
  }

  lemma MetStep(g: Graph, entry: nat, order: seq<nat>, v: nat)
    requires g.Valid()
    ensures Met(g, entry, order + [v]) == Met(g, entry, order) + Unmet(Out(g, v), Elements(Met(g, entry, order)))
  {
    assert (order + [v])[..|order|] == order;
  }

  lemma {:induction false} MetPrefix(g: Graph, entry: nat, order: seq<nat>, k: nat)
    requires g.Valid() && k <= |order|
    ensures Met(g, entry, order[..k]) <= Met(g, entry, order)
    decreases |order|
  {
    hide Graph.Valid, Out, Unmet;
    if k < |order| {
      var n := |order| - 1;
      MetPrefix(g, entry, order[..n], k);
      assert order[..n][..k] == order[..k];
    } else {
      assert order[..k] == order;
    }
  }

  lemma {:induction false} MetNeighbours(g: Graph, entry: nat, order: seq<nat>, v: nat, w: nat)
    requires g.Valid() && v in order && w in Out(g, v)
    ensures w in Met(g, entry, order)
    decreases |order|
  {
    hide Graph.Valid, Out;
    var n := |order| - 1;
    if v != order[n] {
      assert order == order[..n] + [order[n]];
      MetNeighbours(g, entry, order[..n], v, w);
    }
  }

  // ---------- Best-first order ----------

  /** v is a nearest node among those met and not yet expanded. */
  ghost predicate NextBest(g: Graph, dist: seq<real>, entry: nat, order: seq<nat>, v: nat)
    requires g.Valid()
  {
    && v in Met(g, entry, order) && v !in order && v < |dist|
    && forall w :: w in Met(g, entry, order) && w !in order && w < |dist| ==> dist[v] <= dist[w]
  }

  ghost predicate BestFirst(g: Graph, dist: seq<real>, entry: nat, order: seq<nat>)
    requires g.Valid()
    decreases |order|
  {
    order == [] ||
    (var n := |order| - 1;
     BestFirst(g, dist, entry, order[..n]) && NextBest(g, dist, entry, order[..n], order[n]))
  }

  lemma BestFirstStep(g: Graph, dist: seq<real>, entry: nat, order: seq<nat>, v: nat)
    requires g.Valid() && BestFirst(g, dist, entry, order) && NextBest(g, dist, entry, order, v)
    ensures BestFirst(g, dist, entry, order + [v])
  {
    assert (order + [v])[..|order|] == order;
  }

  lemma OutReachable(g: Graph, entry: nat, v: nat, met: set<nat>)
    requires g.Valid() && v in ReachSet(g, entry)
    ensures forall w :: w in Unmet(Out(g, v), met) ==> w in ReachSet(g, entry)
  {
    hide Reaches;
    forall w | w in Unmet(Out(g, v), met)
      ensures w in ReachSet(g, entry)
    {
      ReachStep(g, entry, v, w);
    }
  }

  lemma {:induction false} MetReachable(g: Graph, dist: seq<real>, entry: nat, order: seq<nat>)
    requires g.Valid() && entry < g.Size() && BestFirst(g, dist, entry, order)
    ensures Elements(order) <= Elements(Met(g, entry, order)) <= ReachSet(g, entry)
    decreases |order|
  {
    hide ReachSet, Graph.Valid, Out, NoRepeats, Met;
    if order == [] {
      ReachSelf(g, entry);
      MetNothing(g, entry);
    } else {
      var n := |order| - 1;
      var init, v := order[..n], order[n];
      var before := Met(g, entry, init);
      MetReachable(g, dist, entry, init);
      assert order == init + [v];
      MetStep(g, entry, init, v);
      assert v in Elements(before);
      OutReachable(g, entry, v, Elements(before));
      ElementsConcat(init, [v]);
      ElementsConcat(before, Unmet(Out(g, v), Elements(before)));
    }
  }

  lemma ElementsConcat(a: seq<nat>, b: seq<nat>)
    ensures Elements(a + b) == Elements(a) + Elements(b)
  {
  }

  lemma MetNothing(g: Graph, entry: nat)
    requires g.Valid()
    ensures Met(g, entry, []) == [entry]
  {
  }

  /** When everything met was expanded, everything reachable was met. */
  lemma MetAll(g: Graph, dist: seq<real>, entry: nat, order: seq<nat>)
    requires g.Valid() && entry < g.Size() && BestFirst(g, dist, entry, order)
    requires forall v :: v in Met(g, entry, order) ==> v in order
    ensures Elements(Met(g, entry, order)) == ReachSet(g, entry)
  {
    hide ReachSet, Met, BestFirst;
    MetReachable(g, dist, entry, order);
    var met := Met(g, entry, order);
    assert entry == met[0] && entry in Elements(met);
    forall v, w | v in Elements(met) && v < g.Size() && w in g.Neighbours(v)
      ensures w in Elements(met)
    {
      MetNeighbours(g, entry, order, v, w);
    }
    ClosedHoldsReachable(g, Elements(met), entry);
  }

  // ---------- The beam ----------

  function Width(ef: nat): nat {
    if ef >= 1 then ef else 1
  }

  function BeamSize(ef: nat, reachable: nat): nat {
    Min(Width(ef), reachable)
  }

  /** The nodes met before the last expansion. */
  ghost function MetBefore(g: Graph, entry: nat, order: seq<nat>): set<nat>
    requires g.Valid()
  {
    if order == [] then {} else Elements(Met(g, entry, order[..|order| - 1]))
  }

  ghost predicate StrictlyNearest(dist: seq<real>, nodes: set<nat>, z: nat) {
    z < |dist| && forall x :: x in nodes && x != z && x < |dist| ==> dist[z] < dist[x]
  }

  /**
   `order` lists the expansions up to the one whose batch fills the beam, or all of
   them if none does. The beam keeps everything met before that batch, fills up from
   the batch, and takes nothing met later. A node that the batch offers to the full
   beam is lost when it is the nearest of all, and refused when it is not nearer than
   everything met before.
   */
  ghost predicate IsBeam(g: Graph, dist: seq<real>, entry: nat, ef: nat, order: seq<nat>, beam: seq<Entry>)
    requires g.Valid()
  {
    var met := Met(g, entry, order);
    && BestFirst(g, dist, entry, order)
    && (order != [] ==> |Met(g, entry, order[..|order| - 1])| < Width(ef))
    && (|met| >= Width(ef) || forall v :: v in met ==> v in order)
    && |beam| == Min(Width(ef), |met|)
    && MetBefore(g, entry, order) <= EntryIds(beam) <= Elements(met)
    && LateNearestLost(dist, met, Width(ef), EntryIds(beam))
    && LateFarRefused(dist, MetBefore(g, entry, order), met, Width(ef), EntryIds(beam))
  }

  ghost predicate LateNearestLost(dist: seq<real>, met: seq<nat>, width: nat, kept: set<nat>) {
    forall j :: width <= j < |met| && StrictlyNearest(dist, Elements(met), met[j]) ==> met[j] !in kept
  }

  ghost predicate NotNearer(dist: seq<real>, v: nat, x: nat) {
    v < |dist| && x < |dist| && dist[x] <= dist[v]
  }

  ghost predicate LateFarRefused(dist: seq<real>, before: set<nat>, met: seq<nat>, width: nat, kept: set<nat>) {
    forall j, x :: width <= j < |met| && x in before && NotNearer(dist, met[j], x) ==> met[j] !in kept
  }

  /** What a beam holds of the reachable nodes. */
  lemma BeamHolds(g: Graph, dist: seq<real>, entry: nat, ef: nat, order: seq<nat>, beam: seq<Entry>)
    requires g.Valid() && entry < g.Size() && IsBeam(g, dist, entry, ef, order, beam) && DistinctEntries(beam)
    ensures EntryIds(beam) <= ReachSet(g, entry) && entry in EntryIds(beam)
    ensures |beam| == BeamSize(ef, |ReachSet(g, entry)|)
    ensures Width(ef) >= |ReachSet(g, entry)| ==> EntryIds(beam) == ReachSet(g, entry)
  {
    hide ReachSet, BestFirst, LateNearestLost, LateFarRefused, Graph.Valid, DistinctEntries, NoRepeats;
    var met := Met(g, entry, order);
    MetReachable(g, dist, entry, order);
    ElementCount(met);
    DistinctCount(beam);
    SubsetCount(Elements(met), ReachSet(g, entry));
    SubsetCount(EntryIds(beam), ReachSet(g, entry));
    EntryKept(g, dist, entry, ef, order, beam);
    if |met| < Width(ef) {
      MetAll(g, dist, entry, order);
    }
  }

  /** The entry node is met first and never dropped. */
  lemma EntryKept(g: Graph, dist: seq<real>, entry: nat, ef: nat, order: seq<nat>, beam: seq<Entry>)
    requires g.Valid() && IsBeam(g, dist, entry, ef, order, beam)
    ensures entry in EntryIds(beam)
  {
    hide BestFirst, LateNearestLost, LateFarRefused, Graph.Valid, NoRepeats;
    if order == [] {
      assert Met(g, entry, order) == [entry];
      assert beam[0].id in EntryIds(beam);
    } else {
      var before := Met(g, entry, order[..|order| - 1]);
      assert before[0] in Elements(before);
    }
  }

  // ---------- The front of a beam ----------

  lemma PrefixNearest(sorted: seq<Entry>, nodes: set<nat>, dist: seq<real>, k: nat)
    requires Exact(sorted, nodes, dist) && DistinctEntries(sorted) && EntryIds(sorted) == nodes
    requires forall i, j :: 0 <= i < j < |sorted| ==> sorted[i].dist <= sorted[j].dist
    ensures AreNearest(nodes, dist, k, sorted[..Min(k, |sorted|)])
  {
    var out := sorted[..Min(k, |sorted|)];
    DistinctCount(sorted);
    forall v, i | v in nodes && v < |dist| && v !in EntryIds(out) && 0 <= i < |out|
      ensures out[i].dist <= dist[v]
    {
      var j :| 0 <= j < |sorted| && sorted[j].id == v;
      forall m | 0 <= m < |out|
        ensures out[m].id != v
      {
        assert out[m].id in EntryIds(out);
      }
      assert j >= |out| by {
        assert forall m :: 0 <= m < |out| ==> out[m] == sorted[m];
      }
    }
  }

  /** `out` is the front of a beam of this width, nearest first. */
  ghost predicate IsFrontOf(g: Graph, dist: seq<real>, entry: nat, k: nat, ef: nat, order: seq<nat>,
                            beam: seq<Entry>, out: seq<Entry>)
    requires g.Valid()
  {
    && IsBeam(g, dist, entry, ef, order, beam) && DistinctEntries(beam) && Exact(beam, ReachSet(g, entry), dist)
    && (forall i, j :: 0 <= i < j < |beam| ==> beam[i].dist <= beam[j].dist)
    && out == beam[..Min(k, |beam|)]
  }

  /** What the front of a beam is good for. */
  lemma FrontIsAnswer(g: Graph, dist: seq<real>, entry: nat, k: nat, ef: nat, order: seq<nat>, beam: seq<Entry>,
                      out: seq<Entry>)
    requires g.Valid() && entry < g.Size() && IsFrontOf(g, dist, entry, k, ef, order, beam, out)
    ensures IsAnswer(g, dist, entry, k, out)
    ensures |out| == Min(k, BeamSize(ef, |ReachSet(g, entry)|))
    ensures Width(ef) >= |ReachSet(g, entry)| ==> AreNearest(ReachSet(g, entry), dist, k, out)
  {
    hide ReachSet, IsBeam, AreNearest;
    BeamHolds(g, dist, entry, ef, order, beam);
    if Width(ef) >= |ReachSet(g, entry)| {
      PrefixNearest(beam, ReachSet(g, entry), dist, k);
    }
  }
}
