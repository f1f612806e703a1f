/**
 When beam search over a given graph is exact: wherever the vectors lie, if the beam
 has room for every reachable node; and if it has not, some placement of vectors over
 that graph defeats it.
 */
module BeamExactness {
  import opened Sorting
  import opened Reachability
  import opened Beams

  // ---------- A discovery order ----------

  /** `q` lists the reachable nodes in the order in which expanding `q` itself meets them. */
  ghost predicate IsDiscovery(g: Graph, entry: nat, q: seq<nat>)
    requires g.Valid()
  {
    && NoRepeats(q) && Elements(q) == ReachSet(g, entry)
    && forall k :: 0 <= k <= |q| ==> Met(g, entry, q[..k]) <= q
  }

  lemma Discover(g: Graph, entry: nat) returns (q: seq<nat>)
    requires g.Valid() && entry < g.Size()
    ensures IsDiscovery(g, entry, q)
  {
    hide Met, ReachSet, Graph.Valid, Out, Unmet, NoRepeats;
    MetNothing(g, entry);
    ReachSelf(g, entry);
    var k := 0;
    q := [entry];
    while k < |q|
      invariant k <= |q| && q == Met(g, entry, q[..k])
      invariant Elements(q) <= ReachSet(g, entry)
      decreases |ReachSet(g, entry)| - k
    {
      DiscoverStep(g, entry, q, k);
      q, k := q + Unmet(Out(g, q[k]), Elements(q)), k + 1;
    }
    assert q[..k] == q;
    MetIsDistinct(g, entry, q);
    DiscoveryIsClosed(g, entry, q);
    forall j | 0 <= j <= |q|
      ensures Met(g, entry, q[..j]) <= q
    {
      MetPrefix(g, entry, q, j);
    }
  }

  lemma HoldsElement(q: seq<nat>, k: nat)
    requires k < |q|
    ensures q[k] in Elements(q)
  {
  }

  lemma ElementsWithin(q: seq<nat>, s: set<nat>)
    requires forall v :: v in q ==> v in s
    ensures Elements(q) <= s
  {
  }

  lemma DiscoverStep(g: Graph, entry: nat, q: seq<nat>, k: nat)
    requires g.Valid() && k < |q| && q == Met(g, entry, q[..k]) && Elements(q) <= ReachSet(g, entry)
    ensures |q| <= |ReachSet(g, entry)|
    ensures var q' := q + Unmet(Out(g, q[k]), Elements(q));
      q' == Met(g, entry, q'[..k + 1]) && Elements(q') <= ReachSet(g, entry)
  {
    hide Met, ReachSet, Graph.Valid, Out, Unmet, Elements;
    ElementCount(q);
    SubsetCount(Elements(q), ReachSet(g, entry));
    var batch := Unmet(Out(g, q[k]), Elements(q));
    MetStep(g, entry, q[..k], q[k]);
    HoldsElement(q, k);
    OutReachable(g, entry, q[k], Elements(q));
    ElementsWithin(batch, ReachSet(g, entry));
    ElementsConcat(q, batch);
    assert (q + batch)[..k + 1] == q[..k] + [q[k]];
  }

  lemma MetIsDistinct(g: Graph, entry: nat, q: seq<nat>)
    requires g.Valid() && q == Met(g, entry, q)
    ensures NoRepeats(q)
  {
  }

  lemma DiscoveryIsClosed(g: Graph, entry: nat, q: seq<nat>)
    requires g.Valid() && entry < g.Size() && q == Met(g, entry, q)
    ensures ReachSet(g, entry) <= Elements(q)
  {
    hide ReachSet, Met;
    assert entry == q[0] && entry in Elements(q);
    forall v, w | v in Elements(q) && v < g.Size() && w in g.Neighbours(v)
      ensures w in Elements(q)
    {
      MetNeighbours(g, entry, q, v, w);
    }
    ClosedHoldsReachable(g, Elements(q), entry);
  }

  // ---------- A placement that defeats a narrow beam ----------

  /** Nodes lie further out the later they are met, but for the last, which is nearest of all. */
  ghost predicate IsTrap(q: seq<nat>, dist: seq<real>) {
    && (forall i :: 0 <= i < |q| ==> q[i] < |dist|)
    && (forall i, j :: 0 <= i < j < |q| - 1 ==> dist[q[i]] < dist[q[j]])
    && (forall i :: 0 <= i < |q| - 1 ==> dist[q[|q| - 1]] < dist[q[i]])
  }

  ghost function Radius(q: seq<nat>, v: nat): real {
    if exists i :: 0 <= i < |q| - 1 && q[i] == v then
      var i :| 0 <= i < |q| - 1 && q[i] == v;
      (i + 1) as real
    else 0.0
  }

  lemma RadiusOf(q: seq<nat>, i: nat)
    requires NoRepeats(q) && i < |q|
    ensures Radius(q, q[i]) == if i < |q| - 1 then (i + 1) as real else 0.0
  {
  }

  lemma OnALine(x: real)
    ensures L2sq([0.0], [x]) == x * x
  {
    SameSquare(x, 0.0 - x);
    assert L2sq([0.0][1..], [x][1..]) == 0.0;
  }

  lemma SameSquare(x: real, y: real)
    requires y == -x
    ensures y * y == x * x
  {
  }

  lemma FurtherOut(x: real, y: real)
    requires 0.0 <= x < y
    ensures x * x < y * y
  {
    var d := y - x;
    assert y * y == x * x + x * d + d * x + d * d;
    assert x * d >= 0.0 && d * x >= 0.0 && d * d > 0.0;
  }

  /** Vectors of one component that make a trap. */
  lemma SetTrap(n: nat, q: seq<nat>) returns (vecs: seq<seq<real>>)
    requires NoRepeats(q) && forall v :: v in q ==> v < n
    ensures |vecs| == n && IsTrap(q, Distances([0.0], vecs))
  {
    vecs := seq(n, v requires 0 <= v < n => [Radius(q, v)]);
    hide Radius, L2sq, NoRepeats;
    var dist := Distances([0.0], vecs);
    forall i | 0 <= i < |q|
      ensures q[i] < n && dist[q[i]] == SquareAt(q, i)
    {
      assert q[i] in q;
      OnALine(Radius(q, q[i]));
      RadiusOf(q, i);
    }
    hide SquareAt;
    SquaresTrap(q, dist);
  }

  /** The squared distance of the i-th node. */
  function SquareAt(q: seq<nat>, i: nat): real {
    if i + 1 < |q| then (i + 1) as real * (i + 1) as real else 0.0
  }

  lemma SquaresTrap(q: seq<nat>, dist: seq<real>)
    requires forall i :: 0 <= i < |q| ==> q[i] < |dist| && dist[q[i]] == SquareAt(q, i)
    ensures IsTrap(q, dist)
  {
    hide SquareAt;
    forall i, j | 0 <= i < j < |q| - 1
      ensures dist[q[i]] < dist[q[j]]
    {
      SquaresGrow(q, i, j);
    }
    forall i | 0 <= i < |q| - 1
      ensures dist[q[|q| - 1]] < dist[q[i]]
    {
      LastIsZero(q, i);
    }
  }

  lemma SquaresGrow(q: seq<nat>, i: nat, j: nat)
    requires i < j < |q| - 1
    ensures SquareAt(q, i) < SquareAt(q, j)
  {
    FurtherOut((i + 1) as real, (j + 1) as real);
  }

  lemma LastIsZero(q: seq<nat>, i: nat)
    requires i < |q| - 1
    ensures SquareAt(q, |q| - 1) < SquareAt(q, i)
  {
    FurtherOut(0.0, (i + 1) as real);
  }

  /** In a trap the nearest node not yet expanded is the next of the discovery. */
  lemma NextOfDiscovery(g: Graph, dist: seq<real>, entry: nat, q: seq<nat>, n: nat, v: nat)
    requires g.Valid() && IsDiscovery(g, entry, q) && IsTrap(q, dist)
    requires n <= |q| && |Met(g, entry, q[..n])| < |q| && NextBest(g, dist, entry, q[..n], v)
    ensures n < |q| && v == q[n]
  {
    hide Met, ReachSet, Graph.Valid;
    var met := Met(g, entry, q[..n]);
    assert met <= q;
    var i :| 0 <= i < |met| && met[i] == v;
    assert q[i] == v;
    assert forall k :: 0 <= k < n ==> q[..n][k] == q[k] && q[k] in q[..n];
    assert i >= n;
    assert met[n] == q[n] && q[n] in met;
    assert q[n] !in q[..n] by {
      assert forall k :: 0 <= k < n ==> q[..n][k] == q[k] != q[n];
    }
    assert dist[v] <= dist[q[n]];
  }

  /** A best-first search of a trap expands the discovery, until it has met everything. */
  lemma {:induction false} FollowsDiscovery(g: Graph, dist: seq<real>, entry: nat, q: seq<nat>, order: seq<nat>)
    requires g.Valid() && IsDiscovery(g, entry, q) && IsTrap(q, dist) && BestFirst(g, dist, entry, order)
    requires order != [] ==> |Met(g, entry, order[..|order| - 1])| < |q|
    ensures |order| <= |q| && order == q[..|order|]
    decreases |order|
  {
    hide Met, NextBest, IsDiscovery, IsTrap, Graph.Valid;
    if order != [] {
      var n := |order| - 1;
      var init := order[..n];
      if n > 0 {
        MetPrefix(g, entry, init, n - 1);
      }
      FollowsDiscovery(g, dist, entry, q, init);
      NextOfDiscovery(g, dist, entry, q, n, order[n]);
      assert order == init + [order[n]] && q[..n + 1] == q[..n] + [q[n]];
    }
  }

  /** The beam never holds the nearest node of a trap. */
  lemma TrapCatches(g: Graph, dist: seq<real>, entry: nat, ef: nat, q: seq<nat>, order: seq<nat>, beam: seq<Entry>)
    requires g.Valid() && IsDiscovery(g, entry, q) && IsTrap(q, dist)
    requires IsBeam(g, dist, entry, ef, order, beam) && Width(ef) < |q|
    ensures q[|q| - 1] !in EntryIds(beam)
  {
    hide Met, BestFirst, ReachSet, Graph.Valid;
    var met, z := Met(g, entry, order), q[|q| - 1];
    FollowsDiscovery(g, dist, entry, q, order);
    assert met <= q;
    if z in Elements(met) {
      var j :| 0 <= j < |met| && met[j] == z;
      assert q[j] == z && j == |q| - 1;
      forall x | x in Elements(met) && x != z && x < |dist|
        ensures dist[z] < dist[x]
      {
        var i :| 0 <= i < |met| && met[i] == x;
        assert q[i] == x;
      }
      assert StrictlyNearest(dist, Elements(met), met[j]);
    }
  }

  lemma CaughtIsWrong(nodes: set<nat>, dist: seq<real>, k: nat, z: nat, out: seq<Entry>)
    requires k >= 1 && out != [] && z in nodes && StrictlyNearest(dist, nodes, z)
    requires Exact(out, nodes, dist) && z !in EntryIds(out)
    ensures !AreNearest(nodes, dist, k, out)
  {
    assert out[0].id in EntryIds(out);
  }

  // ---------- The condition ----------

  /** Whatever the vectors and the query, every answer is right. */
  ghost predicate AlwaysRight(g: Graph, entry: nat, k: nat, ef: nat)
    requires g.Valid()
  {
    forall dist: seq<real>, order: seq<nat>, beam: seq<Entry>, out: seq<Entry> ::
      |dist| == g.Size() && IsFrontOf(g, dist, entry, k, ef, order, beam, out) ==>
        AreNearest(ReachSet(g, entry), dist, k, out)
  }

  /** Every answer to this query over these vectors is wrong. */
  ghost predicate AllWrong(g: Graph, entry: nat, k: nat, ef: nat, vecs: seq<seq<real>>, query: seq<real>)
    requires g.Valid()
  {
    forall order: seq<nat>, beam: seq<Entry>, out: seq<Entry> ::
      IsFrontOf(g, Distances(query, vecs), entry, k, ef, order, beam, out) ==>
        !AreNearest(ReachSet(g, entry), Distances(query, vecs), k, out)
  }

  /**
   For a non-zero k, search is exact on all vectors if the beam has room for every
   reachable node, and wrong on some if not.
   */
  lemma ExactExactlyWithRoom(g: Graph, entry: nat, k: nat, ef: nat)
    requires g.Valid() && entry < g.Size()
    ensures Width(ef) >= |ReachSet(g, entry)| ==> AlwaysRight(g, entry, k, ef)
    ensures k >= 1 && Width(ef) < |ReachSet(g, entry)| ==>
      exists vecs: seq<seq<real>>, query: seq<real> :: |vecs| == g.Size() && AllWrong(g, entry, k, ef, vecs, query)
  {
    hide ReachSet, Graph.Valid, IsBeam, IsDiscovery, IsTrap, AreNearest;
    if Width(ef) >= |ReachSet(g, entry)| {
      forall dist: seq<real>, order: seq<nat>, beam: seq<Entry>, out: seq<Entry>
        | |dist| == g.Size() && IsFrontOf(g, dist, entry, k, ef, order, beam, out)
        ensures AreNearest(ReachSet(g, entry), dist, k, out)
      {
        FrontIsAnswer(g, dist, entry, k, ef, order, beam, out);
      }
    } else if k >= 1 {
      var vecs := Defeat(g, entry, k, ef);
      assert |vecs| == g.Size() && AllWrong(g, entry, k, ef, vecs, [0.0]);
    }
  }

  lemma Defeat(g: Graph, entry: nat, k: nat, ef: nat) returns (vecs: seq<seq<real>>)
    requires g.Valid() && entry < g.Size() && k >= 1 && Width(ef) < |ReachSet(g, entry)|
    ensures |vecs| == g.Size() && AllWrong(g, entry, k, ef, vecs, [0.0])
  {
    hide Met, Reaches, IsBeam, IsTrap, AreNearest, StrictlyNearest, Graph.Valid;
    var q := Discover(g, entry);
    ElementCount(q);
    assert forall v :: v in q ==> v in Elements(q);
    vecs := SetTrap(g.Size(), q);
    var dist, z := Distances([0.0], vecs), q[|q| - 1];
    assert z in Elements(q);
    NearestInTrap(q, dist);
    forall order: seq<nat>, beam: seq<Entry>, out: seq<Entry> | IsFrontOf(g, dist, entry, k, ef, order, beam, out)
      ensures !AreNearest(ReachSet(g, entry), dist, k, out)
    {
      TrapCatches(g, dist, entry, ef, q, order, beam);
      FrontIsAnswer(g, dist, entry, k, ef, order, beam, out);
      assert EntryIds(out) <= EntryIds(beam);
      CaughtIsWrong(ReachSet(g, entry), dist, k, z, out);
    }
  }

  lemma NearestInTrap(q: seq<nat>, dist: seq<real>)
    requires q != [] && IsTrap(q, dist)
    ensures StrictlyNearest(dist, Elements(q), q[|q| - 1])
  {
    forall x | x in Elements(q) && x != q[|q| - 1]
      ensures x < |dist| && dist[q[|q| - 1]] < dist[x]
    {
      var i :| 0 <= i < |q| && q[i] == x;
    }
  }

  // ---------- Narrow beams ----------

  /** A beam of one answers exactly just when the entry node is nearest among the reachable ones. */
  lemma NarrowBeamExact(nodes: set<nat>, dist: seq<real>, entry: nat)
    requires entry in nodes && forall v :: v in nodes ==> v < |dist|
    ensures AreNearest(nodes, dist, 1, [Entry(entry, dist[entry])]) <==>
      forall v :: v in nodes ==> dist[entry] <= dist[v]
  {
    var out := [Entry(entry, dist[entry])];
    assert out[0].id == entry;
    assert EntryIds(out) == {entry};
    SubsetCount({entry}, nodes);
    if AreNearest(nodes, dist, 1, out) {
      forall v | v in nodes
        ensures dist[entry] <= dist[v]
      {
        assert v in EntryIds(out) || out[0].dist <= dist[v];
      }
    }
  }
}
