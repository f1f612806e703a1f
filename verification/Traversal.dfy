/** Multi-hop expansion over `memory_edges`: breadth-first search with capped out-lists. */
module Traversal {
  import opened Prelude
  import opened Sorting

  /** Outgoing neighbours per node, in the order the query fetches them. */
  type EdgeTable = map<I64, seq<I64>>

  function Out(table: EdgeTable, cap: nat, node: I64): seq<I64> {
    if node in table then table[node][..Min(cap, |table[node]|)] else []
  }

  /** The neighbours that count are the first ones fetched, as many as the cap allows. */
  lemma FirstNeighbours(table: EdgeTable, cap: nat, node: I64)
    ensures node !in table ==> Out(table, cap, node) == []
    ensures node in table ==> Out(table, cap, node) <= table[node] && |Out(table, cap, node)| <= cap
    ensures node in table && Out(table, cap, node) != table[node] ==> |Out(table, cap, node)| == cap
  {
  }

  /** Some walk of exactly k hops leads from a seed to v. */
  ghost predicate HasWalk(table: EdgeTable, cap: nat, seeds: seq<I64>, v: I64, k: nat)
    decreases k
  {
    if k == 0 then v in seeds
    else exists u: I64 :: HasWalk(table, cap, seeds, u, k - 1) && v in Out(table, cap, u)
  }

  /** The hop distance of v from the seed set. */
  ghost predicate IsDistance(table: EdgeTable, cap: nat, seeds: seq<I64>, v: I64, d: nat) {
    HasWalk(table, cap, seeds, v, d) && forall k: nat :: k < d ==> !HasWalk(table, cap, seeds, v, k)
  }

  /** A finite set that holds the seeds and every out-neighbour. */
  ghost predicate Bounds(table: EdgeTable, cap: nat, seeds: seq<I64>, universe: set<I64>) {
    && (forall s :: s in seeds ==> s in universe)
    && (forall u: I64, w: I64 :: w in Out(table, cap, u) ==> w in universe)
  }

  lemma Universe(table: EdgeTable, cap: nat, seeds: seq<I64>) returns (universe: set<I64>)
    ensures Bounds(table, cap, seeds, universe)
  {
    universe := (set s | s in seeds) + (set u, w | u in table && w in table[u] :: w);
    forall u: I64, w: I64 | w in Out(table, cap, u)
      ensures w in universe
    {
      assert w in table[u];
    }
  }

  // ---------- The search state ----------

  /** Every recorded distance is realised by a walk; distance 0 means a seed. */
  ghost predicate Realised(table: EdgeTable, cap: nat, seeds: seq<I64>, dist: map<I64, nat>) {
    && (forall s :: s in seeds ==> s in dist && dist[s] == 0)
    && (forall v :: v in dist ==> HasWalk(table, cap, seeds, v, dist[v]))
  }

  /** The queue holds recorded distances in order, spanning at most one level beyond the front. */
  ghost predicate Levelled(dist: map<I64, nat>, q: seq<(I64, nat)>) {
    && (forall e :: e in q ==> e.0 in dist && dist[e.0] == e.1)
    && (forall i, j :: 0 <= i < j < |q| ==> q[i].1 <= q[j].1)
    && (|q| > 0 ==> forall v :: v in dist ==> dist[v] <= q[0].1 + 1)
  }

  /** Every out-neighbour of u has been recorded, at most one hop further. */
  ghost predicate Closed(table: EdgeTable, cap: nat, dist: map<I64, nat>, u: I64)
    requires u in dist
  {
    forall w :: w in Out(table, cap, u) ==> w in dist && dist[w] <= dist[u] + 1
  }

  /** Recorded nodes below the hop limit wait in the queue or are closed. */
  ghost predicate Explored(table: EdgeTable, cap: nat, maxHops: nat, dist: map<I64, nat>, q: seq<(I64, nat)>) {
    forall u :: u in dist && dist[u] < maxHops ==> (u, dist[u]) in q || Closed(table, cap, dist, u)
  }

  /** `dist'` and `added` are what one expansion of `node` records. */
  ghost predicate Expanded(neighbours: seq<I64>, hop: nat, dist: map<I64, nat>, dist': map<I64, nat>,
                           added: seq<(I64, nat)>) {
    && (forall v :: v in dist ==> v in dist' && dist'[v] == dist[v])
    && (forall v :: v in dist' && v !in dist ==> v in neighbours && dist'[v] == hop + 1 && (v, hop + 1) in added)
    && (forall w :: w in neighbours ==> w in dist')
    && (forall e :: e in added ==> e.0 in dist' && e.0 !in dist && e.1 == hop + 1 && dist'[e.0] == e.1)
  }

  method Expand(neighbours: seq<I64>, hop: nat, dist: map<I64, nat>, q: seq<(I64, nat)>)
    returns (dist': map<I64, nat>, q': seq<(I64, nat)>, ghost added: seq<(I64, nat)>)
    ensures q' == q + added
    ensures Expanded(neighbours, hop, dist, dist', added)
  {
    dist', q', added := dist, q, [];
    for i := 0 to |neighbours|
      invariant q' == q + added
      invariant Expanded(neighbours[..i], hop, dist, dist', added)
    {
      var dst := neighbours[i];
      assert neighbours[..i + 1] == neighbours[..i] + [dst];
      if dst !in dist' {
        dist' := dist'[dst := hop + 1];
        q' := q' + [(dst, hop + 1)];
        added := added + [(dst, hop + 1)];
      }
    }
    assert neighbours[..|neighbours|] == neighbours;
  }

  lemma ExpandKeepsRealised(table: EdgeTable, cap: nat, seeds: seq<I64>, node: I64, hop: nat, dist: map<I64, nat>,
                            dist': map<I64, nat>, added: seq<(I64, nat)>)
    requires Realised(table, cap, seeds, dist) && node in dist && dist[node] == hop
    requires Expanded(Out(table, cap, node), hop, dist, dist', added)
    ensures Realised(table, cap, seeds, dist')
  {
    hide HasWalk;
    forall v | v in dist'
      ensures HasWalk(table, cap, seeds, v, dist'[v])
    {
      if v !in dist {
        WalkOn(table, cap, seeds, node, hop, v);
      }
    }
  }

  lemma WalkOn(table: EdgeTable, cap: nat, seeds: seq<I64>, u: I64, k: nat, v: I64)
    requires HasWalk(table, cap, seeds, u, k) && v in Out(table, cap, u)
    ensures HasWalk(table, cap, seeds, v, k + 1)
  {
  }

  lemma ExpandKeepsLevelled(hop: nat, node: I64, neighbours: seq<I64>, dist: map<I64, nat>, q: seq<(I64, nat)>,
                            dist': map<I64, nat>, added: seq<(I64, nat)>)
    requires Levelled(dist, [(node, hop)] + q)
    requires Expanded(neighbours, hop, dist, dist', added)
    ensures Levelled(dist', q + added)
  {
    var was, now := [(node, hop)] + q, q + added;
    assert was[0] == (node, hop);
    forall e | e in q
      ensures e in was && e.0 in dist && dist[e.0] == e.1 && hop <= e.1 <= hop + 1
    {
      var i :| 0 <= i < |q| && q[i] == e;
      assert was[i + 1] == e && was[0].1 <= was[i + 1].1;
      assert e in was;
      assert e.0 in dist && dist[e.0] == e.1;
    }
    forall e | e in now
      ensures e.0 in dist' && dist'[e.0] == e.1
    {
      if e !in q { assert e in added; }
    }
    forall i, j | 0 <= i < j < |now|
      ensures now[i].1 <= now[j].1
    {
      if j < |q| {
        assert now[i] == was[i + 1] && now[j] == was[j + 1];
      } else {
        assert now[j] in added;
        assert now[i] in q || now[i] in added;
      }
    }
    if |now| > 0 {
      assert now[0] in q || now[0] in added;
    }
  }

  lemma ExpandKeepsExplored(table: EdgeTable, cap: nat, maxHops: nat, node: I64, hop: nat, dist: map<I64, nat>,
                            q: seq<(I64, nat)>, dist': map<I64, nat>, added: seq<(I64, nat)>)
    requires Levelled(dist, [(node, hop)] + q)
    requires Explored(table, cap, maxHops, dist, [(node, hop)] + q)
    requires Expanded(Out(table, cap, node), hop, dist, dist', added)
    ensures Explored(table, cap, maxHops, dist', q + added)
  {
    var was := [(node, hop)] + q;
    assert was[0] == (node, hop);
    forall u | u in dist' && dist'[u] < maxHops
      ensures (u, dist'[u]) in q + added || Closed(table, cap, dist', u)
    {
      if u in dist && u != node {
        if Closed(table, cap, dist, u) {
          assert Closed(table, cap, dist', u);
        } else {
          assert (u, dist[u]) in was && (u, dist[u]) != (node, hop);
          assert (u, dist[u]) in q;
        }
      }
    }
  }

  /** Skipping a node at the hop limit. */
  lemma SkipKeeps(table: EdgeTable, cap: nat, maxHops: nat, node: I64, hop: nat, dist: map<I64, nat>,
                  q: seq<(I64, nat)>)
    requires hop >= maxHops
    requires Levelled(dist, [(node, hop)] + q)
    requires Explored(table, cap, maxHops, dist, [(node, hop)] + q)
    ensures Levelled(dist, q) && Explored(table, cap, maxHops, dist, q)
  {
    var was := [(node, hop)] + q;
    assert forall i :: 0 <= i < |q| ==> q[i] == was[i + 1];
    forall u | u in dist && dist[u] < maxHops && (u, dist[u]) in was
      ensures (u, dist[u]) in q
    {}
    forall e | e in q
      ensures e in was
    {}
    if |q| > 0 {
      assert was[0].1 <= was[1].1;
    }
  }

  /** With an empty queue, no walk within the limit beats a recorded distance. */
  lemma {:induction false} Shortest(table: EdgeTable, cap: nat, maxHops: nat, seeds: seq<I64>, dist: map<I64, nat>,
                                    v: I64, k: nat)
    requires Realised(table, cap, seeds, dist) && Explored(table, cap, maxHops, dist, [])
    requires HasWalk(table, cap, seeds, v, k) && k <= maxHops
    ensures v in dist && dist[v] <= k
    decreases k
  {
    if k > 0 {
      var u: I64 :| HasWalk(table, cap, seeds, u, k - 1) && v in Out(table, cap, u);
      Shortest(table, cap, maxHops, seeds, dist, u, k - 1);
      assert Closed(table, cap, dist, u);
    }
  }

  /** Seeds are recorded at distance 0 and queued, repetitions included. */
  method Start(table: EdgeTable, seeds: seq<I64>, cap: nat, ghost universe: set<I64>)
    returns (dist: map<I64, nat>, q: seq<(I64, nat)>)
    requires Bounds(table, cap, seeds, universe)
    ensures dist.Keys <= universe
    ensures Realised(table, cap, seeds, dist)
    ensures forall v :: v in dist ==> dist[v] == 0 && (v, 0) in q
    ensures Levelled(dist, q)
  {
    dist, q := map[], [];
    for i := 0 to |seeds|
      invariant dist.Keys <= universe
      invariant forall v :: v in dist <==> v in seeds[..i]
      invariant forall v :: v in dist ==> dist[v] == 0 && (v, 0) in q
      invariant forall e :: e in q ==> e.0 in dist && e.1 == 0
    {
      assert seeds[..i + 1] == seeds[..i] + [seeds[i]];
      assert seeds[i] in seeds;
      dist := dist[seeds[i] := 0];
      q := q + [(seeds[i], 0)];
    }
    assert seeds[..|seeds|] == seeds;
    forall i | 0 <= i < |q|
      ensures q[i].1 == 0
    {
      assert q[i] in q;
    }
  }

  ghost predicate SearchInv(table: EdgeTable, cap: nat, seeds: seq<I64>, maxHops: nat, universe: set<I64>,
                            dist: map<I64, nat>, q: seq<(I64, nat)>) {
    && dist.Keys <= universe
    && Realised(table, cap, seeds, dist)
    && (forall v :: v in dist ==> dist[v] <= maxHops)
    && Levelled(dist, q)
    && Explored(table, cap, maxHops, dist, q)
  }

  /** One expansion keeps the search invariant and, if it records anything, shrinks what is left. */
  lemma ExpandKeeps(table: EdgeTable, cap: nat, seeds: seq<I64>, maxHops: nat, universe: set<I64>, node: I64, hop: nat,
                    dist: map<I64, nat>, q: seq<(I64, nat)>, dist': map<I64, nat>, added: seq<(I64, nat)>)
    requires Bounds(table, cap, seeds, universe) && hop < maxHops
    requires SearchInv(table, cap, seeds, maxHops, universe, dist, [(node, hop)] + q)
    requires Expanded(Out(table, cap, node), hop, dist, dist', added)
    ensures SearchInv(table, cap, seeds, maxHops, universe, dist', q + added)
    ensures if added == [] then dist'.Keys == dist.Keys else |universe - dist'.Keys| < |universe - dist.Keys|
  {
    assert ([(node, hop)] + q)[0] in [(node, hop)] + q;
    ExpandKeepsRealised(table, cap, seeds, node, hop, dist, dist', added);
    ExpandKeepsLevelled(hop, node, Out(table, cap, node), dist, q, dist', added);
    ExpandKeepsExplored(table, cap, maxHops, node, hop, dist, q, dist', added);
    ExpandedKeys(universe, Out(table, cap, node), hop, dist, dist', added);
    if |added| > 0 {
      assert added[0] in added;
      Progress(universe, dist.Keys, dist'.Keys, added[0].0);
    }
  }

  /** The front of the queue is taken off and, within the limit, expanded. */
  method Visit(table: EdgeTable, cap: nat, ghost seeds: seq<I64>, maxHops: nat, ghost universe: set<I64>,
               dist: map<I64, nat>, q: seq<(I64, nat)>)
    returns (dist': map<I64, nat>, q': seq<(I64, nat)>)
    requires Bounds(table, cap, seeds, universe) && q != [] && SearchInv(table, cap, seeds, maxHops, universe, dist, q)
    ensures SearchInv(table, cap, seeds, maxHops, universe, dist', q')
    ensures |universe - dist'.Keys| < |universe - dist.Keys| || (dist'.Keys == dist.Keys && |q'| < |q|)
  {
    hide SearchInv, Bounds, Out, Expanded;
    var (node, hop) := q[0];
    assert q == [(node, hop)] + q[1..];
    if hop >= maxHops {
      SkipOne(table, cap, seeds, maxHops, universe, node, hop, dist, q[1..]);
      return dist, q[1..];
    }
    ghost var added;
    dist', q', added := Expand(Out(table, cap, node), hop, dist, q[1..]);
    ExpandKeeps(table, cap, seeds, maxHops, universe, node, hop, dist, q[1..], dist', added);
  }

  /** `dist` holds exactly the hop distances up to the limit. */
  ghost predicate AreDistances(table: EdgeTable, cap: nat, seeds: seq<I64>, maxHops: nat, dist: map<I64, nat>) {
    forall v: I64, d: nat :: v in dist && dist[v] == d <==> d <= maxHops && IsDistance(table, cap, seeds, v, d)
  }

  /** The search loop: afterwards `dist` holds exactly the distances up to the limit. */
  method Search(table: EdgeTable, seeds: seq<I64>, maxHops: nat, cap: nat) returns (dist: map<I64, nat>)
    ensures AreDistances(table, cap, seeds, maxHops, dist)
  {
    hide SearchInv, Bounds, HasWalk, AreDistances, Out, Realised, Levelled, Expanded;
    var q: seq<(I64, nat)>;
    ghost var universe := Universe(table, cap, seeds);
    dist, q := Start(table, seeds, cap, universe);
    Started(table, cap, seeds, maxHops, universe, dist, q);
    while q != []
      invariant SearchInv(table, cap, seeds, maxHops, universe, dist, q)
      decreases |universe - dist.Keys|, |q|
    {
      dist, q := Visit(table, cap, seeds, maxHops, universe, dist, q);
    }
    Searched(table, cap, seeds, maxHops, universe, dist);
  }

  lemma Started(table: EdgeTable, cap: nat, seeds: seq<I64>, maxHops: nat, universe: set<I64>, dist: map<I64, nat>,
                q: seq<(I64, nat)>)
    requires dist.Keys <= universe && Realised(table, cap, seeds, dist) && Levelled(dist, q)
    requires forall v :: v in dist ==> dist[v] == 0 && (v, 0) in q
    ensures SearchInv(table, cap, seeds, maxHops, universe, dist, q)
  {
    hide HasWalk;
  }

  lemma SkipOne(table: EdgeTable, cap: nat, seeds: seq<I64>, maxHops: nat, universe: set<I64>, node: I64, hop: nat,
                dist: map<I64, nat>, q: seq<(I64, nat)>)
    requires hop >= maxHops && SearchInv(table, cap, seeds, maxHops, universe, dist, [(node, hop)] + q)
    ensures SearchInv(table, cap, seeds, maxHops, universe, dist, q)
  {
    hide HasWalk, Levelled, Explored;
    SkipKeeps(table, cap, maxHops, node, hop, dist, q);
  }

  lemma Searched(table: EdgeTable, cap: nat, seeds: seq<I64>, maxHops: nat, universe: set<I64>, dist: map<I64, nat>)
    requires SearchInv(table, cap, seeds, maxHops, universe, dist, [])
    ensures AreDistances(table, cap, seeds, maxHops, dist)
  {
    hide HasWalk, IsDistance;
    AllDistancesExact(table, cap, maxHops, seeds, dist);
  }

  lemma Progress(universe: set<I64>, before: set<I64>, after: set<I64>, v: I64)
    requires before <= after <= universe && v in after && v !in before
    ensures |universe - after| < |universe - before|
  {
    SubsetSize(universe - after, universe - before - {v});
  }

  lemma ExpandedKeys(universe: set<I64>, neighbours: seq<I64>, hop: nat, dist: map<I64, nat>, dist': map<I64, nat>,
                     added: seq<(I64, nat)>)
    requires dist.Keys <= universe && forall w :: w in neighbours ==> w in universe
    requires Expanded(neighbours, hop, dist, dist', added)
    ensures dist.Keys <= dist'.Keys <= universe
    ensures added == [] <==> dist'.Keys == dist.Keys
  {
    if |added| > 0 {
      assert added[0] in added;
      assert added[0].0 in dist'.Keys && added[0].0 !in dist.Keys;
    } else {
      assert forall v :: v in dist'.Keys ==> v in dist.Keys;
    }
  }

  lemma {:induction false} SubsetSize(a: set<I64>, b: set<I64>)
    requires a <= b
    ensures |a| <= |b|
  {
    assert b == a + (b - a);
  }

  lemma DistancesExact(table: EdgeTable, cap: nat, maxHops: nat, seeds: seq<I64>, dist: map<I64, nat>, v: I64, d: nat)
    requires Realised(table, cap, seeds, dist) && Explored(table, cap, maxHops, dist, [])
    requires forall u :: u in dist ==> dist[u] <= maxHops
    ensures v in dist && dist[v] == d <==> d <= maxHops && IsDistance(table, cap, seeds, v, d)
  {
    if v in dist {
      forall k: nat | k < dist[v]
        ensures !HasWalk(table, cap, seeds, v, k)
      {
        if HasWalk(table, cap, seeds, v, k) {
          Shortest(table, cap, maxHops, seeds, dist, v, k);
        }
      }
    }
    if d <= maxHops && IsDistance(table, cap, seeds, v, d) {
      Shortest(table, cap, maxHops, seeds, dist, v, d);
    }
  }

  lemma AllDistancesExact(table: EdgeTable, cap: nat, maxHops: nat, seeds: seq<I64>, dist: map<I64, nat>)
    requires Realised(table, cap, seeds, dist) && Explored(table, cap, maxHops, dist, [])
    requires forall u :: u in dist ==> dist[u] <= maxHops
    ensures AreDistances(table, cap, seeds, maxHops, dist)
  {
    forall v: I64, d: nat
      ensures v in dist && dist[v] == d <==> d <= maxHops && IsDistance(table, cap, seeds, v, d)
    {
      DistancesExact(table, cap, maxHops, seeds, dist, v, d);
    }
  }

  predicate HopLe(a: (I64, nat), b: (I64, nat)) {
    a.1 <= b.1
  }

  /**
   The non-seed nodes within `maxHops`, each once with its hop distance, nearest
   first, and nothing else.
   */
  method MultiHopNeighbors(table: EdgeTable, seeds: seq<I64>, maxHops: nat, cap: nat) returns (out: seq<(I64, nat)>)
    ensures forall i, j :: 0 <= i < j < |out| ==> out[i].0 != out[j].0 && out[i].1 <= out[j].1
    ensures forall v: I64, d: nat :: (v, d) in out <==>
      v !in seeds && d <= maxHops && IsDistance(table, cap, seeds, v, d)
  {
    hide HasWalk, IsDistance, AreDistances;
    if seeds == [] || maxHops == 0 {
      NothingBeyondSeeds(table, cap, seeds, maxHops);
      return [];
    }
    var dist := Search(table, seeds, maxHops, cap);
    var pairs: seq<(I64, nat)> := [];
    var todo := dist.Keys;
    while todo != {}
      invariant todo <= dist.Keys
      invariant forall v: I64, d: nat :: (v, d) in pairs <==> v in dist && v !in todo && v !in seeds && dist[v] == d
      invariant forall i, j :: 0 <= i < j < |pairs| ==> pairs[i].0 != pairs[j].0
      decreases |todo|
    {
      var v := AnyOf(todo);
      assert forall i :: 0 <= i < |pairs| ==> (pairs[i].0, pairs[i].1) in pairs;
      todo := todo - {v};
      if v !in seeds {
        pairs := pairs + [(v, dist[v])];
      }
    }
    out := Sort(pairs, HopLe);
    SortKeepsKeys(out, pairs);
    forall v: I64, d: nat
      ensures (v, d) in out <==> v !in seeds && d <= maxHops && IsDistance(table, cap, seeds, v, d)
    {
      Listed(table, cap, seeds, maxHops, dist, pairs, out, v, d);
    }
  }

  /** A pair of the answer is a recorded distance of a node that is no seed. */
  lemma Listed(table: EdgeTable, cap: nat, seeds: seq<I64>, maxHops: nat, dist: map<I64, nat>,
               pairs: seq<(I64, nat)>, out: seq<(I64, nat)>, v: I64, d: nat)
    requires AreDistances(table, cap, seeds, maxHops, dist)
    requires forall u: I64, k: nat :: (u, k) in pairs <==> u in dist && u !in seeds && dist[u] == k
    requires forall x :: x in out <==> x in pairs
    ensures (v, d) in out <==> v !in seeds && d <= maxHops && IsDistance(table, cap, seeds, v, d)
  {
    hide IsDistance;
    var x := (v, d);
    assert x in out <==> x in pairs;
    assert (v, d) in out <==> (v, d) in pairs;
  }

  lemma NothingBeyondSeeds(table: EdgeTable, cap: nat, seeds: seq<I64>, maxHops: nat)
    requires seeds == [] || maxHops == 0
    ensures forall v: I64, d: nat :: v !in seeds && d <= maxHops ==> !IsDistance(table, cap, seeds, v, d)
  {
    forall v: I64, d: nat | v !in seeds && d <= maxHops
      ensures !IsDistance(table, cap, seeds, v, d)
    {
      if seeds == [] {
        NoWalkFromNothing(table, cap, v, d);
      } else {
        assert HasWalk(table, cap, seeds, v, 0) <==> v in seeds;
      }
    }
  }

  lemma {:induction false} NoWalkFromNothing(table: EdgeTable, cap: nat, v: I64, k: nat)
    ensures !HasWalk(table, cap, [], v, k)
    decreases k
  {
    if k > 0 && HasWalk(table, cap, [], v, k) {
      var u: I64 :| HasWalk(table, cap, [], u, k - 1) && v in Out(table, cap, u);
      NoWalkFromNothing(table, cap, u, k - 1);
    }
  }

  lemma SortKeepsKeys(out: seq<(I64, nat)>, pairs: seq<(I64, nat)>)
    requires Permutation(out, pairs) && Sorted(out, HopLe)
    requires forall i, j :: 0 <= i < j < |pairs| ==> pairs[i].0 != pairs[j].0
    ensures forall x :: x in out <==> x in pairs
    ensures forall i, j :: 0 <= i < j < |out| ==> out[i].0 != out[j].0 && out[i].1 <= out[j].1
  {
    PermutationFacts(out, pairs);
    PermutationNoRepeats(out, pairs);
    forall i, j | 0 <= i < j < |out|
      ensures out[i].0 != out[j].0 && out[i].1 <= out[j].1
    {
      assert HopLe(out[i], out[j]);
      assert out[i] in pairs && out[j] in pairs;
      var a :| 0 <= a < |pairs| && pairs[a] == out[i];
      var b :| 0 <= b < |pairs| && pairs[b] == out[j];
      assert out[i] != out[j];
    }
  }
}
