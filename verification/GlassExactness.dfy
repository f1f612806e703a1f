/**
 When an index answers exactly, in terms of what its caller chooses: the number of
 vectors, the cap on neighbours and the width of the search.
 */
module GlassExactness {
  import opened Prelude
  import opened Sorting
  import opened Reachability
  import opened Beams
  import opened BeamSearch
  import opened BeamExactness
  import opened Glass

  // ---------- The first expansion ----------

  /** 1, ..., i. */
  function UpTo(i: nat): (s: seq<nat>)
    ensures |s| == i && forall j :: 0 <= j < i ==> s[j] == j + 1
  {
    seq(i, j => j + 1)
  }

  /** 0, ..., n - 1. */
  function Count(n: nat): (s: seq<nat>)
    ensures |s| == n && forall j :: 0 <= j < n ==> s[j] == j
  {
    seq(n, j => j)
  }

  lemma {:induction false} NothingMetYet(nbrs: seq<nat>, met: set<nat>)
    requires forall v :: v in nbrs ==> v !in met
    ensures Unmet(nbrs, met) == nbrs
  {
    if nbrs != [] {
      var n := |nbrs| - 1;
      assert nbrs == nbrs[..n] + [nbrs[n]];
      NothingMetYet(nbrs[..n], met);
    }
  }

  lemma {:induction false} FirstIsEntry(g: Graph, dist: seq<real>, entry: nat, order: seq<nat>)
    requires g.Valid() && BestFirst(g, dist, entry, order) && order != []
    ensures order[0] == entry
    decreases |order|
  {
    if |order| == 1 {
      MetNothing(g, entry);
      assert order[..0] == [];
    } else {
      FirstIsEntry(g, dist, entry, order[..|order| - 1]);
    }
  }

  /** Node 0 leads to all others: expanding it meets them all, in order. */
  lemma HubMeetsAll(g: Graph, n: nat)
    requires g.Valid() && n >= 1 && g.Size() >= n && g.Neighbours(0) == UpTo(n - 1)
    ensures Met(g, 0, [0]) == Count(n)
  {
    hide Met, Graph.Valid, NoRepeats, UpTo, Count, Out, Unmet;
    MetNothing(g, 0);
    MetStep(g, 0, [], 0);
    assert [] + [0] == [0];
    OnlyOne(0);
    HubOut(g, n);
    AllUnmet(n);
    ZeroFirst(n);
  }

  lemma HubOut(g: Graph, n: nat)
    requires g.Valid() && n >= 1 && g.Size() >= n && g.Neighbours(0) == UpTo(n - 1)
    ensures Out(g, 0) == UpTo(n - 1)
  {
    hide UpTo, Graph.Valid;
  }

  lemma AllUnmet(n: nat)
    requires n >= 1
    ensures Unmet(UpTo(n - 1), {0}) == UpTo(n - 1)
  {
    hide UpTo;
    var nbrs := UpTo(n - 1);
    forall v | v in nbrs
      ensures v !in {0}
    {
      var j :| 0 <= j < n - 1 && nbrs[j] == v;
    }
    NothingMetYet(nbrs, {0});
  }

  lemma ZeroFirst(n: nat)
    requires n >= 1
    ensures [0] + UpTo(n - 1) == Count(n)
  {
    hide UpTo, Count;
  }

  /** What a beam with no more room than such a hub has met: the entry alone, or all after one expansion. */
  lemma HubBeam(g: Graph, dist: seq<real>, ef: nat, order: seq<nat>, beam: seq<Entry>, n: nat)
    requires g.Valid() && n >= 1 && g.Size() >= n && g.Neighbours(0) == UpTo(n - 1)
    requires IsBeam(g, dist, 0, ef, order, beam) && Width(ef) <= n
    ensures Met(g, 0, order) == if Width(ef) == 1 then [0] else Count(n)
    ensures MetBefore(g, 0, order) == if Width(ef) == 1 then {} else {0}
  {
    hide Met, BestFirst, LateNearestLost, LateFarRefused, Graph.Valid;
    MetNothing(g, 0);
    HubMeetsAll(g, n);
    if order == [] {
      assert 0 in Met(g, 0, order);
    } else {
      FirstIsEntry(g, dist, 0, order);
      OneExpansion(g, dist, ef, order, beam, n);
      OnlyOne(0);
    }
  }

  lemma OneExpansion(g: Graph, dist: seq<real>, ef: nat, order: seq<nat>, beam: seq<Entry>, n: nat)
    requires g.Valid() && n >= 1 && Met(g, 0, [0]) == Count(n) && order != [] && order[0] == 0
    requires |Met(g, 0, order[..|order| - 1])| < Width(ef) <= n
    ensures order == [0] && Width(ef) > 1
  {
    hide Met, Graph.Valid;
    if |order| >= 2 {
      LaterExpansion(g, order, n);
    }
  }

  /** Every expansion after the first starts with everything met. */
  lemma LaterExpansion(g: Graph, order: seq<nat>, n: nat)
    requires g.Valid() && Met(g, 0, [0]) == Count(n) && |order| >= 2 && order[0] == 0
    ensures |Met(g, 0, order[..|order| - 1])| >= n
  {
    hide Met, Graph.Valid;
    var init := order[..|order| - 1];
    MetPrefix(g, 0, init, 1);
    assert init[..1] == [0];
  }

  // ---------- The list of node 0 ----------

  /** A search whose beam fits into its answer finds the entry node. */
  lemma FoundHoldsEntry(g: Graph, dist: seq<real>, k: nat, ef: nat, found: seq<Entry>)
    requires g.Valid() && FoundBy(g, dist, k, ef, found) && Width(ef) <= k
    ensures 0 in IdsOf(found)
  {
    hide Graph.Valid, IsBeam, ReachSet;
    var order: seq<nat>, beam: seq<Entry> :| IsFrontOf(g, dist, 0, k, ef, order, beam, found);
    EntryKept(g, dist, 0, ef, order, beam);
    WholeBeam(g, dist, k, ef, order, beam, found);
    var i :| 0 <= i < |beam| && beam[i].id == 0;
    assert IdsOf(found)[i] == 0;
  }

  lemma WholeBeam(g: Graph, dist: seq<real>, k: nat, ef: nat, order: seq<nat>, beam: seq<Entry>, found: seq<Entry>)
    requires g.Valid() && IsFrontOf(g, dist, 0, k, ef, order, beam, found) && Width(ef) <= k
    ensures found == beam
  {
    hide Met, BestFirst, LateNearestLost, LateFarRefused, ReachSet, Graph.Valid;
  }

  /** The first m nodes all find node 0, which lists them in turn. */
  lemma {:induction false} HubList(vecs: seq<seq<real>>, m: nat, ef: nat, states: seq<seq<seq<nat>>>,
                                   found: seq<seq<Entry>>, n: nat, i: nat)
    requires IsHistory(vecs, m, ef, states, found, n) && i < n && i <= m
    ensures states[i][0] == UpTo(i)
  {
    hide FoundBy, BuiltUpTo;
    if i == 0 {
      assert UpTo(0) == [];
    } else {
      HubList(vecs, m, ef, states, found, n, i - 1);
      var adj := states[i - 1];
      assert IsStep(vecs, m, ef, adj, states[i], i, found[i]);
      FoundHoldsEntry(Lists(adj), Distances(vecs[i], vecs), m, Min(ef, i), found[i]);
      assert UpTo(i - 1) + [i] == UpTo(i);
    }
  }

  // ---------- Room for all ----------

  /** Node 0 leads to all others: they are all reachable. */
  lemma HubReaches(g: Graph, n: nat)
    requires g.Valid() && n >= 1 && g.Size() >= n && g.Neighbours(0) == UpTo(n - 1)
    ensures Nodes(n) <= ReachSet(g, 0)
  {
    hide Reaches;
    ReachSelf(g, 0);
    forall v | v in Nodes(n)
      ensures v in ReachSet(g, 0)
    {
      if v > 0 {
        assert UpTo(n - 1)[v - 1] == v;
        ReachStep(g, 0, 0, v);
      }
    }
  }

  ghost predicate HasLists(g: Graph, adj: seq<seq<nat>>) {
    g.Valid() && g.Size() == |adj| && forall i: nat :: i < |adj| ==> g.Neighbours(i) == adj[i]
  }

  /** An index over these vectors: some history of insertions, compacted. */
  ghost predicate IsBuilt(g: Graph, vecs: seq<seq<real>>, m: nat, efc: nat) {
    exists states, found :: IsHistory(vecs, m, efc, states, found, |vecs|) && HasLists(g, states[|vecs| - 1])
  }

  lemma ReachBelowSize(g: Graph)
    requires g.Valid()
    ensures ReachSet(g, 0) <= Nodes(g.Size())
  {
    hide Reaches;
  }

  lemma SomeHistory(g: Graph, vecs: seq<seq<real>>, m: nat, efc: nat)
    returns (states: seq<seq<seq<nat>>>, found: seq<seq<Entry>>)
    requires IsBuilt(g, vecs, m, efc)
    ensures |states| == |vecs| >= 1 && |states[|vecs| - 1]| == |vecs|
    ensures IsHistory(vecs, m, efc, states, found, |vecs|) && HasLists(g, states[|vecs| - 1])
  {
    hide IsStep;
    states, found :| IsHistory(vecs, m, efc, states, found, |vecs|) && HasLists(g, states[|vecs| - 1]);
  }

  /** With a cap of at least n - 1 every vector of an index is reachable. */
  lemma AllReachable(g: Graph, vecs: seq<seq<real>>, m: nat, efc: nat)
    requires IsBuilt(g, vecs, m, efc) && m + 1 >= |vecs|
    ensures g.Valid() && |vecs| >= 1 && g.Size() == |vecs| && g.Neighbours(0) == UpTo(|vecs| - 1)
    ensures ReachSet(g, 0) == Nodes(|vecs|)
  {
    hide ReachSet, Graph.Valid, IsHistory, Nodes, UpTo;
    var n := |vecs|;
    var states, found := SomeHistory(g, vecs, m, efc);
    HubList(vecs, m, efc, states, found, n, n - 1);
    HubReaches(g, n);
    ReachBelowSize(g);
  }

  /** While at most m + 1 nodes are inserted, all of them are reachable. */
  lemma StageReachable(vecs: seq<seq<real>>, m: nat, ef: nat, states: seq<seq<seq<nat>>>, found: seq<seq<Entry>>,
                       n: nat, k: nat)
    requires IsHistory(vecs, m, ef, states, found, n) && k < n && k <= m
    ensures Lists(states[k]).Valid() && ReachSet(Lists(states[k]), 0) == Nodes(k + 1)
  {
    hide ReachSet, Graph.Valid, FoundBy;
    var adj := states[k];
    HubList(vecs, m, ef, states, found, n, k);
    if k == 0 {
      NothingReachable(|vecs|, m);
    } else {
      assert IsStep(vecs, m, ef, states[k - 1], adj, k, found[k]);
    }
    assert BuiltUpTo(adj, k + 1, m);
    OnlyEarlierReachable(adj, k + 1, m);
    assert Lists(adj).Neighbours(0) == adj[0];
    HubReaches(Lists(adj), k + 1);
  }

  // ---------- No room for all ----------

  /** All but one of the vectors are the same point. */
  function OddOneOut(n: nat, z: nat): (vecs: seq<seq<real>>)
    ensures |vecs| == n && forall i :: 0 <= i < n ==> vecs[i] == if i == z then [0.0] else [1.0]
  {
    seq(n, i => if i == z then [0.0] else [1.0])
  }

  ghost predicate SameUpTo(dist: seq<real>, i: nat) {
    i <= |dist| && forall a, b :: 0 <= a < i && 0 <= b < i ==> dist[a] == dist[b]
  }

  lemma NodesCount(n: nat)
    ensures |Nodes(n)| == n
  {
    if n > 0 {
      NodesCount(n - 1);
    }
  }

  /** Among equally distant nodes around such a hub, a beam holds the first ones. */
  lemma EqualBeam(g: Graph, dist: seq<real>, ef: nat, order: seq<nat>, beam: seq<Entry>, n: nat)
    requires g.Valid() && n >= 1 && g.Size() >= n && g.Neighbours(0) == UpTo(n - 1)
    requires IsBeam(g, dist, 0, ef, order, beam) && DistinctEntries(beam) && Width(ef) <= n && SameUpTo(dist, n)
    ensures EntryIds(beam) == Nodes(Width(ef))
  {
    hide Met, BestFirst, LateNearestLost, Graph.Valid, EntryIds, DistinctEntries, NoRepeats;
    HubBeam(g, dist, ef, order, beam, n);
    var met := Met(g, 0, order);
    forall j | Width(ef) <= j < |met|
      ensures met[j] !in EntryIds(beam)
    {
      assert NotNearer(dist, met[j], 0);
    }
    forall v | v in EntryIds(beam)
      ensures v in Nodes(Width(ef))
    {
      assert v in Elements(met);
      var j :| 0 <= j < |met| && met[j] == v;
    }
    DistinctCount(beam);
    NodesCount(Width(ef));
    SubsetCount(EntryIds(beam), Nodes(Width(ef)));
  }

  /** After inserting node i, the first e nodes list everything, the others the first e. */
  ghost predicate Crowded(adj: seq<seq<nat>>, i: nat, e: nat) {
    && i < |adj|
    && forall j :: 0 <= j <= i ==> Elements(adj[j]) == if j < e then Nodes(i + 1) - {j} else Nodes(e)
  }

  lemma IdsAre(found: seq<Entry>)
    ensures Elements(IdsOf(found)) == EntryIds(found)
  {
    var ids := IdsOf(found);
    forall x | x in EntryIds(found)
      ensures x in ids
    {
      var i :| 0 <= i < |found| && found[i].id == x;
      assert ids[i] == x;
    }
  }

  /** Inserting node i among equally distant ones finds the first ones. */
  lemma FindsFirst(g: Graph, dist: seq<real>, m: nat, ef: nat, i: nat, found: seq<Entry>)
    requires g.Valid() && 1 <= i <= g.Size() && i <= m + 1 && g.Neighbours(0) == UpTo(i - 1) && SameUpTo(dist, i)
    requires FoundBy(g, dist, m, Min(ef, i), found)
    ensures Elements(IdsOf(found)) <= Nodes(Min(Width(ef), i))
    ensures i <= m ==> Elements(IdsOf(found)) == Nodes(Min(Width(ef), i))
  {
    hide Graph.Valid, IsBeam, ReachSet, EntryIds, DistinctEntries;
    var order: seq<nat>, beam: seq<Entry> :| IsFrontOf(g, dist, 0, m, Min(ef, i), order, beam, found);
    EqualBeam(g, dist, Min(ef, i), order, beam, i);
    IdsAre(found);
    FrontIds(beam, found, Min(m, |beam|));
    if i <= m {
      WholeBeam(g, dist, m, Min(ef, i), order, beam, found);
    }
  }

  lemma FrontIds(beam: seq<Entry>, front: seq<Entry>, k: nat)
    requires k <= |beam| && front == beam[..k]
    ensures EntryIds(front) <= EntryIds(beam)
  {
  }

  /** One more node in the crowd. */
  lemma CrowdGrows(adj: seq<seq<nat>>, adj': seq<seq<nat>>, i: nat, e: nat, m: nat, ids: seq<nat>)
    requires 1 <= i <= m && e >= 1 && Crowded(adj, i - 1, e) && BuiltUpTo(adj, i, m) && Inserted(adj, adj', i, ids, m)
    requires Elements(ids) == Nodes(Min(e, i))
    ensures Crowded(adj', i, e)
  {
    forall j | 0 <= j <= i
      ensures Elements(adj'[j]) == if j < e then Nodes(i + 1) - {j} else Nodes(e)
    {
      if j < i {
        MemberGrows(adj, adj', i, e, m, ids, j);
      }
    }
  }

  lemma MemberGrows(adj: seq<seq<nat>>, adj': seq<seq<nat>>, i: nat, e: nat, m: nat, ids: seq<nat>, j: nat)
    requires 1 <= i <= m && e >= 1 && Crowded(adj, i - 1, e) && BuiltUpTo(adj, i, m) && Inserted(adj, adj', i, ids, m)
    requires Elements(ids) == Nodes(Min(e, i)) && j < i
    ensures Elements(adj'[j]) == if j < e then Nodes(i + 1) - {j} else Nodes(e)
  {
    hide Inserted, BuiltUpTo, Elements, Crowded, Nodes;
    ListOfMember(adj, adj', i, m, ids, j);
    CrowdAt(adj, i - 1, e, j);
    NodesUpTo(i, e, j);
    if j < e {
      ListLength(adj[j], i, j);
      ElementsConcat(adj[j], [i]);
      OnlyOne(i);
    }
  }

  lemma ListOfMember(adj: seq<seq<nat>>, adj': seq<seq<nat>>, i: nat, m: nat, ids: seq<nat>, j: nat)
    requires Inserted(adj, adj', i, ids, m) && BuiltUpTo(adj, i, m) && j < i
    ensures i < |adj| == |adj'| && NoRepeats(adj[j])
    ensures adj'[j] == if j in Elements(ids) && |adj[j]| < m then adj[j] + [i] else adj[j]
  {
  }

  lemma CrowdAt(adj: seq<seq<nat>>, i: nat, e: nat, j: nat)
    requires Crowded(adj, i, e) && j <= i
    ensures i < |adj| && Elements(adj[j]) == if j < e then Nodes(i + 1) - {j} else Nodes(e)
  {
  }

  lemma NodesUpTo(i: nat, e: nat, j: nat)
    requires j < i
    ensures j in Nodes(Min(e, i)) <==> j < e
    ensures Nodes(i) - {j} + {i} == Nodes(i + 1) - {j}
  {
  }

  lemma ListLength(list: seq<nat>, i: nat, j: nat)
    requires NoRepeats(list) && j < i && Elements(list) == Nodes(i) - {j}
    ensures |list| == i - 1
  {
    ElementCount(list);
    NodesCount(i);
  }

  /** The vectors inserted so far are one point, so the crowd forms. */
  lemma {:induction false} CrowdForms(vecs: seq<seq<real>>, m: nat, ef: nat, states: seq<seq<seq<nat>>>,
                                      found: seq<seq<Entry>>, n: nat, i: nat)
    requires IsHistory(vecs, m, ef, states, found, n) && i < n && i <= m
    requires forall a, b :: 0 <= a <= i && 0 <= b <= i ==> vecs[a] == vecs[b]
    ensures Crowded(states[i], i, Width(ef)) && BuiltUpTo(states[i], i + 1, m)
  {
    hide FoundBy, BuiltUpTo, Inserted, Elements, Crowded, L2sq;
    if i == 0 {
      NothingReachable(|vecs|, m);
      CrowdOfOne(|vecs|, Width(ef));
    } else {
      var adj := states[i - 1];
      CrowdForms(vecs, m, ef, states, found, n, i - 1);
      HubList(vecs, m, ef, states, found, n, i - 1);
      assert IsStep(vecs, m, ef, adj, states[i], i, found[i]);
      FindsFirst(Lists(adj), Distances(vecs[i], vecs), m, ef, i, found[i]);
      CrowdGrows(adj, states[i], i, Width(ef), m, IdsOf(found[i]));
    }
  }

  lemma CrowdOfOne(n: nat, e: nat)
    requires n > 0 && e >= 1
    ensures Crowded(EmptyLists(n), 0, e)
  {
  }

  /** The node after the crowd finds only full lists. */
  lemma LeftOut(vecs: seq<seq<real>>, m: nat, ef: nat, states: seq<seq<seq<nat>>>, found: seq<seq<Entry>>, n: nat)
    requires IsHistory(vecs, m, ef, states, found, n) && m + 1 < n
    requires forall a, b :: 0 <= a <= m && 0 <= b <= m ==> vecs[a] == vecs[b]
    ensures !Joined(states, found, m, m + 1)
  {
    hide FoundBy, Inserted, L2sq;
    var i, adj := m + 1, states[m];
    CrowdForms(vecs, m, ef, states, found, n, m);
    HubList(vecs, m, ef, states, found, n, m);
    assert IsStep(vecs, m, ef, adj, states[i], i, found[i]);
    FindsFirst(Lists(adj), Distances(vecs[i], vecs), m, ef, i, found[i]);
    var ids := IdsOf(found[i]);
    forall v | v in ids && v < |adj|
      ensures |adj[v]| >= m
    {
      assert v in Elements(ids);
      ListLength(adj[v], m + 1, v);
    }
  }

  // ---------- The condition ----------

  /** What a search of an index may answer: the front of some beam of this width. */
  ghost predicate IsAnswered(g: Graph, vecs: seq<seq<real>>, query: seq<real>, k: nat, wide: nat, out: seq<Entry>)
    requires g.Valid()
  {
    exists order, beam :: IsFrontOf(g, Distances(query, vecs), 0, k, wide, order, beam, out)
  }

  ghost predicate Nearest(vecs: seq<seq<real>>, query: seq<real>, k: nat, out: seq<Entry>) {
    AreNearest(Nodes(|vecs|), Distances(query, vecs), k, out)
  }

  /** Every index over any n vectors answers every query with the k nearest of all vectors. */
  ghost predicate AlwaysNearest(n: nat, m: nat, efc: nat, k: nat, wide: nat) {
    forall vecs: seq<seq<real>>, query: seq<real>, g: Graph, out: seq<Entry> ::
      |vecs| == n && g.Valid() && IsBuilt(g, vecs, m, efc) && IsAnswered(g, vecs, query, k, wide, out) ==>
        Nearest(vecs, query, k, out)
  }

  /** No index over these vectors answers this query with the k nearest of all vectors. */
  ghost predicate NeverNearest(vecs: seq<seq<real>>, query: seq<real>, m: nat, efc: nat, k: nat, wide: nat) {
    forall g: Graph, out: seq<Entry> ::
      g.Valid() && IsBuilt(g, vecs, m, efc) && IsAnswered(g, vecs, query, k, wide, out) ==>
        !Nearest(vecs, query, k, out)
  }

  /** The cap lets node 0 list all others, and the search is as wide as the index is large. */
  predicate HasRoom(n: nat, m: nat, k: nat, wide: nat) {
    k == 0 || n <= 1 || (m >= n - 1 && wide >= n)
  }

  lemma RoomIsEnough(vecs: seq<seq<real>>, query: seq<real>, g: Graph, m: nat, efc: nat, k: nat, wide: nat,
                     out: seq<Entry>)
    requires |vecs| >= 1 && HasRoom(|vecs|, m, k, wide) && g.Valid() && IsBuilt(g, vecs, m, efc)
    requires IsAnswered(g, vecs, query, k, wide, out)
    ensures Nearest(vecs, query, k, out)
  {
    hide ReachSet, Graph.Valid, IsBeam, AreNearest;
    var order, beam :| IsFrontOf(g, Distances(query, vecs), 0, k, wide, order, beam, out);
    var states, found :| IsHistory(vecs, m, efc, states, found, |vecs|) && HasLists(g, states[|vecs| - 1]);
    FrontIsAnswer(g, Distances(query, vecs), 0, k, wide, order, beam, out);
    if k == 0 {
      NoneAreNearest(Nodes(|vecs|), Distances(query, vecs), out);
    } else {
      AllReachable(g, vecs, m, efc);
      NodesCount(|vecs|);
    }
  }

  lemma NoneAreNearest(nodes: set<nat>, dist: seq<real>, out: seq<Entry>)
    requires |out| == 0
    ensures AreNearest(nodes, dist, 0, out)
  {
  }

  /** Distances to the odd one out from its own place. */
  lemma OddIsNearest(n: nat, z: nat)
    requires z < n
    ensures StrictlyNearest(Distances([0.0], OddOneOut(n, z)), Nodes(n), z)
  {
    var dist := Distances([0.0], OddOneOut(n, z));
    forall v | 0 <= v < n
      ensures dist[v] == if v == z then 0.0 else 1.0
    {
      OnALine(if v == z then 0.0 else 1.0);
    }
  }

  /** An answer without the odd one out is wrong. */
  lemma OddIsMissed(g: Graph, n: nat, z: nat, k: nat, wide: nat, order: seq<nat>, beam: seq<Entry>, out: seq<Entry>)
    requires z < n && g.Valid() && g.Size() == n && k >= 1
    requires IsFrontOf(g, Distances([0.0], OddOneOut(n, z)), 0, k, wide, order, beam, out) && z !in EntryIds(beam)
    ensures out != [] && z !in EntryIds(out) && !Nearest(OddOneOut(n, z), [0.0], k, out)
  {
    hide ReachSet, Graph.Valid, IsBeam, AreNearest, L2sq, StrictlyNearest;
    var dist := Distances([0.0], OddOneOut(n, z));
    FrontIsAnswer(g, dist, 0, k, wide, order, beam, out);
    BeamHolds(g, dist, 0, wide, order, beam);
    FrontIds(beam, out, Min(k, |beam|));
    ReachBelowSize(g);
    OddIsNearest(n, z);
    assert Nodes(n) == ReachSet(g, 0) + (Nodes(n) - ReachSet(g, 0));
    Widen(out, ReachSet(g, 0), Nodes(n) - ReachSet(g, 0), dist);
    CaughtIsWrong(Nodes(n), dist, k, z, out);
  }

  /** A cap below n - 1: the odd one out comes right after the crowd and is never reachable. */
  lemma CapMisses(g: Graph, n: nat, m: nat, efc: nat, k: nat, wide: nat, order: seq<nat>, beam: seq<Entry>,
                  out: seq<Entry>)
    requires m + 1 < n && g.Valid() && IsBuilt(g, OddOneOut(n, m + 1), m, efc)
    requires IsFrontOf(g, Distances([0.0], OddOneOut(n, m + 1)), 0, k, wide, order, beam, out)
    ensures g.Size() == n && m + 1 !in EntryIds(beam)
  {
    hide ReachSet, Graph.Valid, IsBeam, L2sq, EntryIds, IsBuilt;
    var vecs := OddOneOut(n, m + 1);
    OutOfReach(g, vecs, m, efc);
    BeamHolds(g, Distances([0.0], vecs), 0, wide, order, beam);
  }

  /** After m + 1 equal vectors the next is out of reach for good. */
  lemma OutOfReach(g: Graph, vecs: seq<seq<real>>, m: nat, efc: nat)
    requires IsBuilt(g, vecs, m, efc) && m + 1 < |vecs|
    requires forall a, b :: 0 <= a <= m && 0 <= b <= m ==> vecs[a] == vecs[b]
    ensures g.Valid() && g.Size() == |vecs| && m + 1 !in ReachSet(g, 0)
  {
    hide ReachSet, Graph.Valid, IsStep, Joined, JoinedUpTo;
    var n := |vecs|;
    var states, found :| IsHistory(vecs, m, efc, states, found, n) && HasLists(g, states[n - 1]);
    LeftOut(vecs, m, efc, states, found, n);
    ReachableIsJoined(vecs, m, efc, states, found, n, n - 1);
    SameReach(g, Lists(states[n - 1]));
    NotJoined(states, found, m, n - 1);
  }

  lemma NotJoined(states: seq<seq<seq<nat>>>, found: seq<seq<Entry>>, m: nat, k: nat)
    requires m + 1 <= k < |states| == |found| && !Joined(states, found, m, m + 1)
    ensures m + 1 !in JoinedUpTo(states, found, m, k)
  {
  }

  lemma ReachWithin(g: Graph, g': Graph)
    requires g.Valid() && g'.Valid() && g.Size() == g'.Size() > 0
    requires forall i: nat :: i < g.Size() ==> g.Neighbours(i) == g'.Neighbours(i)
    ensures ReachSet(g, 0) <= ReachSet(g', 0)
  {
    hide Reaches;
    ReachSelf(g', 0);
    forall v, w | v in ReachSet(g', 0) && v < g.Size() && w in g.Neighbours(v)
      ensures w in ReachSet(g', 0)
    {
      ReachStep(g', 0, v, w);
    }
    ClosedHoldsReachable(g, ReachSet(g', 0), 0);
  }

  /** Reachability depends on the lists only. */
  lemma SameReach(g: Graph, g': Graph)
    requires g.Valid() && g'.Valid() && g.Size() == g'.Size() > 0
    requires forall i: nat :: i < g.Size() ==> g.Neighbours(i) == g'.Neighbours(i)
    ensures ReachSet(g, 0) == ReachSet(g', 0)
  {
    ReachWithin(g, g');
    ReachWithin(g', g);
  }

  /** Every vector reachable but the search narrower than the index: the odd one out comes last and too late. */
  lemma WidthMisses(g: Graph, n: nat, m: nat, efc: nat, k: nat, wide: nat, order: seq<nat>, beam: seq<Entry>,
                    out: seq<Entry>)
    requires n >= 2 && m + 1 >= n && Width(wide) < n && g.Valid() && IsBuilt(g, OddOneOut(n, n - 1), m, efc)
    requires IsFrontOf(g, Distances([0.0], OddOneOut(n, n - 1)), 0, k, wide, order, beam, out)
    ensures g.Size() == n && n - 1 !in EntryIds(beam)
  {
    hide ReachSet, Graph.Valid, L2sq, EntryIds, Met, BestFirst, LateFarRefused, StrictlyNearest;
    var vecs := OddOneOut(n, n - 1);
    var dist := Distances([0.0], vecs);
    AllReachable(g, vecs, m, efc);
    HubBeam(g, dist, wide, order, beam, n);
    OddIsNearest(n, n - 1);
    var met := Met(g, 0, order);
    if Width(wide) > 1 {
      CountElements(n);
      assert met[n - 1] == n - 1;
    }
  }

  lemma CountElements(n: nat)
    ensures Elements(Count(n)) == Nodes(n)
  {
    forall v | v in Nodes(n)
      ensures v in Count(n)
    {
      assert Count(n)[v] == v;
    }
  }

  /** Where the odd one out goes. */
  function TrapPlace(n: nat, m: nat): nat
    requires n >= 1
  {
    if m + 1 < n then m + 1 else n - 1
  }

  lemma TrapMisses(g: Graph, n: nat, m: nat, efc: nat, k: nat, wide: nat, order: seq<nat>, beam: seq<Entry>,
                   out: seq<Entry>)
    requires !HasRoom(n, m, k, wide) && g.Valid() && IsBuilt(g, OddOneOut(n, TrapPlace(n, m)), m, efc)
    requires IsFrontOf(g, Distances([0.0], OddOneOut(n, TrapPlace(n, m))), 0, k, wide, order, beam, out)
    ensures out != [] && TrapPlace(n, m) !in EntryIds(out) && !Nearest(OddOneOut(n, TrapPlace(n, m)), [0.0], k, out)
  {
    hide ReachSet, Graph.Valid, IsBeam, L2sq, EntryIds, IsBuilt, IsFrontOf, AreNearest;
    if m + 1 < n {
      CapMisses(g, n, m, efc, k, wide, order, beam, out);
    } else {
      WidthMisses(g, n, m, efc, k, wide, order, beam, out);
    }
    OddIsMissed(g, n, TrapPlace(n, m), k, wide, order, beam, out);
  }

  /**
   An index over n vectors with cap m, searched with beams of this width, answers with
   the k nearest of all its vectors, whatever these and the query are, exactly when
   m is at least n - 1 and the width at least n (or k is zero, or n is one). Otherwise
   there are vectors and a query on which no answer is right.
   */
  lemma ExactExactlyWhenWide(n: nat, m: nat, efc: nat, k: nat, wide: nat)
    requires n >= 1
    ensures HasRoom(n, m, k, wide) ==> AlwaysNearest(n, m, efc, k, wide)
    ensures !HasRoom(n, m, k, wide) ==> NeverNearest(OddOneOut(n, TrapPlace(n, m)), [0.0], m, efc, k, wide)
  {
    hide ReachSet, Graph.Valid, IsBeam, AreNearest, IsBuilt, Nearest, L2sq;
    if HasRoom(n, m, k, wide) {
      forall vecs: seq<seq<real>>, query: seq<real>, g: Graph, out: seq<Entry>
        | |vecs| == n && g.Valid() && IsBuilt(g, vecs, m, efc) && IsAnswered(g, vecs, query, k, wide, out)
        ensures Nearest(vecs, query, k, out)
      {
        RoomIsEnough(vecs, query, g, m, efc, k, wide, out);
      }
    } else {
      var vecs := OddOneOut(n, TrapPlace(n, m));
      forall g: Graph, out: seq<Entry>
        | g.Valid() && IsBuilt(g, vecs, m, efc) && IsAnswered(g, vecs, [0.0], k, wide, out)
        ensures !Nearest(vecs, [0.0], k, out)
      {
        var order, beam :| IsFrontOf(g, Distances([0.0], vecs), 0, k, wide, order, beam, out);
        TrapMisses(g, n, m, efc, k, wide, order, beam, out);
      }
    }
  }

  /**
   The vectors and the query of such a trap, built and searched: the nearest vector is
   missed, all hits lie further away.
   */
  method FoilIndex(n: nat, m: nat, efc: nat, k: nat, ef: nat) returns (vecs: seq<seq<real>>, hits: seq<(nat, real)>)
    requires !HasRoom(n, m, k, if ef >= k then ef else k)
    ensures vecs == OddOneOut(n, TrapPlace(n, m))
    ensures 0 < |hits| <= k && forall i :: 0 <= i < |hits| ==> hits[i].0 < n && hits[i].0 != TrapPlace(n, m)
    ensures L2sq([0.0], vecs[TrapPlace(n, m)]) == 0.0 && forall i :: 0 <= i < |hits| ==> hits[i].1 == 1.0
  {
    hide ReachSet, Graph.Valid, IsBeam, AreNearest, IsHistory, IsFrontOf, L2sq, EntryIds;
    vecs := OddOneOut(n, TrapPlace(n, m));
    var built, states, found := Build(vecs, m, efc);
    var index := built.index;
    BuiltByHistory(index.graph, vecs, m, efc, states, found);
    var result, out, order, beam := SearchBeam(index, [0.0], k, ef, vecs, m, efc);
    hits := result.hits;
    var wide := if ef >= k then ef else k;
    TrapMisses(index.graph, n, m, efc, k, wide, order, beam, out);
    FarHits(index.graph, n, TrapPlace(n, m), k, out);
  }

  lemma BuiltByHistory(g: Graph, vecs: seq<seq<real>>, m: nat, efc: nat, states: seq<seq<seq<nat>>>,
                       found: seq<seq<Entry>>)
    requires vecs != [] && g.Valid() && g.Size() == |vecs| && IsHistory(vecs, m, efc, states, found, |vecs|)
    requires forall i: nat :: i < |vecs| ==> g.Neighbours(i) == states[|vecs| - 1][i]
    ensures IsBuilt(g, vecs, m, efc)
  {
    hide Graph.Valid, IsStep;
    assert HasLists(g, states[|vecs| - 1]);
  }

  lemma FarHits(g: Graph, n: nat, z: nat, k: nat, out: seq<Entry>)
    requires z < n && g.Valid() && g.Size() == n && z !in EntryIds(out)
    requires IsAnswer(g, Distances([0.0], OddOneOut(n, z)), 0, k, out)
    ensures L2sq([0.0], OddOneOut(n, z)[z]) == 0.0
    ensures forall i :: 0 <= i < |out| ==> out[i].id < n && out[i].id != z && out[i].dist == 1.0
  {
    hide ReachSet, Graph.Valid, L2sq;
    OnALine(0.0);
    OnALine(1.0);
    forall i | 0 <= i < |out|
      ensures out[i].id < n && out[i].id != z && out[i].dist == 1.0
    {
      assert out[i].id in EntryIds(out);
      assert OddOneOut(n, z)[out[i].id] == [1.0];
    }
  }

  /**
   Two vectors with the query on the second: an index over them, searched with a beam of
   one, answers with the first.
   */
  method NarrowBeamMisses(m: nat, efc: nat) returns (vecs: seq<seq<real>>, hits: seq<(nat, real)>)
    requires m >= 1
    ensures vecs == [[1.0], [0.0]] && hits == [(0, 1.0)] && L2sq([0.0], vecs[1]) == 0.0
  {
    vecs, hits := FoilIndex(2, m, efc, 1, 1);
    assert TrapPlace(2, m) == 1;
    assert vecs[0] == [1.0] && vecs[1] == [0.0];
    assert hits[0] == (0, 1.0);
  }
}
