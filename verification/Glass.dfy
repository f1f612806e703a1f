/** The Glass index: greedy insertion into capped adjacency lists, compaction into rows, and queries. */
module Glass {
  import opened Prelude
  import opened Sorting
  import opened Reachability
  import opened Beams
  import opened BeamSearch

  datatype Index = Index(vecs: seq<seq<real>>, ids: seq<nat>, graph: Graph, dim: nat, m: nat, efConstruction: nat,
                         entry: nat)

  datatype BuildResult = Built(index: Index) | DimMismatch(expected: nat, actual: nat)
  datatype SearchResult = Found(hits: seq<(nat, real)>) | QueryMismatch(expected: nat, actual: nat)

  // ---------- Adjacency while inserting ----------

  /** After nodes below i were inserted: capped lists of earlier nodes, no self-loops, no repeats, nothing from i on. */
  ghost predicate BuiltUpTo(adj: seq<seq<nat>>, i: nat, m: nat) {
    && i <= |adj|
    && (forall j :: 0 <= j < |adj| ==> |adj[j]| <= m && NoRepeats(adj[j]))
    && (forall j, v :: 0 <= j < |adj| && v in adj[j] ==> j < i && v < i && v != j)
  }

  ghost predicate ListsOk(adj: seq<seq<nat>>, m: nat) {
    forall j :: 0 <= j < |adj| ==> |adj[j]| <= m && NoRepeats(adj[j]) && forall v :: v in adj[j] ==> v < |adj| && v != j
  }

  lemma BuiltIsValid(adj: seq<seq<nat>>, i: nat, m: nat)
    requires BuiltUpTo(adj, i, m)
    ensures Lists(adj).Valid() && ListsOk(adj, m)
  {
    forall j, v | 0 <= j < |adj| && v in adj[j]
      ensures v < |adj| && v != j
    {
      assert v < i;
    }
  }

  /** Only inserted nodes can be reached from node 0. */
  lemma OnlyEarlierReachable(adj: seq<seq<nat>>, i: nat, m: nat)
    requires BuiltUpTo(adj, i, m) && 1 <= i
    ensures Lists(adj).Valid()
    ensures forall v :: v in ReachSet(Lists(adj), 0) ==> v < i
  {
    hide ReachSet;
    BuiltIsValid(adj, i, m);
    ClosedHoldsReachable(Lists(adj), Nodes(i), 0);
  }

  function IdsOf(cands: seq<Entry>): (ids: seq<nat>)
    ensures |ids| == |cands| && forall c :: 0 <= c < |cands| ==> ids[c] == cands[c].id
  {
    seq(|cands|, c requires 0 <= c < |cands| => cands[c].id)
  }

  /** Inserting node i with its found neighbours: it lists them all, and each that has room lists it back. */
  ghost predicate Inserted(adj: seq<seq<nat>>, adj': seq<seq<nat>>, i: nat, ids: seq<nat>, m: nat) {
    && |adj'| == |adj|
    && i < |adj| && adj'[i] == ids
    && forall j :: 0 <= j < |adj| && j != i ==> adj'[j] == if j in ids && |adj[j]| < m then adj[j] + [i] else adj[j]
  }

  lemma InsertKeeps(adj: seq<seq<nat>>, adj': seq<seq<nat>>, i: nat, ids: seq<nat>, m: nat)
    requires BuiltUpTo(adj, i, m) && Inserted(adj, adj', i, ids, m)
    requires |ids| <= m && NoRepeats(ids) && forall v :: v in ids ==> v < i
    ensures BuiltUpTo(adj', i + 1, m)
  {
    forall j | 0 <= j < |adj'|
      ensures |adj'[j]| <= m && NoRepeats(adj'[j])
      ensures forall v :: v in adj'[j] ==> j < i + 1 && v < i + 1 && v != j
    {
      if j != i {
        assert i !in adj[j];
      }
    }
  }

  lemma NoElements(s: seq<nat>)
    ensures s == [] || s[0] in s
  {
  }

  lemma NothingAhead(adj: seq<seq<nat>>, i: nat, m: nat)
    requires BuiltUpTo(adj, i, m) && i < |adj|
    ensures adj[i] == []
  {
    NoElements(adj[i]);
  }

  /** The insertion loop over the found neighbours. */
  method Insert(adj: seq<seq<nat>>, i: nat, cands: seq<Entry>, m: nat) returns (adj': seq<seq<nat>>)
    requires BuiltUpTo(adj, i, m) && i < |adj|
    requires |cands| <= m && DistinctEntries(cands) && forall c :: 0 <= c < |cands| ==> cands[c].id < i
    ensures Inserted(adj, adj', i, IdsOf(cands), m)
  {
    adj' := adj;
    ghost var ids := IdsOf(cands);
    NothingAhead(adj, i, m);
    for c := 0 to |cands|
      invariant |adj'| == |adj| && adj'[i] == ids[..c]
      invariant forall j :: 0 <= j < |adj| && j != i ==>
        adj'[j] == if j in ids[..c] && |adj[j]| < m then adj[j] + [i] else adj[j]
    {
      var nb := cands[c].id;
      assert ids[..c + 1] == ids[..c] + [nb];
      assert nb !in ids[..c];
      if |adj'[i]| < m {
        adj' := adj'[i := adj'[i] + [nb]];
      }
      if |adj'[nb]| < m {
        adj' := adj'[nb := adj'[nb] + [i]];
      }
    }
    assert ids[..|cands|] == ids;
  }

  // ---------- What insertion does to reachability ----------

  ghost predicate AnyRoom(adj: seq<seq<nat>>, ids: seq<nat>, m: nat) {
    exists v :: v in ids && v < |adj| && |adj[v]| < m
  }

  /** Insertion adds edges and removes none. */
  lemma ReachableStays(adj: seq<seq<nat>>, adj': seq<seq<nat>>, i: nat, ids: seq<nat>, m: nat)
    requires BuiltUpTo(adj, i, m) && BuiltUpTo(adj', i + 1, m) && 1 <= i && Inserted(adj, adj', i, ids, m)
    ensures Lists(adj).Valid() && Lists(adj').Valid()
    ensures ReachSet(Lists(adj), 0) <= ReachSet(Lists(adj'), 0)
  {
    hide Reaches, IsPath;
    BuiltIsValid(adj, i, m);
    BuiltIsValid(adj', i + 1, m);
    var s := ReachSet(Lists(adj'), 0);
    ReachSelf(Lists(adj'), 0);
    forall v, w | v in s && v < |adj| && w in Lists(adj).Neighbours(v)
      ensures w in s
    {
      assert w in adj[v] && v < i;
      assert w in Lists(adj').Neighbours(v);
      ReachStep(Lists(adj'), 0, v, w);
    }
    ClosedHoldsReachable(Lists(adj), s, 0);
  }

  /** Nothing but the new node can become reachable, and only through a neighbour with room. */
  lemma NothingElseReachable(adj: seq<seq<nat>>, adj': seq<seq<nat>>, i: nat, ids: seq<nat>, m: nat, s: set<nat>)
    requires BuiltUpTo(adj, i, m) && BuiltUpTo(adj', i + 1, m) && 1 <= i && Inserted(adj, adj', i, ids, m)
    requires Lists(adj).Valid() && Lists(adj').Valid()
    requires forall v :: v in ids ==> v in ReachSet(Lists(adj), 0)
    requires s == ReachSet(Lists(adj), 0) + if AnyRoom(adj, ids, m) then {i} else {}
    ensures ReachSet(Lists(adj'), 0) <= s
  {
    hide Reaches, IsPath;
    ReachSelf(Lists(adj), 0);
    OnlyEarlierReachable(adj, i, m);
    forall v, w | v in s && v < |adj'| && w in Lists(adj').Neighbours(v)
      ensures w in s
    {
      if v != i {
        if w in adj[v] {
          ReachStep(Lists(adj), 0, v, w);
        } else {
          assert v in ids && |adj[v]| < m && w == i;
        }
      }
    }
    ClosedHoldsReachable(Lists(adj'), s, 0);
  }

  /** Inserting node i makes it reachable exactly when a found neighbour has room to list it back. */
  lemma InsertedReachable(adj: seq<seq<nat>>, adj': seq<seq<nat>>, i: nat, ids: seq<nat>, m: nat)
    requires BuiltUpTo(adj, i, m) && BuiltUpTo(adj', i + 1, m) && 1 <= i && Inserted(adj, adj', i, ids, m)
    requires Lists(adj).Valid() && forall v :: v in ids ==> v in ReachSet(Lists(adj), 0)
    ensures Lists(adj').Valid()
    ensures ReachSet(Lists(adj'), 0) == ReachSet(Lists(adj), 0) + if AnyRoom(adj, ids, m) then {i} else {}
  {
    hide Reaches, IsPath, ReachSet;
    ReachableStays(adj, adj', i, ids, m);
    NothingElseReachable(adj, adj', i, ids, m, ReachSet(Lists(adj), 0) + if AnyRoom(adj, ids, m) then {i} else {});
    if AnyRoom(adj, ids, m) {
      OnlyEarlierReachable(adj, i, m);
      var v :| v in ids && v < |adj| && |adj[v]| < m;
      assert adj'[v] == adj[v] + [i];
      assert i in Lists(adj').Neighbours(v);
      ReachStep(Lists(adj'), 0, v, i);
    }
  }

  /** Node i searched the nodes before it and was inserted with what it found. */
  ghost predicate IsStep(vecs: seq<seq<real>>, m: nat, ef: nat, adj: seq<seq<nat>>, adj': seq<seq<nat>>, i: nat,
                         found: seq<Entry>)
    requires i < |vecs|
  {
    && |adj| == |vecs| && 1 <= i && BuiltUpTo(adj, i, m) && BuiltUpTo(adj', i + 1, m) && Lists(adj).Valid()
    && FoundBy(Lists(adj), Distances(vecs[i], vecs), m, Min(ef, i), found)
    && Inserted(adj, adj', i, IdsOf(found), m)
  }

  /** A search from node 0 with this beam may find `found`. */
  ghost predicate FoundBy(g: Graph, dist: seq<real>, k: nat, ef: nat, found: seq<Entry>)
    requires g.Valid()
  {
    exists order, beam :: IsFrontOf(g, dist, 0, k, ef, order, beam, found)
  }

  function EmptyLists(n: nat): seq<seq<nat>> {
    seq(n, _ => [])
  }

  /** The adjacency lists after each insertion, from empty lists on, with what each node found. */
  ghost predicate IsHistory(vecs: seq<seq<real>>, m: nat, ef: nat, states: seq<seq<seq<nat>>>,
                            found: seq<seq<Entry>>, n: nat) {
    && 1 <= n <= |vecs| && |states| == |found| == n
    && states[0] == EmptyLists(|vecs|) && (forall i :: 0 <= i < n ==> |states[i]| == |vecs|)
    && forall i :: 1 <= i < n ==> IsStep(vecs, m, ef, states[i - 1], states[i], i, found[i])
  }

  ghost predicate Joined(states: seq<seq<seq<nat>>>, found: seq<seq<Entry>>, m: nat, i: nat)
    requires 1 <= i < |states| && |found| == |states|
  {
    AnyRoom(states[i - 1], IdsOf(found[i]), m)
  }

  ghost function JoinedUpTo(states: seq<seq<seq<nat>>>, found: seq<seq<Entry>>, m: nat, k: nat): set<nat>
    requires k < |states| && |found| == |states|
  {
    {0} + set i: nat | 1 <= i <= k && Joined(states, found, m, i)
  }

  lemma NothingReachable(n: nat, m: nat)
    requires n > 0
    ensures var adj := EmptyLists(n);
      BuiltUpTo(adj, 1, m) && Lists(adj).Valid() && ReachSet(Lists(adj), 0) == {0}
  {
    var adj := EmptyLists(n);
    assert BuiltUpTo(adj, 1, m);
    BuiltIsValid(adj, 1, m);
    ReachSelf(Lists(adj), 0);
    OnlyEarlierReachable(adj, 1, m);
  }

  lemma FoundIsReachable(g: Graph, dist: seq<real>, k: nat, ef: nat, found: seq<Entry>)
    requires g.Valid() && g.Size() > 0 && FoundBy(g, dist, k, ef, found)
    ensures forall v :: v in IdsOf(found) ==> v in ReachSet(g, 0)
  {
    hide ReachSet, AreNearest, IsBeam;
    var order, beam :| IsFrontOf(g, dist, 0, k, ef, order, beam, found);
    FrontIsAnswer(g, dist, 0, k, ef, order, beam, found);
  }

  /**
   At every stage of a build, hence in the finished index, the nodes a search can
   reach are node 0 and those that found a neighbour with room when they were
   inserted. A node that found only full lists stays out of reach for good.
   */
  lemma {:induction false} ReachableIsJoined(vecs: seq<seq<real>>, m: nat, ef: nat, states: seq<seq<seq<nat>>>,
                                             found: seq<seq<Entry>>, n: nat, k: nat)
    requires IsHistory(vecs, m, ef, states, found, n) && k < n
    ensures Lists(states[k]).Valid() && ReachSet(Lists(states[k]), 0) == JoinedUpTo(states, found, m, k)
  {
    hide ReachSet, FoundBy, BuiltUpTo, Inserted, Joined;
    if k == 0 {
      NothingReachable(|vecs|, m);
      assert JoinedUpTo(states, found, m, 0) == {0};
    } else {
      ReachableIsJoined(vecs, m, ef, states, found, n, k - 1);
      var adj, adj', ids := states[k - 1], states[k], IdsOf(found[k]);
      assert IsStep(vecs, m, ef, adj, adj', k, found[k]);
      FoundIsReachable(Lists(adj), Distances(vecs[k], vecs), m, Min(ef, k), found[k]);
      InsertedReachable(adj, adj', k, ids, m);
      JoinedMore(states, found, m, k);
    }
  }

  lemma JoinedMore(states: seq<seq<seq<nat>>>, found: seq<seq<Entry>>, m: nat, k: nat)
    requires 1 <= k < |states| && |found| == |states|
    ensures JoinedUpTo(states, found, m, k) ==
      JoinedUpTo(states, found, m, k - 1) + if AnyRoom(states[k - 1], IdsOf(found[k]), m) then {k} else {}
  {
  }

  // ---------- Compaction ----------

  /** The rows hold the lists: offsets add up and each slice is its list. */
  ghost predicate Holds(adj: seq<seq<nat>>, k: nat, offsets: seq<nat>, flat: seq<nat>)
    requires k <= |adj|
  {
    && k < |offsets| && offsets[k] == |flat|
    && (forall i, j :: 0 <= i <= j <= k ==> offsets[i] <= offsets[j])
    && (forall i :: 0 <= i < k ==> offsets[i] + |adj[i]| == offsets[i + 1])
    && (forall i :: 0 <= i < k ==> offsets[i] + |adj[i]| <= |flat| && flat[offsets[i]..offsets[i] + |adj[i]|] == adj[i])
  }

  lemma HoldsStep(adj: seq<seq<nat>>, k: nat, offsets: seq<nat>, flat: seq<nat>)
    requires k < |adj| && Holds(adj, k, offsets, flat) && |offsets| == |adj| + 1
    ensures Holds(adj, k + 1, offsets[k + 1 := |flat| + |adj[k]|], flat + adj[k])
  {
    var offsets' := offsets[k + 1 := |flat| + |adj[k]|];
    var flat' := flat + adj[k];
    forall i | 0 <= i < k + 1
      ensures offsets'[i] + |adj[i]| <= |flat'| && flat'[offsets'[i]..offsets'[i] + |adj[i]|] == adj[i]
    {
      if i < k {
        assert flat'[offsets[i]..offsets[i] + |adj[i]|] == flat[offsets[i]..offsets[i] + |adj[i]|];
      }
    }
  }

  /** Lists into rows: `neighbours(i)` of the result is the list built for i. */
  method Compact(adj: seq<seq<nat>>) returns (g: Graph)
    ensures g.Csr? && g.Size() == |adj| && g.InBounds()
    ensures forall i: nat :: i < |adj| ==> g.Neighbours(i) == adj[i]
  {
    var offsets: seq<nat> := seq(|adj| + 1, _ => 0);
    var flat: seq<nat> := [];
    var off: nat := 0;
    for i := 0 to |adj|
      invariant |offsets| == |adj| + 1 && off == |flat|
      invariant Holds(adj, i, offsets[i := off], flat)
    {
      offsets := offsets[i := off];
      HoldsStep(adj, i, offsets, flat);
      flat := flat + adj[i];
      off := off + |adj[i]|;
    }
    offsets := offsets[|adj| := off];
    g := Csr(offsets, flat);
  }

  /** The rows of well-formed lists are a well-formed graph with the same neighbours. */
  lemma CompactIsValid(adj: seq<seq<nat>>, g: Graph, m: nat)
    requires g.Csr? && g.Size() == |adj| && g.InBounds()
    requires forall i: nat :: i < |adj| ==> g.Neighbours(i) == adj[i]
    requires ListsOk(adj, m)
    ensures g.Valid()
  {
  }

  // ---------- Build and query ----------

  /** An index over `vecs`: rows of some well-formed capped lists, with entry node 0. */
  ghost predicate IsIndexOf(index: Index, vecs: seq<seq<real>>, m: nat, ef: nat) {
    && index.vecs == vecs && index.m == m && index.efConstruction == ef && index.entry == 0
    && index.ids == seq(|vecs|, i => i) && (vecs != [] ==> index.dim == |vecs[0]|)
    && (forall v :: v in vecs ==> |v| == index.dim)
    && index.graph.Size() == |vecs| && index.graph.Valid()
    && forall i: nat :: i < |vecs| ==> |index.graph.Neighbours(i)| <= m && i !in index.graph.Neighbours(i)
  }

  /** Greedy insertion of every vector, then compaction; the first vector of another length is an error. */
  method Build(vecs: seq<seq<real>>, m: nat, ef: nat)
    returns (result: BuildResult, ghost states: seq<seq<seq<nat>>>, ghost found: seq<seq<Entry>>)
    ensures result.DimMismatch? <==> exists i :: 0 <= i < |vecs| && |vecs[i]| != |vecs[0]|
    ensures result.DimMismatch? ==>
      && result.expected == |vecs[0]|
      && exists i :: 0 <= i < |vecs| && |vecs[i]| == result.actual != result.expected
           && forall j :: 0 <= j < i ==> |vecs[j]| == result.expected
    ensures result.Built? ==> IsIndexOf(result.index, vecs, m, ef)
    ensures result.Built? && vecs != [] ==>
      && IsHistory(vecs, m, ef, states, found, |vecs|)
      && forall i: nat :: i < |vecs| ==> result.index.graph.Neighbours(i) == states[|vecs| - 1][i]
  {
    states, found := [], [];
    if vecs == [] {
      return Built(Index([], [], Csr([0], []), 0, m, ef, 0)), states, found;
    }
    var dim := |vecs[0]|;
    for i := 0 to |vecs|
      invariant forall j :: 0 <= j < i ==> |vecs[j]| == dim
    {
      if |vecs[i]| != dim {
        return DimMismatch(dim, |vecs[i]|), states, found;
      }
    }
    var adj;
    adj, states, found := InsertAll(vecs, m, ef);
    hide IsHistory;
    BuiltIsValid(adj, |vecs|, m);
    var graph := Compact(adj);
    CompactIsValid(adj, graph, m);
    result := Built(Index(vecs, seq(|vecs|, i => i), graph, dim, m, ef, 0));
  }

  /** The insertion loop: each node searches the nodes before it. */
  method InsertAll(vecs: seq<seq<real>>, m: nat, ef: nat)
    returns (adj: seq<seq<nat>>, ghost states: seq<seq<seq<nat>>>, ghost found: seq<seq<Entry>>)
    requires vecs != []
    ensures |adj| == |vecs| && BuiltUpTo(adj, |vecs|, m)
    ensures IsHistory(vecs, m, ef, states, found, |vecs|) && adj == states[|vecs| - 1]
  {
    hide ReachSet, IsAnswer, L2sq, AreNearest, IsBeam;
    adj := EmptyLists(|vecs|);
    states, found := [adj], [[]];
    for i := 1 to |vecs|
      invariant |adj| == |vecs| && BuiltUpTo(adj, i, m)
      invariant IsHistory(vecs, m, ef, states, found, i) && adj == states[i - 1]
    {
      OnlyEarlierReachable(adj, i, m);
      var cands, order, beam := Search(Lists(adj), vecs, vecs[i], 0, m, Min(ef, i));
      CandidatesEarlier(adj, i, m, Distances(vecs[i], vecs), cands);
      ghost var was := adj;
      adj := Insert(adj, i, cands, m);
      InsertKeeps(was, adj, i, IdsOf(cands), m);
      assert FoundBy(Lists(was), Distances(vecs[i], vecs), m, Min(ef, i), cands);
      HistoryGrows(vecs, m, ef, states, found, i, adj, cands);
      states, found := states + [adj], found + [cands];
    }
  }

  lemma HistoryGrows(vecs: seq<seq<real>>, m: nat, ef: nat, states: seq<seq<seq<nat>>>, found: seq<seq<Entry>>,
                     n: nat, adj: seq<seq<nat>>, cands: seq<Entry>)
    requires IsHistory(vecs, m, ef, states, found, n) && n < |vecs| && |adj| == |vecs| &&
      IsStep(vecs, m, ef, states[n - 1], adj, n, cands)
    ensures IsHistory(vecs, m, ef, states + [adj], found + [cands], n + 1)
  {
    hide IsStep;
  }

  lemma CandidatesEarlier(adj: seq<seq<nat>>, i: nat, m: nat, dist: seq<real>, cands: seq<Entry>)
    requires BuiltUpTo(adj, i, m) && 1 <= i && Lists(adj).Valid() && IsAnswer(Lists(adj), dist, 0, m, cands)
    ensures |cands| <= m && DistinctEntries(cands) && forall c :: 0 <= c < |cands| ==> cands[c].id < i
    ensures NoRepeats(IdsOf(cands)) && forall v :: v in IdsOf(cands) ==> v < i
  {
    hide ReachSet;
    OnlyEarlierReachable(adj, i, m);
  }

  /** A query against a built index. The buffer of vectors is empty when there are none or they have no components. */
  method SearchBeam(index: Index, query: seq<real>, k: nat, ef: nat, ghost vecs: seq<seq<real>>, ghost m: nat,
                    ghost efc: nat)
    returns (result: SearchResult, ghost out: seq<Entry>, ghost order: seq<nat>, ghost beam: seq<Entry>)
    requires IsIndexOf(index, vecs, m, efc)
    ensures result.QueryMismatch? <==> vecs != [] && index.dim != 0 && |query| != index.dim
    ensures result.QueryMismatch? ==> result == SearchResult.QueryMismatch(index.dim, |query|)
    ensures vecs == [] || index.dim == 0 ==> result == Found([])
    ensures result.Found? && vecs != [] && index.dim != 0 ==>
      var dist, wide := Distances(query, vecs), if ef >= k then ef else k;
      && IsFrontOf(index.graph, dist, 0, k, wide, order, beam, out) && IsAnswer(index.graph, dist, 0, k, out)
      && |result.hits| == |out| == Min(k, |ReachSet(index.graph, 0)|)
      && (forall i :: 0 <= i < |out| ==> result.hits[i] == (out[i].id, out[i].dist))
      && (wide >= |ReachSet(index.graph, 0)| ==> AreNearest(ReachSet(index.graph, 0), dist, k, out))
      && (forall i :: 0 <= i < |result.hits| ==> IsTrueHit(vecs, query, result.hits[i]))
  {
    hide ReachSet, IsAnswer, AreNearest, L2sq, IsFrontOf, IsTrueHit;
    out, order, beam := [], [], [];
    if index.vecs == [] || index.dim == 0 {
      return Found([]), out, order, beam;
    }
    if |query| != index.dim {
      return QueryMismatch(index.dim, |query|), out, order, beam;
    }
    var wide := if ef >= k then ef else k;
    var front;
    front, order, beam := Search(index.graph, index.vecs, query, index.entry, k, wide);
    out := front;
    AnswerInRange(index.graph, Distances(query, vecs), k, out);
    result := Found(seq(|front|, i requires 0 <= i < |front| && front[i].id < |index.ids| =>
      (index.ids[front[i].id], front[i].dist)));
    forall i | 0 <= i < |result.hits|
      ensures IsTrueHit(vecs, query, result.hits[i])
    {
      TrueHit(index, vecs, query, k, out, i);
    }
  }

  /** The hit names a vector at the sum of its squared coordinate differences from the query. */
  ghost predicate IsTrueHit(vecs: seq<seq<real>>, query: seq<real>, hit: (nat, real)) {
    && hit.0 < |vecs| && |vecs[hit.0]| == |query|
    && hit.1 == SquaredSum(query, vecs[hit.0], |query|)
  }

  lemma TrueHit(index: Index, vecs: seq<seq<real>>, query: seq<real>, k: nat, out: seq<Entry>, i: nat)
    requires index.vecs == vecs && index.graph.Valid() && index.graph.Size() == |vecs| && i < |out|
    requires forall v :: v in vecs ==> |v| == |query|
    requires IsAnswer(index.graph, Distances(query, vecs), 0, k, out)
    ensures IsTrueHit(vecs, query, (out[i].id, out[i].dist))
  {
    hide ReachSet, L2sq;
    DistanceIsSum(query, vecs[out[i].id]);
  }

  lemma AnswerInRange(g: Graph, dist: seq<real>, k: nat, out: seq<Entry>)
    requires g.Valid() && IsAnswer(g, dist, 0, k, out)
    ensures forall i :: 0 <= i < |out| ==> out[i].id < |dist|
  {
    hide ReachSet;
  }
}
