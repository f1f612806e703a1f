/**
 Beam search over a neighbour graph. Both heaps order by negated distance, so
 `pop` and `peek` give the nearest entry in each: a node offered to a full beam
 is taken only if it is nearer than the beam's nearest, and then the nearest of
 all is dropped.
 */
module BeamSearch {
  import opened Prelude
  import opened Sorting
  import opened Reachability
  import opened Beams

  // ---------- Heaps ----------

  /** The heap's `pop`: some entry of least distance. */
  method PopNearest(h: seq<Entry>) returns (top: Entry, rest: seq<Entry>, ghost at: nat)
    requires h != []
    ensures at < |h| && top == h[at] && rest == h[..at] + h[at + 1..]
    ensures forall i :: 0 <= i < |h| ==> Nearer(top, h[i])
  {
    var best := 0;
    for i := 1 to |h|
      invariant 0 <= best < |h|
      invariant forall j :: 0 <= j < i ==> Nearer(h[best], h[j])
    {
      if h[i].dist < h[best].dist { best := i; }
    }
    top, rest, at := h[best], h[..best] + h[best + 1..], best;
  }

  lemma RemoveKeeps(h: seq<Entry>, k: nat, nodes: set<nat>, dist: seq<real>)
    requires k < |h| && Exact(h, nodes, dist)
    ensures var rest := h[..k] + h[k + 1..];
      && Exact(rest, nodes, dist) && EntryIds(h) == EntryIds(rest) + {h[k].id}
      && (DistinctEntries(h) ==> DistinctEntries(rest) && EntryIds(rest) == EntryIds(h) - {h[k].id})
  {
    var rest := h[..k] + h[k + 1..];
    forall i | 0 <= i < |rest|
      ensures rest[i] == h[if i < k then i else i + 1]
    {
    }
    RestIds(h, k);
  }

  lemma RestIds(h: seq<Entry>, k: nat)
    requires k < |h|
    ensures EntryIds(h) == EntryIds(h[..k] + h[k + 1..]) + {h[k].id}
    ensures DistinctEntries(h) ==> h[k].id !in EntryIds(h[..k] + h[k + 1..])
  {
    var rest := h[..k] + h[k + 1..];
    forall x | x in EntryIds(h) && x != h[k].id
      ensures x in EntryIds(rest)
    {
      var i :| 0 <= i < |h| && h[i].id == x;
      assert rest[if i < k then i else i - 1].id == x;
    }
    forall x | x in EntryIds(rest)
      ensures x in EntryIds(h)
      ensures DistinctEntries(h) ==> x != h[k].id
    {
      var i :| 0 <= i < |rest| && rest[i].id == x;
      var at := if i < k then i else i + 1;
      assert h[at].id == x && at != k;
    }
  }

  lemma AppendKeeps(h: seq<Entry>, e: Entry, nodes: set<nat>, dist: seq<real>)
    requires Exact(h, nodes, dist) && e.id in nodes && e.id < |dist| && e.dist == dist[e.id]
    ensures Exact(h + [e], nodes, dist) && EntryIds(h + [e]) == EntryIds(h) + {e.id}
    ensures DistinctEntries(h) && e.id !in EntryIds(h) ==> DistinctEntries(h + [e])
  {
    var h' := h + [e];
    assert forall i :: 0 <= i < |h| ==> h'[i] == h[i];
    assert h'[|h|] == e;
    forall x | x in EntryIds(h) + {e.id}
      ensures x in EntryIds(h')
    {
      if x in EntryIds(h) {
        var i :| 0 <= i < |h| && h[i].id == x;
        assert h'[i].id == x;
      }
    }
  }

  // ---------- The search ----------

  ghost function Marked(visited: seq<bool>): set<nat> {
    set v: nat | v < |visited| && visited[v]
  }

  lemma FrontInBounds(nbrs: seq<nat>, n: nat, bound: nat)
    requires n <= |nbrs| && forall v :: v in nbrs ==> v < bound
    ensures forall v :: v in nbrs[..n] ==> v < bound
  {
    assert forall v :: v in nbrs[..n] ==> v in nbrs;
  }

  /** The neighbours not yet visited, in order. */
  function Fresh(nbrs: seq<nat>, visited: seq<bool>): (batch: seq<nat>)
    requires forall v :: v in nbrs ==> v < |visited|
    ensures batch == Unmet(nbrs, Marked(visited))
  {
    if nbrs == [] then []
    else
      var n := |nbrs| - 1;
      assert nbrs[n] in nbrs;
      FrontInBounds(nbrs, n, |visited|);
      Fresh(nbrs[..n], visited) + if visited[nbrs[n]] then [] else [nbrs[n]]
  }

  method Mark(visited: seq<bool>, batch: seq<nat>) returns (visited': seq<bool>)
    requires forall v :: v in batch ==> v < |visited|
    ensures |visited'| == |visited| && Marked(visited') == Marked(visited) + Elements(batch)
  {
    visited' := visited;
    for i := 0 to |batch|
      invariant |visited'| == |visited|
      invariant forall v: nat :: v < |visited| ==> (visited'[v] <==> visited[v] || v in batch[..i])
    {
      assert batch[i] in batch;
      assert batch[..i + 1] == batch[..i] + [batch[i]];
      visited' := visited'[batch[i] := true];
    }
    assert batch[..|batch|] == batch;
  }

  /** What the search knows between expansions. */
  ghost predicate Searching(g: Graph, dist: seq<real>, entry: nat, ef: nat, marked: set<nat>, candidates: seq<Entry>,
                            results: seq<Entry>)
    requires g.Valid()
  {
    && entry in marked && marked <= ReachSet(g, entry)
    && Exact(candidates, marked, dist)
    && Exact(results, marked, dist) && DistinctEntries(results)
    && 1 <= |results| <= Width(ef)
  }

  /** While the beam has room it holds everything met, and the frontier is what was not expanded. */
  ghost predicate Filling(g: Graph, dist: seq<real>, entry: nat, order: seq<nat>, marked: set<nat>,
                          candidates: seq<Entry>, results: seq<Entry>)
    requires g.Valid()
  {
    && BestFirst(g, dist, entry, order)
    && marked == Elements(Met(g, entry, order)) == EntryIds(results)
    && DistinctEntries(candidates) && EntryIds(candidates) == marked - Elements(order)
  }

  /** A beam with room is filling; a full one is final, whatever is expanded afterwards. */
  ghost predicate Phase(g: Graph, dist: seq<real>, entry: nat, ef: nat, order: seq<nat>, marked: set<nat>,
                        candidates: seq<Entry>, results: seq<Entry>)
    requires g.Valid()
  {
    if |results| < ef then Filling(g, dist, entry, order, marked, candidates, results)
    else IsBeam(g, dist, entry, ef, order, results)
  }

  /** What offering one entry may do: a full beam keeps its size and whatever is not nearer than the bound. */
  ghost predicate OneOffer(e: Entry, worst: real, ef: nat, candidates: seq<Entry>, results: seq<Entry>,
                           candidates': seq<Entry>, results': seq<Entry>, dist: seq<real>) {
    && |results'| == Min(Width(ef), |results| + 1)
    && EntryIds(results') <= EntryIds(results) + {e.id}
    && (candidates' == candidates + [e] || candidates' == candidates)
    && (|results| < ef ==> results' == results + [e] && candidates' == candidates + [e])
    && (|results| >= ef && e.dist >= worst ==> results' == results)
    && (|results| >= ef && (forall i :: 0 <= i < |results| ==> e.dist < results[i].dist) ==> results' == results)
    && (forall x :: x in EntryIds(results) && x < |dist| && dist[x] >= worst ==> x in EntryIds(results'))
  }

  /** One neighbour of the batch: kept if there is room or it beats the bound taken at the start of the expansion. */
  method Offer(e: Entry, worst: real, ef: nat, candidates: seq<Entry>, results: seq<Entry>, ghost nodes: set<nat>,
               ghost dist: seq<real>)
    returns (candidates': seq<Entry>, results': seq<Entry>)
    requires Exact(candidates, nodes, dist) && Exact(results, nodes, dist) && DistinctEntries(results)
    requires e.id in nodes && e.id < |dist| && e.dist == dist[e.id] && e.id !in EntryIds(results)
    requires 1 <= |results| <= Width(ef)
    ensures Exact(candidates', nodes, dist) && Exact(results', nodes, dist) && DistinctEntries(results')
    ensures OneOffer(e, worst, ef, candidates, results, candidates', results', dist)
  {
    candidates', results' := candidates, results;
    if |results| < ef || e.dist < worst {
      AppendKeeps(candidates, e, nodes, dist);
      AppendKeeps(results, e, nodes, dist);
      candidates' := candidates + [e];
      results' := results + [e];
      if |results'| > ef {
        ghost var full := results';
        var top, rest, at := PopNearest(results');
        RemoveKeeps(full, at, nodes, dist);
        assert Nearer(full[at], full[|results|]);
        if at < |results| {
          assert Nearer(full[at], full[at]) && full[at] == results[at];
        }
        results' := rest;
      }
    }
  }

  /**
   The batch element at this place comes to a full beam, and is nearest of all or not
   nearer than everything held before.
   */
  ghost predicate LostAt(batch: seq<nat>, j: nat, dist: seq<real>, ef: nat, results: seq<Entry>)
    requires j < |batch|
  {
    && |results| + j >= Width(ef)
    && (StrictlyNearest(dist, EntryIds(results) + Elements(batch), batch[j]) || Far(dist, EntryIds(results), batch[j]))
  }

  ghost predicate Far(dist: seq<real>, held: set<nat>, v: nat) {
    exists x :: x in held && NotNearer(dist, v, x)
  }

  /** What the batch loop has done after i offers. */
  ghost predicate Offered(batch: seq<nat>, i: nat, dist: seq<real>, ef: nat, candidates: seq<Entry>,
                          results: seq<Entry>, candidates': seq<Entry>, results': seq<Entry>)
    requires i <= |batch|
  {
    && |results'| == Min(Width(ef), |results| + i)
    && EntryIds(results) <= EntryIds(results') <= EntryIds(results) + Elements(batch[..i])
    && (|results| >= ef ==> results' == results)
    && (|results| + i <= ef ==> EntryIds(results') == EntryIds(results) + Elements(batch[..i]))
    && (|results| + i <= ef ==> EntryIds(candidates') == EntryIds(candidates) + Elements(batch[..i]))
    && (|results| + i <= ef && DistinctEntries(candidates) ==> DistinctEntries(candidates'))
    && (forall j :: 0 <= j < i && LostAt(batch, j, dist, ef, results) ==> batch[j] !in EntryIds(results'))
    && |candidates'| <= |candidates| + i
  }

  lemma OneMore(batch: seq<nat>, i: nat)
    requires i < |batch|
    ensures Elements(batch[..i + 1]) == Elements(batch[..i]) + {batch[i]}
    ensures NoRepeats(batch) ==> batch[i] !in Elements(batch[..i])
  {
    assert batch[..i + 1] == batch[..i] + [batch[i]];
  }

  /** A beam that was full before the batch ignores it. */
  lemma FullIgnores(e: Entry, worst: real, ef: nat, c: seq<Entry>, r: seq<Entry>, c': seq<Entry>, r': seq<Entry>,
                    dist: seq<real>)
    requires OneOffer(e, worst, ef, c, r, c', r', dist)
    requires |r| >= ef && forall i :: 0 <= i < |r| ==> worst <= r[i].dist
    ensures r' == r
  {
  }

  /** A late element that is nearest of all goes straight out again, and one that is too far does not get in. */
  lemma LateGoesOut(batch: seq<nat>, i: nat, dist: seq<real>, worst: real, ef: nat, results: seq<Entry>,
                    c: seq<Entry>, r: seq<Entry>, c': seq<Entry>, r': seq<Entry>, nodes: set<nat>)
    requires i < |batch| && batch[i] < |dist| &&
      OneOffer(Entry(batch[i], dist[batch[i]]), worst, ef, c, r, c', r', dist)
    requires Exact(r, nodes, dist) && EntryIds(r) <= EntryIds(results) + Elements(batch[..i])
    requires NoRepeats(batch) && batch[i] !in EntryIds(results)
    requires Exact(results, nodes, dist) && forall k :: 0 <= k < |results| ==> worst <= results[k].dist
    requires |r| == Min(Width(ef), |results| + i) && LostAt(batch, i, dist, ef, results)
    ensures batch[i] !in EntryIds(r')
  {
    var v := batch[i];
    OneMore(batch, i);
    assert v !in EntryIds(r);
    if Far(dist, EntryIds(results), v) {
      FarIsBeyond(results, dist, worst, v, nodes);
    } else {
      forall k | 0 <= k < |r|
        ensures dist[v] < r[k].dist
      {
        assert r[k].id in EntryIds(r);
        if r[k].id !in EntryIds(results) {
          assert r[k].id in batch[..i];
        }
      }
    }
  }

  lemma FarIsBeyond(results: seq<Entry>, dist: seq<real>, worst: real, v: nat, nodes: set<nat>)
    requires Exact(results, nodes, dist) && forall k :: 0 <= k < |results| ==> worst <= results[k].dist
    requires Far(dist, EntryIds(results), v)
    ensures v < |dist| && worst <= dist[v]
  {
    var x :| x in EntryIds(results) && NotNearer(dist, v, x);
    var i :| 0 <= i < |results| && results[i].id == x;
  }

  lemma OldStay(results: seq<Entry>, worst: real, ef: nat, e: Entry, c: seq<Entry>, r: seq<Entry>, c': seq<Entry>,
                r': seq<Entry>, nodes: set<nat>, dist: seq<real>)
    requires Exact(results, nodes, dist) && forall i :: 0 <= i < |results| ==> worst <= results[i].dist
    requires OneOffer(e, worst, ef, c, r, c', r', dist) && EntryIds(results) <= EntryIds(r)
    ensures EntryIds(results) <= EntryIds(r')
  {
    forall x | x in EntryIds(results)
      ensures x in EntryIds(r')
    {
      var i :| 0 <= i < |results| && results[i].id == x;
    }
  }

  lemma OfferedStep(batch: seq<nat>, i: nat, dist: seq<real>, worst: real, ef: nat, candidates: seq<Entry>,
                    results: seq<Entry>,
                    c: seq<Entry>, r: seq<Entry>, c': seq<Entry>, r': seq<Entry>, nodes: set<nat>)
    requires i < |batch| && NoRepeats(batch)
    requires forall v :: v in batch ==> v !in EntryIds(results) && v !in EntryIds(candidates)
    requires batch[i] in nodes && batch[i] < |dist| && Exact(c, nodes, dist) && Exact(r, nodes, dist) &&
      Exact(results, nodes, dist)
    requires forall k :: 0 <= k < |results| ==> worst <= results[k].dist
    requires Offered(batch, i, dist, ef, candidates, results, c, r)
    requires OneOffer(Entry(batch[i], dist[batch[i]]), worst, ef, c, r, c', r', dist)
    ensures Offered(batch, i + 1, dist, ef, candidates, results, c', r')
  {
    hide Exact, LostAt, EntryIds, Elements, DistinctEntries;
    var e := Entry(batch[i], dist[batch[i]]);
    OneMore(batch, i);
    OldStay(results, worst, ef, e, c, r, c', r', nodes, dist);
    if |results| >= ef {
      FullIgnores(e, worst, ef, c, r, c', r', dist);
    }
    AppendKeeps(c, e, nodes, dist);
    AppendKeeps(r, e, nodes, dist);
    assert batch[i] in batch;
    forall j | 0 <= j < i + 1 && LostAt(batch, j, dist, ef, results)
      ensures batch[j] !in EntryIds(r')
    {
      if j == i {
        LateGoesOut(batch, i, dist, worst, ef, results, c, r, c', r', nodes);
      }
    }
  }

  /** The batch loop. */
  method OfferAll(batch: seq<nat>, dist: seq<real>, worst: real, ef: nat, candidates: seq<Entry>,
                  results: seq<Entry>, ghost nodes: set<nat>)
    returns (candidates': seq<Entry>, results': seq<Entry>)
    requires Exact(candidates, nodes, dist) && Exact(results, nodes, dist) && DistinctEntries(results)
    requires NoRepeats(batch) && forall v :: v in batch ==> v in nodes && v < |dist| && v !in EntryIds(results)
    requires forall v :: v in batch ==> v !in EntryIds(candidates)
    requires 1 <= |results| <= Width(ef) && forall i :: 0 <= i < |results| ==> worst <= results[i].dist
    ensures Exact(candidates', nodes, dist) && Exact(results', nodes, dist) && DistinctEntries(results')
    ensures Offered(batch, |batch|, dist, ef, candidates, results, candidates', results')
  {
    candidates', results' := candidates, results;
    for i := 0 to |batch|
      invariant Exact(candidates', nodes, dist) && Exact(results', nodes, dist) && DistinctEntries(results')
      invariant Offered(batch, i, dist, ef, candidates, results, candidates', results')
    {
      var v := batch[i];
      assert v in batch && v !in batch[..i];
      ghost var c, r := candidates', results';
      candidates', results' := Offer(Entry(v, dist[v]), worst, ef, candidates', results', nodes, dist);
      OfferedStep(batch, i, dist, worst, ef, candidates, results, c, r, candidates', results', nodes);
    }
  }

  ghost function Nodes(n: nat): (nodes: set<nat>)
    ensures forall v: nat :: v in nodes <==> v < n
  {
    if n == 0 then {} else Nodes(n - 1) + {n - 1}
  }

  /** The least distance in the heap: what `peek` shows. */
  method Peek(h: seq<Entry>) returns (least: real)
    requires h != []
    ensures forall i :: 0 <= i < |h| ==> least <= h[i].dist
    ensures |h| == 1 ==> least == h[0].dist
  {
    var top, rest, at := PopNearest(h);
    least := top.dist;
    assert forall i :: 0 <= i < |h| ==> Nearer(top, h[i]);
  }

  lemma Widen(h: seq<Entry>, marked: set<nat>, more: set<nat>, dist: seq<real>)
    requires Exact(h, marked, dist)
    ensures Exact(h, marked + more, dist)
    ensures EntryIds(h) <= marked
  {
  }

  lemma Shrinks(n: nat, marked: set<nat>, batch: seq<nat>)
    requires forall v :: v in batch ==> v < n && v !in marked
    ensures marked + Elements(batch) - Nodes(n) == marked - Nodes(n)
    ensures batch != [] ==> |Nodes(n) - (marked + Elements(batch))| < |Nodes(n) - marked|
  {
    if batch != [] {
      assert batch[0] in batch;
      assert Nodes(n) - (marked + Elements(batch)) <= Nodes(n) - marked - {batch[0]};
      SubsetCount(Nodes(n) - (marked + Elements(batch)), Nodes(n) - marked - {batch[0]});
    }
  }


  // ---------- One expansion ----------

  /** The neighbours of the popped node that were not visited, in order. */
  ghost predicate IsBatch(g: Graph, marked: set<nat>, cur: Entry, batch: seq<nat>)
    requires g.Valid()
  {
    cur.id < g.Size() && batch == Unmet(g.Neighbours(cur.id), marked)
  }

  /** `cur` came off the frontier as its nearest entry. */
  ghost predicate Popped(before: seq<Entry>, cur: Entry, rest: seq<Entry>, marked: set<nat>, dist: seq<real>) {
    && Exact(rest, marked, dist) && cur.id in marked && cur.id < |dist| && cur.dist == dist[cur.id]
    && EntryIds(before) == EntryIds(rest) + {cur.id}
    && (DistinctEntries(before) ==> DistinctEntries(rest) && EntryIds(rest) == EntryIds(before) - {cur.id})
    && forall i :: 0 <= i < |before| ==> cur.dist <= before[i].dist
  }

  lemma PoppedIsNextBest(g: Graph, dist: seq<real>, entry: nat, order: seq<nat>, marked: set<nat>,
                         before: seq<Entry>, cur: Entry, rest: seq<Entry>, results: seq<Entry>)
    requires g.Valid() && Filling(g, dist, entry, order, marked, before, results)
    requires Exact(before, marked, dist) && Popped(before, cur, rest, marked, dist)
    ensures NextBest(g, dist, entry, order, cur.id)
  {
    hide Met, BestFirst, Graph.Valid;
    assert cur.id in EntryIds(before);
    var met := Met(g, entry, order);
    assert cur.id in Elements(met) && cur.id !in Elements(order);
    forall w | w in met && w !in order && w < |dist|
      ensures dist[cur.id] <= dist[w]
    {
      assert w in Elements(met) && w !in Elements(order);
      assert w in EntryIds(before);
      var i :| 0 <= i < |before| && before[i].id == w;
    }
  }

  /** Room left after the batch: everything met is still held. */
  lemma StillFilling(g: Graph, dist: seq<real>, entry: nat, ef: nat, order: seq<nat>, marked: set<nat>, cur: Entry,
                     batch: seq<nat>, before: seq<Entry>, rest: seq<Entry>, results: seq<Entry>,
                     candidates': seq<Entry>, results': seq<Entry>)
    requires g.Valid() && Filling(g, dist, entry, order, marked, before, results) &&
      NextBest(g, dist, entry, order, cur.id)
    requires entry < g.Size() && Popped(before, cur, rest, marked, dist) && IsBatch(g, marked, cur, batch)
    requires Offered(batch, |batch|, dist, ef, rest, results, candidates', results') && |results'| < ef
    ensures Filling(g, dist, entry, order + [cur.id], marked + Elements(batch), candidates', results')
  {
    hide Met, BestFirst, NextBest, Graph.Valid, EntryIds, DistinctEntries, Exact, LostAt, Elements, NoRepeats;
    BestFirstStep(g, dist, entry, order, cur.id);
    MetStep(g, entry, order, cur.id);
    ElementsConcat(Met(g, entry, order), batch);
    ElementsConcat(order, [cur.id]);
    assert batch[..|batch|] == batch;
    OnlyOne(cur.id);
    BatchIsNew(g, marked, cur, batch);
    MetReachable(g, dist, entry, order);
  }

  lemma OnlyOne(v: nat)
    ensures Elements([v]) == {v}
  {
  }

  lemma BatchIsNew(g: Graph, marked: set<nat>, cur: Entry, batch: seq<nat>)
    requires g.Valid() && IsBatch(g, marked, cur, batch)
    ensures NoRepeats(batch) && Elements(batch) !! marked
  {
  }

  /** The batch that fills the beam: from now on it is final. */
  lemma NowFull(g: Graph, dist: seq<real>, entry: nat, ef: nat, order: seq<nat>, marked: set<nat>, cur: Entry,
                batch: seq<nat>, before: seq<Entry>, rest: seq<Entry>, results: seq<Entry>,
                candidates': seq<Entry>, results': seq<Entry>)
    requires g.Valid() && Filling(g, dist, entry, order, marked, before, results) &&
      NextBest(g, dist, entry, order, cur.id)
    requires IsBatch(g, marked, cur, batch) && DistinctEntries(results) && |results| < ef
    requires Offered(batch, |batch|, dist, ef, rest, results, candidates', results') && |results'| >= ef
    ensures IsBeam(g, dist, entry, ef, order + [cur.id], results')
  {
    hide Met, BestFirst, NextBest, Graph.Valid, EntryIds, DistinctEntries, Elements;
    hide LostAt, LateNearestLost, LateFarRefused, NoRepeats;
    var met, order' := Met(g, entry, order), order + [cur.id];
    BestFirstStep(g, dist, entry, order, cur.id);
    MetStep(g, entry, order, cur.id);
    ElementsConcat(met, batch);
    ElementCount(met);
    DistinctCount(results);
    assert batch[..|batch|] == batch && order'[..|order|] == order;
    LateInBatch(dist, ef, met, batch, results, EntryIds(results'));
    FarInBatch(dist, ef, met, batch, results, EntryIds(results'));
  }

  lemma FarInBatch(dist: seq<real>, ef: nat, met: seq<nat>, batch: seq<nat>, results: seq<Entry>, kept: set<nat>)
    requires EntryIds(results) == Elements(met) && |results| == |met| <= Width(ef)
    requires forall j :: 0 <= j < |batch| && LostAt(batch, j, dist, ef, results) ==> batch[j] !in kept
    ensures LateFarRefused(dist, Elements(met), met + batch, Width(ef), kept)
  {
    hide EntryIds, Elements, StrictlyNearest, NotNearer;
    var all := met + batch;
    forall j, x | Width(ef) <= j < |all| && x in Elements(met) && NotNearer(dist, all[j], x)
      ensures all[j] !in kept
    {
      assert all[j] == batch[j - |met|];
      assert Far(dist, EntryIds(results), batch[j - |met|]);
      assert LostAt(batch, j - |met|, dist, ef, results);
    }
  }

  lemma LateInBatch(dist: seq<real>, ef: nat, met: seq<nat>, batch: seq<nat>, results: seq<Entry>, kept: set<nat>)
    requires EntryIds(results) == Elements(met) && |results| == |met| <= Width(ef)
    requires forall j :: 0 <= j < |batch| && LostAt(batch, j, dist, ef, results) ==> batch[j] !in kept
    ensures LateNearestLost(dist, met + batch, Width(ef), kept)
  {
    hide EntryIds, Elements, StrictlyNearest;
    ElementsConcat(met, batch);
    var all := met + batch;
    forall j | Width(ef) <= j < |all| && StrictlyNearest(dist, Elements(all), all[j])
      ensures all[j] !in kept
    {
      assert all[j] == batch[j - |met|];
      assert LostAt(batch, j - |met|, dist, ef, results);
    }
  }

  /** One expansion. */
  method Expand(g: Graph, dist: seq<real>, entry: nat, ef: nat, batch: seq<nat>, worst: real, cur: Entry,
                ghost before: seq<Entry>,
                rest: seq<Entry>, results: seq<Entry>, ghost marked: set<nat>, ghost order: seq<nat>)
    returns (candidates': seq<Entry>, results': seq<Entry>, ghost marked': set<nat>, ghost order': seq<nat>)
    requires g.Valid() && |dist| == g.Size() && entry < g.Size()
    requires Searching(g, dist, entry, ef, marked, before, results)
    requires Phase(g, dist, entry, ef, order, marked, before, results)
    requires Popped(before, cur, rest, marked, dist) && IsBatch(g, marked, cur, batch)
    requires forall i :: 0 <= i < |results| ==> worst <= results[i].dist
    ensures marked' == marked + Elements(batch)
    ensures order' == if |results| < ef then order + [cur.id] else order
    ensures Searching(g, dist, entry, ef, marked', candidates', results')
    ensures Phase(g, dist, entry, ef, order', marked', candidates', results')
    ensures |results| >= ef ==> results' == results
    ensures |candidates'| <= |rest| + |batch|
  {
    hide ReachSet, IsPath, Exact, EntryIds, DistinctEntries, NoRepeats, Graph.Valid, Filling, IsBeam, LostAt;
    marked' := marked + Elements(batch);
    order' := if |results| < ef then order + [cur.id] else order;
    BeforeBatch(g, dist, entry, ef, marked, cur, batch, before, rest, results);
    candidates', results' := OfferAll(batch, dist, worst, ef, rest, results, marked');
    if |results| < ef {
      PoppedIsNextBest(g, dist, entry, order, marked, before, cur, rest, results);
      if |results'| < ef {
        StillFilling(g, dist, entry, ef, order, marked, cur, batch, before, rest, results, candidates', results');
      } else {
        NowFull(g, dist, entry, ef, order, marked, cur, batch, before, rest, results, candidates', results');
      }
    }
  }

  /** What the batch loop may rely on. */
  lemma BeforeBatch(g: Graph, dist: seq<real>, entry: nat, ef: nat, marked: set<nat>, cur: Entry, batch: seq<nat>,
                    before: seq<Entry>, rest: seq<Entry>, results: seq<Entry>)
    requires g.Valid() && |dist| == g.Size()
    requires Searching(g, dist, entry, ef, marked, before, results)
    requires Popped(before, cur, rest, marked, dist) && IsBatch(g, marked, cur, batch)
    ensures var nodes := marked + Elements(batch);
      && Exact(rest, nodes, dist) && Exact(results, nodes, dist) && NoRepeats(batch)
      && (forall v :: v in batch ==> v in nodes && v < |dist| && v !in EntryIds(results) && v !in EntryIds(rest))
      && entry in nodes && nodes <= ReachSet(g, entry)
  {
    hide ReachSet, IsPath, EntryIds, Graph.Valid, Exact, DistinctEntries;
    BatchReachable(g, entry, marked, cur, batch);
    Widen(rest, marked, Elements(batch), dist);
    Widen(results, marked, Elements(batch), dist);
  }

  lemma BatchReachable(g: Graph, entry: nat, marked: set<nat>, cur: Entry, batch: seq<nat>)
    requires g.Valid() && marked <= ReachSet(g, entry) && cur.id in marked && IsBatch(g, marked, cur, batch)
    ensures NoRepeats(batch) && forall v :: v in batch ==> v in ReachSet(g, entry) && v < g.Size()
  {
    hide Reaches;
    forall v | v in batch
      ensures v in ReachSet(g, entry) && v < g.Size()
    {
      ReachStep(g, entry, cur.id, v);
    }
  }

  // ---------- The loop ----------

  /** The unvisited neighbours, computed and marked. */
  method TakeBatch(g: Graph, visited: seq<bool>, cur: Entry, ghost marked: set<nat>)
    returns (batch: seq<nat>, visited': seq<bool>)
    requires g.Valid() && |visited| == g.Size() && cur.id < g.Size() && Marked(visited) == marked
    ensures IsBatch(g, marked, cur, batch)
    ensures |visited'| == |visited| && Marked(visited') == marked + Elements(batch)
    ensures batch != [] ==> |Nodes(g.Size()) - Marked(visited')| < |Nodes(g.Size()) - marked|
    ensures batch == [] ==> Marked(visited') == marked
  {
    batch := Fresh(g.Neighbours(cur.id), visited);
    visited' := Mark(visited, batch);
    Shrinks(g.Size(), marked, batch);
  }

  lemma Starts(g: Graph, dist: seq<real>, entry: nat, ef: nat, visited: seq<bool>)
    requires g.Valid() && |dist| == g.Size() == |visited| && entry < g.Size()
    requires forall v :: 0 <= v < |visited| ==> (visited[v] <==> v == entry)
    ensures var first := [Entry(entry, dist[entry])];
      && Searching(g, dist, entry, ef, {entry}, first, first)
      && Phase(g, dist, entry, ef, [], {entry}, first, first) && Marked(visited) == {entry}
  {
    hide IsPath, Reaches;
    var first := [Entry(entry, dist[entry])];
    ReachSelf(g, entry);
    MetNothing(g, entry);
    assert first[0].id == entry;
    assert EntryIds(first) == {entry};
    OnlyOne(entry);
    ElementCount([entry]);
  }

  /** An empty frontier leaves nothing to fill the beam with. */
  lemma Finished(g: Graph, dist: seq<real>, entry: nat, ef: nat, order: seq<nat>, marked: set<nat>,
                 candidates: seq<Entry>, results: seq<Entry>)
    requires g.Valid() && Phase(g, dist, entry, ef, order, marked, candidates, results) && DistinctEntries(results)
    requires |results| >= ef || candidates == []
    ensures IsBeam(g, dist, entry, ef, order, results)
  {
    hide Met, BestFirst, Graph.Valid, NoRepeats, DistinctEntries;
    if |results| < ef {
      var met := Met(g, entry, order);
      ElementCount(met);
      DistinctCount(results);
      assert Filling(g, dist, entry, order, marked, candidates, results);
      assert EntryIds(candidates) == {};
      forall v | v in met
        ensures v in order
      {
        assert v in Elements(met) && v in marked && v !in EntryIds(candidates);
        assert v in Elements(order) <==> v in order;
      }
      if order != [] {
        MetPrefix(g, entry, order, |order| - 1);
      }
    }
  }

  /** The expansion loop. */
  method Explore(g: Graph, dist: seq<real>, entry: nat, ef: nat) returns (results: seq<Entry>, ghost order: seq<nat>)
    requires g.Valid() && |dist| == g.Size() && entry < g.Size()
    ensures Exact(results, ReachSet(g, entry), dist) && DistinctEntries(results)
    ensures IsBeam(g, dist, entry, ef, order, results)
  {
    hide IsPath, Reaches, ReachSet, IsBatch, EntryIds, DistinctEntries, Graph.Valid, Marked, Phase, IsBeam;
    var n := g.Size();
    var visited := seq(n, _ => false)[entry := true];
    var first := Entry(entry, dist[entry]);
    var candidates := [first];
    results, order := [first], [];
    ghost var marked := {entry};
    Starts(g, dist, entry, ef, visited);
    while candidates != []
      invariant |visited| == n && Marked(visited) == marked
      invariant Searching(g, dist, entry, ef, marked, candidates, results)
      invariant Phase(g, dist, entry, ef, order, marked, candidates, results)
      decreases |Nodes(n) - marked|, |candidates|
    {
      ghost var before := candidates;
      var cur, rest, at := PopNearest(candidates);
      RemoveKeeps(before, at, marked, dist);
      assert forall i :: 0 <= i < |before| ==> Nearer(cur, before[i]);
      candidates := rest;
      var worst := Peek(results);
      if cur.dist > worst && |results| >= ef {
        FullIsFinal(g, dist, entry, ef, order, marked, before, rest, results);
        break;
      }
      var batch;
      batch, visited := TakeBatch(g, visited, cur, marked);
      candidates, results, marked, order :=
        Expand(g, dist, entry, ef, batch, worst, cur, before, rest, results, marked, order);
    }
    Widen(results, marked, ReachSet(g, entry), dist);
    assert marked + ReachSet(g, entry) == ReachSet(g, entry);
    Finished(g, dist, entry, ef, order, marked, candidates, results);
  }

  lemma FullIsFinal(g: Graph, dist: seq<real>, entry: nat, ef: nat, order: seq<nat>, marked: set<nat>,
                    before: seq<Entry>, rest: seq<Entry>, results: seq<Entry>)
    requires g.Valid() && |results| >= ef && Phase(g, dist, entry, ef, order, marked, before, results)
    ensures Phase(g, dist, entry, ef, order, marked, rest, results)
  {
  }

  // ---------- The answer ----------

  lemma SortedFacts(results: seq<Entry>, sorted: seq<Entry>, nodes: set<nat>, dist: seq<real>)
    requires Permutation(sorted, results) && Sorted(sorted, Nearer)
    requires Exact(results, nodes, dist) && DistinctEntries(results)
    ensures |sorted| == |results| && Exact(sorted, nodes, dist) && DistinctEntries(sorted) &&
      EntryIds(sorted) == EntryIds(results)
    ensures forall i, j :: 0 <= i < j < |sorted| ==> sorted[i].dist <= sorted[j].dist
  {
    PermutationFacts(sorted, results);
    KeysStayDistinct(sorted, results, (e: Entry) => e.id);
    forall i | 0 <= i < |sorted|
      ensures sorted[i].id in nodes && sorted[i].id < |dist| && sorted[i].dist == dist[sorted[i].id]
    {
      assert sorted[i] in results;
    }
    forall x
      ensures x in EntryIds(sorted) <==> x in EntryIds(results)
    {
      if x in EntryIds(sorted) {
        var i :| 0 <= i < |sorted| && sorted[i].id == x;
        assert sorted[i] in results;
        var j :| 0 <= j < |results| && results[j] == sorted[i];
        assert results[j].id == x;
      }
      if x in EntryIds(results) {
        var i :| 0 <= i < |results| && results[i].id == x;
        assert results[i] in sorted;
        var j :| 0 <= j < |sorted| && sorted[j] == results[i];
        assert sorted[j].id == x;
      }
    }
    forall i, j | 0 <= i < j < |sorted|
      ensures sorted[i].dist <= sorted[j].dist
    {
      assert Nearer(sorted[i], sorted[j]);
    }
  }

  /** A beam depends on its entries, not on their order. */
  lemma SortedBeam(g: Graph, dist: seq<real>, entry: nat, ef: nat, order: seq<nat>, results: seq<Entry>,
                   sorted: seq<Entry>)
    requires g.Valid() && IsBeam(g, dist, entry, ef, order, results)
    requires |sorted| == |results| && EntryIds(sorted) == EntryIds(results)
    ensures IsBeam(g, dist, entry, ef, order, sorted)
  {
    hide Met, BestFirst, Graph.Valid, LateNearestLost, LateFarRefused;
  }

  /**
   Beam search. The answer is the front of the beam: everything met before the
   batch that fills it, the rest from that batch, and nothing met later. It has as
   many nodes as k, the beam and the reachable set allow; with room for every
   reachable node it is exact.
   */
  method Search(g: Graph, vecs: seq<seq<real>>, query: seq<real>, entry: nat, k: nat, ef: nat)
    returns (out: seq<Entry>, ghost order: seq<nat>, ghost beam: seq<Entry>)
    requires g.Valid() && |vecs| == g.Size() && (g.Size() == 0 || entry < g.Size())
    ensures g.Size() == 0 ==> out == []
    ensures g.Size() > 0 ==>
      var dist := Distances(query, vecs);
      && IsFrontOf(g, dist, entry, k, ef, order, beam, out)
      && IsAnswer(g, dist, entry, k, out)
      && |out| == Min(k, BeamSize(ef, |ReachSet(g, entry)|))
      && (Width(ef) >= |ReachSet(g, entry)| ==> AreNearest(ReachSet(g, entry), dist, k, out))
  {
    hide ReachSet, IsPath, Reaches, AreNearest, EntryIds, L2sq, IsBeam;
    order, beam := [], [];
    if g.Size() == 0 {
      return [], order, beam;
    }
    var dist := Distances(query, vecs);
    var results;
    results, order := Explore(g, dist, entry, ef);
    var sorted := Sort(results, Nearer);
    beam := sorted;
    SortedFacts(results, sorted, ReachSet(g, entry), dist);
    SortedBeam(g, dist, entry, ef, order, results, sorted);
    out := sorted[..Min(k, |sorted|)];
    FrontIsAnswer(g, dist, entry, k, ef, order, sorted, out);
  }
}
