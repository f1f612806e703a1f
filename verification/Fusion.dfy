/**
 Reciprocal-rank fusion of two hit lists: the sort-merge form and the map form,
 each proved to compute the same fused scores, and proved to agree.
 */
module Fusion {
  import opened Prelude
  import opened Sorting

  datatype Hit = Hit(id: I64, uri: Option<string>, title: Option<string>, text: string, score: real,
                     meta: Option<string>, ts: Option<I64>)

  // ---------- The fused score ----------

  /** The contribution of 0-based rank i. */
  function RankScore(i: nat): real {
    1.0 / (60.0 + (i + 1) as real)
  }

  /** What one list gives to an id: every occurrence counts. */
  ghost function ListScore(hits: seq<Hit>, id: I64): real {
    if hits == [] then 0.0
    else
      var n := |hits| - 1;
      ListScore(hits[..n], id) + if hits[n].id == id then RankScore(n) else 0.0
  }

  ghost function Fused(lex: seq<Hit>, vec: seq<Hit>, id: I64): real {
    ListScore(lex, id) + ListScore(vec, id)
  }

  ghost function Ids(hits: seq<Hit>): set<I64> {
    set i | 0 <= i < |hits| :: hits[i].id
  }

  /** `h` is an input hit carrying its fused score. */
  ghost predicate IsScored(lex: seq<Hit>, vec: seq<Hit>, h: Hit) {
    && h.score == Fused(lex, vec, h.id)
    && exists g: Hit :: (g in lex || g in vec) && h == g.(score := h.score)
  }

  /** The contract of both forms: the best `limit` ids, each once, best first. */
  ghost predicate IsFusion(lex: seq<Hit>, vec: seq<Hit>, limit: nat, out: seq<Hit>) {
    && |out| == Min(limit, |Ids(lex) + Ids(vec)|)
    && (forall i :: 0 <= i < |out| ==> IsScored(lex, vec, out[i]))
    && (forall i, j :: 0 <= i < j < |out| ==> out[i].id != out[j].id && out[i].score >= out[j].score)
    && (forall id, i :: id in Ids(lex) + Ids(vec) && id !in Ids(out) && 0 <= i < |out| ==>
         Fused(lex, vec, id) <= out[i].score)
  }

  // ---------- Tagged pairs ----------

  datatype Source = Lex | Vec
  datatype Pair = Pair(id: I64, score: real, idx: nat, tag: Source)

  /** What a sequence of pairs gives to an id. */
  ghost function PairScore(pairs: seq<Pair>, id: I64): real {
    if pairs == [] then 0.0
    else
      var n := |pairs| - 1;
      PairScore(pairs[..n], id) + if pairs[n].id == id then pairs[n].score else 0.0
  }

  lemma {:induction false} PairScoreConcat(p: seq<Pair>, q: seq<Pair>, id: I64)
    ensures PairScore(p + q, id) == PairScore(p, id) + PairScore(q, id)
  {
    if q == [] {
      assert p + q == p;
    } else {
      var n := |q| - 1;
      assert (p + q)[..|p| + n] == p + q[..n];
      PairScoreConcat(p, q[..n], id);
    }
  }

  lemma TakePairOut(p: seq<Pair>, k: nat, id: I64)
    requires k < |p|
    ensures PairScore(p, id) == PairScore(Without(p, k), id) + PairScore([p[k]], id)
  {
    hide PairScore;
    var left, x, right := p[..k], [p[k]], p[k + 1..];
    assert p == left + x + right;
    PairScoreConcat(left + x, right, id);
    PairScoreConcat(left, x, id);
    PairScoreConcat(left, right, id);
  }

  /** The score of an id does not depend on the order of the pairs. */
  lemma {:induction false} PairScorePermutes(p: seq<Pair>, q: seq<Pair>, id: I64)
    requires Permutation(p, q)
    ensures PairScore(p, id) == PairScore(q, id)
    decreases |p|
  {
    PermutationFacts(p, q);
    if p != [] {
      hide PairScore, Permutation, Without;
      var n := |p| - 1;
      assert p[n] in p;
      var k: nat :| k < |q| && q[k] == p[n];
      WithoutPermutes(p, q, n, k);
      WithoutLength(p, n);
      PairScorePermutes(Without(p, n), Without(q, k), id);
      TakePairOut(p, n, id);
      TakePairOut(q, k, id);
    }
  }

  /** The pairs of a list, in rank order. */
  ghost predicate PairsOf(hits: seq<Hit>, tag: Source, pairs: seq<Pair>) {
    |pairs| == |hits| && forall i :: 0 <= i < |hits| ==> pairs[i] == Pair(hits[i].id, RankScore(i), i, tag)
  }

  lemma {:induction false} PairsGiveListScore(hits: seq<Hit>, tag: Source, pairs: seq<Pair>, id: I64)
    requires PairsOf(hits, tag, pairs)
    ensures PairScore(pairs, id) == ListScore(hits, id)
  {
    if hits != [] {
      var n := |hits| - 1;
      PairsGiveListScore(hits[..n], tag, pairs[..n], id);
    }
  }

  method MakePairs(hits: seq<Hit>, tag: Source) returns (pairs: seq<Pair>)
    ensures PairsOf(hits, tag, pairs)
  {
    var scores := [];
    for i := 0 to |hits|
      invariant |scores| == i && forall k :: 0 <= k < i ==> scores[k] == RankScore(k)
    {
      scores := scores + [1.0 / (60.0 + (i + 1) as real)];
    }
    pairs := [];
    for i := 0 to |hits|
      invariant |pairs| == i && forall k :: 0 <= k < i ==> pairs[k] == Pair(hits[k].id, RankScore(k), k, tag)
    {
      pairs := pairs + [Pair(hits[i].id, scores[i], i, tag)];
    }
  }

  // ---------- The linear merge ----------

  predicate IdLe(a: Pair, b: Pair) {
    a.id <= b.id
  }

  /** The run of one id's pairs: same id throughout. */
  lemma {:induction false} RunScore(pairs: seq<Pair>, lo: nat, hi: nat, id: I64)
    requires lo <= hi <= |pairs| && forall k :: lo <= k < hi ==> pairs[k].id != id
    ensures PairScore(pairs[..hi], id) == PairScore(pairs[..lo], id)
  {
    if lo < hi {
      RunScore(pairs, lo, hi - 1, id);
      assert pairs[..hi][..hi - 1] == pairs[..hi - 1];
    }
  }

  predicate SameSlot(p: Pair, m: Pair) {
    p.id == m.id && p.idx == m.idx && p.tag == m.tag
  }

  /** Entry m stands for one of the first k pairs. */
  ghost predicate FromPairs(pairs: seq<Pair>, k: nat, m: Pair)
    requires k <= |pairs|
  {
    exists i :: 0 <= i < k && SameSlot(pairs[i], m)
  }

  ghost predicate HasId(merged: seq<Pair>, id: I64) {
    exists a :: 0 <= a < |merged| && merged[a].id == id
  }

  /** `merged` holds one entry per id of the first k pairs, in id order, with its total and a pair it came from. */
  ghost predicate Merged(pairs: seq<Pair>, k: nat, merged: seq<Pair>)
    requires k <= |pairs|
  {
    && (forall a, b :: 0 <= a < b < |merged| ==> merged[a].id < merged[b].id)
    && (forall a :: 0 <= a < |merged| ==> merged[a].score == PairScore(pairs[..k], merged[a].id))
    && (forall a :: 0 <= a < |merged| ==> FromPairs(pairs, k, merged[a]))
    && (forall i :: 0 <= i < k ==> HasId(merged, pairs[i].id))
  }

  /** The first k pairs are a union of whole runs. */
  ghost predicate Boundary(pairs: seq<Pair>, k: nat)
    requires k <= |pairs|
  {
    forall i, j :: 0 <= i < k <= j < |pairs| ==> pairs[i].id < pairs[j].id
  }

  /** [k, j) is one run of pairs, and everything before k is whole runs. */
  ghost predicate IsNextRun(pairs: seq<Pair>, k: nat, j: nat) {
    && k < j <= |pairs| && Boundary(pairs, k)
    && (forall i :: k <= i < j ==> pairs[i].id == pairs[k].id)
    && (j < |pairs| ==> pairs[j].id != pairs[k].id)
  }

  lemma BoundaryStep(pairs: seq<Pair>, k: nat, j: nat)
    requires Sorted(pairs, IdLe) && IsNextRun(pairs, k, j)
    ensures Boundary(pairs, j)
  {
    forall i, m | 0 <= i < j <= m < |pairs|
      ensures pairs[i].id < pairs[m].id
    {
      assert IdLe(pairs[k], pairs[j]);
      assert m == j || IdLe(pairs[j], pairs[m]);
    }
  }

  /** The next run changes no earlier id's total, and is all of its own. */
  lemma RunTotals(pairs: seq<Pair>, k: nat, j: nat, id: I64)
    requires IsNextRun(pairs, k, j)
    ensures id != pairs[k].id ==> PairScore(pairs[..j], id) == PairScore(pairs[..k], id)
    ensures PairScore(pairs[..j], pairs[k].id) == PairScore(pairs[k..j], pairs[k].id)
  {
    assert pairs[..j] == pairs[..k] + pairs[k..j];
    PairScoreConcat(pairs[..k], pairs[k..j], pairs[k].id);
    RunScore(pairs, 0, k, pairs[k].id);
    if id != pairs[k].id {
      RunScore(pairs, k, j, id);
    }
  }

  lemma EarlierId(pairs: seq<Pair>, k: nat, j: nat, m: Pair)
    requires IsNextRun(pairs, k, j) && FromPairs(pairs, k, m)
    ensures m.id < pairs[k].id && FromPairs(pairs, j, m)
  {
    var i :| 0 <= i < k && SameSlot(pairs[i], m);
    assert pairs[i].id < pairs[k].id;
  }

  lemma HasMore(merged: seq<Pair>, entry: Pair, id: I64)
    requires HasId(merged, id) || entry.id == id
    ensures HasId(merged + [entry], id)
  {
    var merged' := merged + [entry];
    if entry.id == id {
      assert merged'[|merged|] == entry;
    } else {
      var a :| 0 <= a < |merged| && merged[a].id == id;
      assert merged'[a] == merged[a];
    }
  }

  /** One run appended. */
  lemma MergeRun(pairs: seq<Pair>, k: nat, j: nat, merged: seq<Pair>, total: real)
    requires IsNextRun(pairs, k, j) && Merged(pairs, k, merged)
    requires total == PairScore(pairs[k..j], pairs[k].id)
    ensures Merged(pairs, j, merged + [pairs[k].(score := total)])
  {
    hide FromPairs, HasId, PairScore, Boundary;
    var entry := pairs[k].(score := total);
    var merged' := merged + [entry];
    RunTotals(pairs, k, j, entry.id);
    forall a | 0 <= a < |merged|
      ensures merged[a].id < entry.id && FromPairs(pairs, j, merged[a])
      ensures merged[a].score == PairScore(pairs[..j], merged[a].id)
    {
      EarlierId(pairs, k, j, merged[a]);
      RunTotals(pairs, k, j, merged[a].id);
    }
    SlotOfRun(pairs, k, j, entry);
    forall i | 0 <= i < j
      ensures HasId(merged', pairs[i].id)
    {
      HasMore(merged, entry, pairs[i].id);
    }
  }

  lemma SlotOfRun(pairs: seq<Pair>, k: nat, j: nat, entry: Pair)
    requires k < j <= |pairs| && SameSlot(pairs[k], entry)
    ensures FromPairs(pairs, j, entry)
  {
  }

  /** The inner loop: one id's run and its total. */
  method SumRun(pairs: seq<Pair>, pi: nat) returns (j: nat, score: real)
    requires pi < |pairs| && Boundary(pairs, pi)
    ensures IsNextRun(pairs, pi, j)
    ensures score == PairScore(pairs[pi..j], pairs[pi].id)
  {
    hide Boundary;
    var p := pairs[pi];
    score := p.score;
    j := pi + 1;
    assert pairs[pi..j] == [p] && [p][..0] == [];
    while j < |pairs| && pairs[j].id == p.id
      invariant pi < j <= |pairs|
      invariant forall i :: pi <= i < j ==> pairs[i].id == p.id
      invariant score == PairScore(pairs[pi..j], p.id)
    {
      assert pairs[pi..j + 1][..j - pi] == pairs[pi..j];
      score := score + pairs[j].score;
      j := j + 1;
    }
  }

  method MergeSorted(pairs: seq<Pair>) returns (merged: seq<Pair>)
    requires Sorted(pairs, IdLe)
    ensures Merged(pairs, |pairs|, merged)
  {
    hide Sorted, PairScore, FromPairs, HasId;
    merged := [];
    var pi := 0;
    while pi < |pairs|
      invariant pi <= |pairs| && Boundary(pairs, pi) && Merged(pairs, pi, merged)
    {
      var j, score := SumRun(pairs, pi);
      BoundaryStep(pairs, pi, j);
      MergeRun(pairs, pi, j, merged, score);
      merged := merged + [pairs[pi].(score := score)];
      pi := j;
    }
  }

  // ---------- From merged entries to hits ----------

  /** An entry with its fused score that names a hit of its id. */
  ghost predicate EntryOk(lex: seq<Hit>, vec: seq<Hit>, m: Pair) {
    && m.score == Fused(lex, vec, m.id)
    && match m.tag
       case Lex => m.idx < |lex| && lex[m.idx].id == m.id
       case Vec => m.idx < |vec| && vec[m.idx].id == m.id
  }

  ghost predicate EntriesOk(lex: seq<Hit>, vec: seq<Hit>, s: seq<Pair>) {
    && (forall a :: 0 <= a < |s| ==> EntryOk(lex, vec, s[a]))
    && (forall a, b :: 0 <= a < b < |s| ==> s[a].id != s[b].id)
  }

  ghost function PairIds(s: seq<Pair>): set<I64> {
    set a | 0 <= a < |s| :: s[a].id
  }

  lemma MergedEntryOk(lex: seq<Hit>, vec: seq<Hit>, lp: seq<Pair>, vp: seq<Pair>, pairs: seq<Pair>, m: Pair)
    requires PairsOf(lex, Lex, lp) && PairsOf(vec, Vec, vp) && Permutation(pairs, lp + vp)
    requires FromPairs(pairs, |pairs|, m) && m.score == PairScore(pairs, m.id)
    ensures EntryOk(lex, vec, m) && m.id in Ids(lex) + Ids(vec)
  {
    PermutationFacts(pairs, lp + vp);
    PairScorePermutes(pairs, lp + vp, m.id);
    PairScoreConcat(lp, vp, m.id);
    PairsGiveListScore(lex, Lex, lp, m.id);
    PairsGiveListScore(vec, Vec, vp, m.id);
    var i :| 0 <= i < |pairs| && SameSlot(pairs[i], m);
    assert pairs[i] in lp + vp;
    if pairs[i] in lp {
      var k :| 0 <= k < |lp| && lp[k] == pairs[i];
      assert lex[k].id in Ids(lex);
    } else {
      var k :| 0 <= k < |vp| && vp[k] == pairs[i];
      assert vec[k].id in Ids(vec);
    }
  }

  lemma HitIsMerged(hits: seq<Hit>, tag: Source, hp: seq<Pair>, pairs: seq<Pair>, merged: seq<Pair>, id: I64)
    requires PairsOf(hits, tag, hp) && (forall p :: p in hp ==> p in pairs) && id in Ids(hits)
    requires Merged(pairs, |pairs|, merged)
    ensures id in PairIds(merged)
  {
    var k :| 0 <= k < |hits| && hits[k].id == id;
    assert hp[k] in pairs;
    var i :| 0 <= i < |pairs| && pairs[i] == hp[k];
    assert HasId(merged, pairs[i].id);
  }

  /** The merged entries: one per distinct id, each with its fused score. */
  lemma MergedEntriesOk(lex: seq<Hit>, vec: seq<Hit>, lp: seq<Pair>, vp: seq<Pair>, pairs: seq<Pair>, merged: seq<Pair>)
    requires PairsOf(lex, Lex, lp) && PairsOf(vec, Vec, vp) && Permutation(pairs, lp + vp)
    requires Merged(pairs, |pairs|, merged)
    ensures EntriesOk(lex, vec, merged) && PairIds(merged) == Ids(lex) + Ids(vec)
  {
    hide PairsOf, FromPairs, Permutation, Fused, Ids;
    assert pairs[..|pairs|] == pairs;
    forall a | 0 <= a < |merged|
      ensures EntryOk(lex, vec, merged[a]) && merged[a].id in Ids(lex) + Ids(vec)
    {
      MergedEntryOk(lex, vec, lp, vp, pairs, merged[a]);
    }
    PermutationFacts(pairs, lp + vp);
    forall id | id in Ids(lex) + Ids(vec)
      ensures id in PairIds(merged)
    {
      if id in Ids(lex) {
        HitIsMerged(lex, Lex, lp, pairs, merged, id);
      } else {
        HitIsMerged(vec, Vec, vp, pairs, merged, id);
      }
    }
  }

  predicate ScoreGe(a: Pair, b: Pair) {
    a.score >= b.score
  }

  /** The best entries, best first. */
  ghost predicate IsTop(merged: seq<Pair>, limit: nat, top: seq<Pair>) {
    && |top| == Min(limit, |merged|)
    && (forall m :: m in top ==> m in merged)
    && (forall a, b :: 0 <= a < b < |top| ==> top[a].id != top[b].id && top[a].score >= top[b].score)
    && (forall m, a :: m in merged && m !in top && 0 <= a < |top| ==> m.score <= top[a].score)
  }

  method TakeTop(merged: seq<Pair>, limit: nat) returns (top: seq<Pair>)
    requires limit >= 1 || merged == []
    requires forall a, b :: 0 <= a < b < |merged| ==> merged[a].id != merged[b].id
    ensures IsTop(merged, limit, top)
  {
    var k := Min(limit, |merged|);
    ghost var dropped := [];
    var kept := merged;
    if k < |merged| {
      kept, dropped := SelectFirst(merged, k, ScoreGe);
    }
    assert merged + [] == merged;
    top := Sort(kept, ScoreGe);
    TopOf(merged, kept, dropped, top, k);
  }

  lemma TopOf(merged: seq<Pair>, kept: seq<Pair>, dropped: seq<Pair>, top: seq<Pair>, k: nat)
    requires forall a, b :: 0 <= a < b < |merged| ==> merged[a].id != merged[b].id
    requires |kept| == k <= |merged| && Permutation(kept + dropped, merged)
    requires forall x, y :: x in kept && y in dropped ==> ScoreGe(x, y)
    requires Permutation(top, kept) && Sorted(top, ScoreGe)
    ensures IsTop(merged, k, top)
  {
    PermutationFacts(kept + dropped, merged);
    PermutationFacts(top, kept);
    KeysStayDistinct(kept + dropped, merged, (p: Pair) => p.id);
    assert forall i :: 0 <= i < |kept| ==> (kept + dropped)[i] == kept[i];
    KeysStayDistinct(top, kept, (p: Pair) => p.id);
    forall a, b | 0 <= a < b < |top|
      ensures top[a].score >= top[b].score
    {
      assert ScoreGe(top[a], top[b]);
    }
    forall m, a | m in merged && m !in top && 0 <= a < |top|
      ensures m.score <= top[a].score
    {
      assert m in kept + dropped && m !in kept;
      assert top[a] in top && top[a] in kept && m in dropped;
      assert ScoreGe(top[a], m);
    }
  }

  /** The hit an entry names. */
  function SlotHit(lex: seq<Hit>, vec: seq<Hit>, m: Pair): Hit
    requires match m.tag case Lex => m.idx < |lex| case Vec => m.idx < |vec|
  {
    match m.tag case Lex => lex[m.idx] case Vec => vec[m.idx]
  }

  /** Rebuild the hits: every slot is taken once, so none is missing. */
  method TakeHits(lex: seq<Hit>, vec: seq<Hit>, top: seq<Pair>) returns (out: seq<Hit>)
    requires EntriesOk(lex, vec, top)
    ensures Rebuilt(lex, vec, top, out)
  {
    hide Fused;
    var lexOpt: seq<Option<Hit>> := seq(|lex|, i requires 0 <= i < |lex| => Some(lex[i]));
    var vecOpt: seq<Option<Hit>> := seq(|vec|, i requires 0 <= i < |vec| => Some(vec[i]));
    out := [];
    for i := 0 to |top|
      invariant |lexOpt| == |lex| && |vecOpt| == |vec| && |out| == i
      invariant forall a :: i <= a < |top| && top[a].tag.Lex? ==> lexOpt[top[a].idx] == Some(lex[top[a].idx])
      invariant forall a :: i <= a < |top| && top[a].tag.Vec? ==> vecOpt[top[a].idx] == Some(vec[top[a].idx])
      invariant forall k :: 0 <= k < i ==> out[k] == SlotHit(lex, vec, top[k]).(score := top[k].score)
    {
      var m := top[i];
      assert EntryOk(lex, vec, m);
      var taken: Option<Hit> := None;
      match m.tag {
        case Lex => taken, lexOpt := lexOpt[m.idx], lexOpt[m.idx := None];
        case Vec => taken, vecOpt := vecOpt[m.idx], vecOpt[m.idx := None];
      }
      if taken.Some? {
        out := out + [taken.value.(score := m.score)];
      }
    }
  }

  lemma {:induction false} DistinctIdCount(s: seq<Pair>)
    requires forall a, b :: 0 <= a < b < |s| ==> s[a].id != s[b].id
    ensures |PairIds(s)| == |s|
  {
    if s != [] {
      var n := |s| - 1;
      DistinctIdCount(s[..n]);
      assert PairIds(s) == PairIds(s[..n]) + {s[n].id};
      assert s[n].id !in PairIds(s[..n]);
    }
  }

  /** The hits in the answer carry their entries' ids and scores. */
  ghost predicate Rebuilt(lex: seq<Hit>, vec: seq<Hit>, top: seq<Pair>, out: seq<Hit>) {
    && |out| == |top|
    && forall i :: 0 <= i < |top| ==>
         EntryOk(lex, vec, top[i]) && out[i] == SlotHit(lex, vec, top[i]).(score := top[i].score)
  }

  lemma RebuiltHit(lex: seq<Hit>, vec: seq<Hit>, top: seq<Pair>, out: seq<Hit>, i: nat)
    requires Rebuilt(lex, vec, top, out) && i < |out|
    ensures IsScored(lex, vec, out[i]) && out[i].id == top[i].id && out[i].score == top[i].score
  {
    hide Fused;
    var g := SlotHit(lex, vec, top[i]);
    assert out[i] == g.(score := out[i].score);
  }

  /** An id left out has an entry left out. */
  lemma LeftOutLow(lex: seq<Hit>, vec: seq<Hit>, limit: nat, merged: seq<Pair>, top: seq<Pair>, out: seq<Hit>,
                   id: I64, i: nat)
    requires EntriesOk(lex, vec, merged) && id in PairIds(merged) && IsTop(merged, limit, top)
    requires Rebuilt(lex, vec, top, out) && id !in Ids(out) && i < |out|
    ensures Fused(lex, vec, id) <= out[i].score
  {
    hide Fused, Rebuilt;
    RebuiltLength(lex, vec, top, out);
    RebuiltHit(lex, vec, top, out, i);
    var a :| 0 <= a < |merged| && merged[a].id == id;
    var m := merged[a];
    assert m in merged && EntryOk(lex, vec, m);
    forall b | 0 <= b < |top|
      ensures top[b] != m
    {
      RebuiltHit(lex, vec, top, out, b);
      assert out[b].id in Ids(out);
    }
    assert m !in top;
  }

  lemma RebuiltLength(lex: seq<Hit>, vec: seq<Hit>, top: seq<Pair>, out: seq<Hit>)
    requires Rebuilt(lex, vec, top, out)
    ensures |out| == |top|
  {
  }

  lemma TopIsFusion(lex: seq<Hit>, vec: seq<Hit>, limit: nat, merged: seq<Pair>, top: seq<Pair>, out: seq<Hit>)
    requires EntriesOk(lex, vec, merged) && PairIds(merged) == Ids(lex) + Ids(vec)
    requires IsTop(merged, limit, top) && Rebuilt(lex, vec, top, out)
    ensures IsFusion(lex, vec, limit, out)
  {
    hide Fused, Rebuilt, EntriesOk, IsScored;
    RebuiltLength(lex, vec, top, out);
    DistinctEntries(lex, vec, merged);
    DistinctIdCount(merged);
    forall i | 0 <= i < |out|
      ensures IsScored(lex, vec, out[i]) && out[i].id == top[i].id && out[i].score == top[i].score
    {
      RebuiltHit(lex, vec, top, out, i);
    }
    hide Ids, PairIds;
    forall id, i | id in Ids(lex) + Ids(vec) && id !in Ids(out) && 0 <= i < |out|
      ensures Fused(lex, vec, id) <= out[i].score
    {
      LeftOutLow(lex, vec, limit, merged, top, out, id, i);
    }
  }

  lemma TopEntriesOk(lex: seq<Hit>, vec: seq<Hit>, merged: seq<Pair>, limit: nat, top: seq<Pair>)
    requires EntriesOk(lex, vec, merged) && IsTop(merged, limit, top)
    ensures EntriesOk(lex, vec, top)
  {
    forall a | 0 <= a < |top|
      ensures EntryOk(lex, vec, top[a])
    {
      assert top[a] in top && top[a] in merged;
    }
  }

  /** Sort-merge fusion. With hits to merge, the selection step needs a positive limit. */
  method RrfMerge(lex: seq<Hit>, vec: seq<Hit>, limit: nat) returns (out: seq<Hit>)
    requires limit >= 1 || (lex == [] && vec == [])
    ensures IsFusion(lex, vec, limit, out)
  {
    hide EntriesOk, Merged, PairsOf, IsTop, Fused, Ids, IsFusion, Rebuilt;
    var lp := MakePairs(lex, Lex);
    var vp := MakePairs(vec, Vec);
    var pairs := Sort(lp + vp, IdLe);
    var merged := MergeSorted(pairs);
    MergedEntriesOk(lex, vec, lp, vp, pairs, merged);
    EmptyMerged(lex, vec, merged);
    DistinctEntries(lex, vec, merged);
    var top := TakeTop(merged, limit);
    TopEntriesOk(lex, vec, merged, limit, top);
    out := TakeHits(lex, vec, top);
    TopIsFusion(lex, vec, limit, merged, top, out);
  }

  lemma EmptyMerged(lex: seq<Hit>, vec: seq<Hit>, merged: seq<Pair>)
    requires PairIds(merged) == Ids(lex) + Ids(vec) && EntriesOk(lex, vec, merged)
    ensures lex == [] && vec == [] ==> merged == []
  {
    hide Fused;
    if |merged| > 0 {
      assert EntryOk(lex, vec, merged[0]);
    }
  }

  lemma DistinctEntries(lex: seq<Hit>, vec: seq<Hit>, s: seq<Pair>)
    requires EntriesOk(lex, vec, s)
    ensures forall a, b :: 0 <= a < b < |s| ==> s[a].id != s[b].id
  {
  }

  // ---------- The map form ----------

  /** The map after the first k hits of a list, on top of what it held before. */
  ghost predicate Accumulated(before: map<I64, (real, Hit)>, hits: seq<Hit>, k: nat, scores: map<I64, (real, Hit)>)
    requires k <= |hits|
  {
    && scores.Keys == before.Keys + Ids(hits[..k])
    && forall id :: id in scores ==>
         && scores[id].0 == (if id in before then before[id].0 else 0.0) + ListScore(hits[..k], id)
         && scores[id].1.id == id
         && (scores[id].1 in hits || (id in before && scores[id].1 == before[id].1))
  }

  lemma {:induction false} AbsentScore(hits: seq<Hit>, id: I64)
    requires id !in Ids(hits)
    ensures ListScore(hits, id) == 0.0
  {
    if hits != [] {
      var n := |hits| - 1;
      assert hits[n].id in Ids(hits);
      forall x | x in Ids(hits[..n])
        ensures x in Ids(hits)
      {
        var i :| 0 <= i < n && hits[..n][i].id == x;
        assert hits[i].id == x;
      }
      AbsentScore(hits[..n], id);
    }
  }

  lemma AccumulateStep(before: map<I64, (real, Hit)>, hits: seq<Hit>, k: nat, scores: map<I64, (real, Hit)>)
    requires k < |hits| && Accumulated(before, hits, k, scores)
    ensures var h := hits[k];
      Accumulated(before, hits, k + 1, scores[h.id :=
        if h.id in scores then (scores[h.id].0 + RankScore(k), scores[h.id].1) else (RankScore(k), h)])
  {
    hide RankScore, Ids, ListScore;
    var h := hits[k];
    OneMoreHit(hits, k);
    if h.id !in scores {
      AbsentScore(hits[..k], h.id);
    }
    forall id
      ensures ListScore(hits[..k + 1], id) == ListScore(hits[..k], id) + if h.id == id then RankScore(k) else 0.0
    {
      ScoreStep(hits, k, id);
    }
  }

  lemma ScoreStep(hits: seq<Hit>, k: nat, id: I64)
    requires k < |hits|
    ensures ListScore(hits[..k + 1], id) == ListScore(hits[..k], id) + if hits[k].id == id then RankScore(k) else 0.0
  {
    assert hits[..k + 1][..k] == hits[..k];
  }

  lemma OneMoreHit(hits: seq<Hit>, k: nat)
    requires k < |hits|
    ensures Ids(hits[..k + 1]) == Ids(hits[..k]) + {hits[k].id}
  {
    var before, after := hits[..k], hits[..k + 1];
    assert forall i :: 0 <= i < k ==> before[i] == after[i];
    assert after[k] == hits[k];
    forall x | x in Ids(before)
      ensures x in Ids(after)
    {
      var i :| 0 <= i < k && before[i].id == x;
      assert after[i].id == x;
    }
  }

  lemma NothingAccumulated(before: map<I64, (real, Hit)>, hits: seq<Hit>)
    requires forall id :: id in before ==> before[id].1.id == id
    ensures Accumulated(before, hits, 0, before)
  {
  }

  method Accumulate(before: map<I64, (real, Hit)>, hits: seq<Hit>) returns (scores: map<I64, (real, Hit)>)
    requires forall id :: id in before ==> before[id].1.id == id
    ensures Accumulated(before, hits, |hits|, scores)
  {
    hide RankScore, Accumulated;
    scores := before;
    NothingAccumulated(before, hits);
    for i := 0 to |hits|
      invariant Accumulated(before, hits, i, scores)
    {
      var h, s := hits[i], RankScore(i);
      AccumulateStep(before, hits, i, scores);
      scores := scores[h.id := if h.id in scores then (scores[h.id].0 + s, scores[h.id].1) else (s, h)];
    }
  }

  /** The map's values with their scores filled in. */
  ghost predicate ListsMap(scores: map<I64, (real, Hit)>, list: seq<Hit>) {
    && |list| == |scores|
    && (forall i :: 0 <= i < |list| ==>
         list[i].id in scores && list[i] == scores[list[i].id].1.(score := scores[list[i].id].0))
    && (forall i, j :: 0 <= i < j < |list| ==> list[i].id != list[j].id)
    && (forall id :: id in scores ==> exists i :: 0 <= i < |list| && list[i].id == id)
  }

  method IntoValues(scores: map<I64, (real, Hit)>) returns (list: seq<Hit>)
    requires forall id :: id in scores ==> scores[id].1.id == id
    ensures ListsMap(scores, list)
  {
    list := [];
    var todo := scores.Keys;
    while todo != {}
      invariant todo <= scores.Keys && |list| + |todo| == |scores.Keys|
      invariant forall i :: 0 <= i < |list| ==>
        list[i].id in scores && list[i].id !in todo && list[i] == scores[list[i].id].1.(score := scores[list[i].id].0)
      invariant forall i, j :: 0 <= i < j < |list| ==> list[i].id != list[j].id
      invariant forall id :: id in scores && id !in todo ==> exists i :: 0 <= i < |list| && list[i].id == id
      decreases |todo|
    {
      var id := AnyOf(todo);
      ghost var was := list;
      list := list + [scores[id].1.(score := scores[id].0)];
      assert forall i :: 0 <= i < |was| ==> list[i] == was[i];
      assert list[|was|].id == id;
      todo := todo - {id};
    }
  }

  predicate HitScoreGe(a: Hit, b: Hit) {
    a.score >= b.score
  }

  /** Map accumulation, the reference form. */
  method RrfMap(lex: seq<Hit>, vec: seq<Hit>, limit: nat) returns (out: seq<Hit>)
    ensures IsFusion(lex, vec, limit, out)
  {
    hide Accumulated, ListsMap, IsFusion;
    var first := Accumulate(map[], lex);
    AccumulatedIds(map[], lex, first);
    var scores := Accumulate(first, vec);
    AccumulatedIds(first, vec, scores);
    var list := IntoValues(scores);
    var sorted := Sort(list, HitScoreGe);
    out := sorted[..Min(limit, |sorted|)];
    MapIsFusion(lex, vec, limit, first, scores, list, sorted);
  }

  lemma AccumulatedIds(before: map<I64, (real, Hit)>, hits: seq<Hit>, scores: map<I64, (real, Hit)>)
    requires Accumulated(before, hits, |hits|, scores)
    ensures forall id :: id in scores ==> scores[id].1.id == id
  {
    hide ListScore;
  }

  /** Every entry of the full map has its fused score and an input hit. */
  lemma MapScores(lex: seq<Hit>, vec: seq<Hit>, first: map<I64, (real, Hit)>, scores: map<I64, (real, Hit)>)
    requires Accumulated(map[], lex, |lex|, first) && Accumulated(first, vec, |vec|, scores)
    ensures scores.Keys == Ids(lex) + Ids(vec)
    ensures forall id :: id in scores ==>
      scores[id].0 == Fused(lex, vec, id) && (scores[id].1 in lex || scores[id].1 in vec)
  {
    hide ListScore, Ids;
    assert lex[..|lex|] == lex && vec[..|vec|] == vec;
    forall id | id in scores && id !in first
      ensures ListScore(lex, id) == 0.0
    {
      AbsentScore(lex, id);
    }
  }

  /** A listed value is an input hit with its fused score. */
  lemma ListedIsScored(lex: seq<Hit>, vec: seq<Hit>, scores: map<I64, (real, Hit)>, list: seq<Hit>, h: Hit)
    requires forall id :: id in scores ==>
      scores[id].0 == Fused(lex, vec, id) && (scores[id].1 in lex || scores[id].1 in vec)
    requires ListsMap(scores, list) && h in list
    ensures IsScored(lex, vec, h)
  {
    hide Fused;
    var i :| 0 <= i < |list| && list[i] == h;
    var g := scores[h.id].1;
    assert h == g.(score := h.score);
  }

  /** A prefix of the sorted values leaves out nothing better. */
  lemma OmittedNoBetter(scores: map<I64, (real, Hit)>, list: seq<Hit>, sorted: seq<Hit>, k: nat, id: I64, i: nat)
    requires ListsMap(scores, list) && Permutation(sorted, list) && Sorted(sorted, HitScoreGe)
    requires i < k <= |sorted| && id in scores && id !in Ids(sorted[..k])
    ensures scores[id].0 <= sorted[i].score
  {
    PermutationFacts(sorted, list);
    var a :| 0 <= a < |list| && list[a].id == id;
    assert list[a] in sorted;
    var b :| 0 <= b < |sorted| && sorted[b] == list[a];
    forall c | 0 <= c < k
      ensures sorted[c].id != id
    {
      assert sorted[..k][c].id in Ids(sorted[..k]);
    }
    assert HitScoreGe(sorted[i], sorted[b]);
  }

  lemma MapIsFusion(lex: seq<Hit>, vec: seq<Hit>, limit: nat, first: map<I64, (real, Hit)>,
                    scores: map<I64, (real, Hit)>, list: seq<Hit>, sorted: seq<Hit>)
    requires Accumulated(map[], lex, |lex|, first) && Accumulated(first, vec, |vec|, scores)
    requires ListsMap(scores, list) && Permutation(sorted, list) && Sorted(sorted, HitScoreGe)
    ensures IsFusion(lex, vec, limit, sorted[..Min(limit, |sorted|)])
  {
    hide Accumulated, Fused, IsScored, Ids, Permutation, Sorted, ListsMap;
    var out := sorted[..Min(limit, |sorted|)];
    MapScores(lex, vec, first, scores);
    SortedList(scores, list, sorted);
    forall i | 0 <= i < |out|
      ensures IsScored(lex, vec, out[i])
    {
      ListedIsScored(lex, vec, scores, list, sorted[i]);
    }
    forall id, i | id in Ids(lex) + Ids(vec) && id !in Ids(out) && 0 <= i < |out|
      ensures Fused(lex, vec, id) <= out[i].score
    {
      OmittedNoBetter(scores, list, sorted, |out|, id, i);
    }
  }

  lemma SortedList(scores: map<I64, (real, Hit)>, list: seq<Hit>, sorted: seq<Hit>)
    requires ListsMap(scores, list) && Permutation(sorted, list) && Sorted(sorted, HitScoreGe)
    ensures |sorted| == |list| == |scores.Keys| && forall i :: 0 <= i < |sorted| ==> sorted[i] in list
    ensures forall i, j :: 0 <= i < j < |sorted| ==> sorted[i].id != sorted[j].id && sorted[i].score >= sorted[j].score
  {
    PermutationFacts(sorted, list);
    KeysStayDistinct(sorted, list, (h: Hit) => h.id);
    forall i, j | 0 <= i < j < |sorted|
      ensures sorted[i].score >= sorted[j].score
    {
      assert HitScoreGe(sorted[i], sorted[j]);
    }
    forall i | 0 <= i < |sorted|
      ensures sorted[i] in list
    {
      assert sorted[i] in sorted;
    }
  }

  // ---------- Both forms agree ----------

  lemma {:induction false} DistinctHitCount(s: seq<Hit>)
    requires forall a, b :: 0 <= a < b < |s| ==> s[a].id != s[b].id
    ensures |Ids(s)| == |s|
  {
    if s != [] {
      var n := |s| - 1;
      DistinctHitCount(s[..n]);
      assert Ids(s) == Ids(s[..n]) + {s[n].id};
      assert s[n].id !in Ids(s[..n]);
    }
  }

  lemma SubsetCount(a: set<I64>, b: set<I64>)
    requires a <= b
    ensures |a| <= |b|
  {
    assert b == a + (b - a);
  }

  /** The i-th score of one answer cannot exceed that of another. */
  lemma NoHigher(lex: seq<Hit>, vec: seq<Hit>, limit: nat, out: seq<Hit>, out': seq<Hit>, i: nat)
    requires IsFusion(lex, vec, limit, out) && IsFusion(lex, vec, limit, out') && i < |out|
    ensures out[i].score <= out'[i].score
  {
    hide Fused, IsScored;
    if out[i].score > out'[i].score {
      var ahead, ahead' := out[..i + 1], out'[..i];
      forall id | id in Ids(ahead)
        ensures id in Ids(ahead')
      {
        var k :| 0 <= k < i + 1 && ahead[k].id == id;
        AlsoAhead(lex, vec, limit, out, out', i, k);
      }
      hide IsFusion;
      DistinctHitCount(ahead);
      DistinctHitCount(ahead');
      SubsetCount(Ids(ahead), Ids(ahead'));
    }
  }

  /** A hit that outscores the i-th of another answer stands before it there. */
  lemma AlsoAhead(lex: seq<Hit>, vec: seq<Hit>, limit: nat, out: seq<Hit>, out': seq<Hit>, i: nat, k: nat)
    requires IsFusion(lex, vec, limit, out) && IsFusion(lex, vec, limit, out') && k <= i < |out| && i < |out'|
    requires out[i].score > out'[i].score
    ensures out[k].id in Ids(out'[..i])
  {
    hide Fused, IsScored, Ids;
    var id := out[k].id;
    ScoredIsInput(lex, vec, out[k]);
    assert Fused(lex, vec, id) == out[k].score >= out[i].score;
    assert id in Ids(out');
    var m := PlaceOf(out', id);
    ScoredIsInput(lex, vec, out'[m]);
    assert m < i;
    PlaceGives(out'[..i], m);
  }

  lemma PlaceOf(hits: seq<Hit>, id: I64) returns (m: nat)
    requires id in Ids(hits)
    ensures m < |hits| && hits[m].id == id
  {
    m :| 0 <= m < |hits| && hits[m].id == id;
  }

  lemma PlaceGives(hits: seq<Hit>, m: nat)
    requires m < |hits|
    ensures hits[m].id in Ids(hits)
  {
  }

  lemma ScoredIsInput(lex: seq<Hit>, vec: seq<Hit>, h: Hit)
    requires IsScored(lex, vec, h)
    ensures h.score == Fused(lex, vec, h.id)
    ensures h.id in Ids(lex) + Ids(vec)
  {
    var g: Hit :| (g in lex || g in vec) && h == g.(score := h.score);
    if g in lex {
      var i :| 0 <= i < |lex| && lex[i] == g;
      assert lex[i].id in Ids(lex);
    } else {
      var i :| 0 <= i < |vec| && vec[i] == g;
      assert vec[i].id in Ids(vec);
    }
  }

  /** Any two answers, of either form, have the same scores place by place; only ties may name other ids. */
  lemma FusionsAgree(lex: seq<Hit>, vec: seq<Hit>, limit: nat, out: seq<Hit>, out': seq<Hit>)
    requires IsFusion(lex, vec, limit, out) && IsFusion(lex, vec, limit, out')
    ensures |out| == |out'|
    ensures forall i :: 0 <= i < |out| ==> out[i].score == out'[i].score
  {
    forall i | 0 <= i < |out|
      ensures out[i].score == out'[i].score
    {
      NoHigher(lex, vec, limit, out, out', i);
      NoHigher(lex, vec, limit, out', out, i);
    }
  }
}
