/** The memory layer as it runs: tables updated in place, statement by statement. */
module MemoryStore {
  import opened Prelude
  import opened Text
  import opened Sorting
  import opened Clustering
  import opened MemoryTables
  import opened MemoryOps
  import opened MemoryEffects
  import opened Compaction

  /** `picked` was taken from `ids`, newest first, and `rest` is left. */
  ghost predicate PickedFrom(memories: map<Id, Memory>, ids: set<Id>, rest: set<Id>, picked: seq<Id>) {
    && ids <= memories.Keys && rest <= ids && |picked| + |rest| == |ids| && NoRepeats(picked)
    && (forall x :: x in picked <==> x in ids && x !in rest)
    && (forall i :: 0 <= i < |picked| ==> picked[i] in memories)
    && (forall i, j :: 0 <= i < j < |picked| ==>
          memories[picked[j]].updatedTs <= memories[picked[i]].updatedTs)
    && (forall x, y :: x in picked && y in rest ==> memories[y].updatedTs <= memories[x].updatedTs)
  }

  lemma PickOne(t: Tables, ids: set<Id>, rest: set<Id>, picked: seq<Id>, x: Id)
    requires PickedFrom(t.memories, ids, rest, picked) && IsNewest(t, rest, x)
    ensures PickedFrom(t.memories, ids, rest - {x}, picked + [x])
  {
    assert x !in picked;
    forall i | 0 <= i < |picked|
      ensures t.memories[x].updatedTs <= t.memories[picked[i]].updatedTs
    {
      assert picked[i] in picked;
    }
  }

  lemma PickedEnough(t: Tables, ids: set<Id>, rest: set<Id>, limit: nat, picked: seq<Id>)
    requires PickedFrom(t.memories, ids, rest, picked) && |picked| <= limit && (rest == {} || |picked| == limit)
    ensures NewestFirst(t, ids, limit, picked)
  {
  }

  class Store {
    var docs: map<Id, string>
    var memories: map<Id, Memory>
    var edges: map<EdgeKey, Edge>
    var queue: map<Id, QueueItem>

    function State(): Tables
      reads this
    {
      Tables(docs, memories, edges, queue)
    }

    ghost predicate Valid()
      reads this
    {
      Inv(State())
    }

    constructor ()
      ensures Valid() && State() == Tables(map[], map[], map[], map[])
    {
      docs, memories, edges, queue := map[], map[], map[], map[];
    }

    /** The row id of the next insert: one past the largest in use, which a delete may have freed before. */
    method NextId() returns (id: Id)
      ensures id !in memories && id >= 1
      ensures forall x :: x in memories ==> x < id
    {
      id := 1;
      var todo := memories.Keys;
      while todo != {}
        invariant todo <= memories.Keys && id >= 1
        invariant forall x :: x in memories && x !in todo ==> x < id
        decreases |todo|
      {
        var x := AnyOf(todo);
        todo := todo - {x};
        if x >= id { id := x + 1; }
      }
    }

    /** `ORDER BY updated_ts DESC LIMIT limit` over a set of rows. */
    method PickNewest(ids: set<Id>, limit: nat) returns (picked: seq<Id>)
      requires ids <= memories.Keys
      ensures NewestFirst(State(), ids, limit, picked)
    {
      hide Inv, IsNewest;
      picked := [];
      var rest := ids;
      while rest != {} && |picked| < limit
        invariant PickedFrom(memories, ids, rest, picked) && |picked| <= limit
        decreases |rest|
      {
        var x := NewestOf(rest);
        PickOne(State(), ids, rest, picked, x);
        picked, rest := picked + [x], rest - {x};
      }
      PickedEnough(State(), ids, rest, limit, picked);
    }

    /** `ORDER BY updated_ts DESC LIMIT 1`. */
    method NewestOf(ids: set<Id>) returns (x: Id)
      requires ids != {} && ids <= memories.Keys
      ensures IsNewest(State(), ids, x)
    {
      x := AnyOf(ids);
      var todo := ids - {x};
      while todo != {}
        invariant todo <= ids && x in ids
        invariant forall y :: y in ids && y !in todo ==> memories[y].updatedTs <= memories[x].updatedTs
        decreases |todo|
      {
        var y := AnyOf(todo);
        todo := todo - {y};
        if memories[y].updatedTs > memories[x].updatedTs { x := y; }
      }
    }

    method PutMemory(doc: Id, kind: MemoryType, entity: Option<Id>, tags: Option<string>, confidence: real,
                     date: Option<string>, ts: int)
      returns (id: Id)
      requires Valid()
      modifies this`memories
      ensures Valid()
      ensures id !in old(memories)
      ensures State() == Insert(old(State()), id, NewMemory(doc, kind, entity, tags, confidence, date, ts))
      ensures memories.Keys == old(memories).Keys + {id} && forall x :: x in old(memories) ==>
        memories[x] == old(memories)[x]
      ensures IsNewRow(memories[id], doc, kind, entity, tags, confidence, date, ts)
    {
      id := NextId();
      InsertKeeps(State(), id, NewMemory(doc, kind, entity, tags, confidence, date, ts));
      memories := memories[id := NewMemory(doc, kind, entity, tags, confidence, date, ts)];
    }

    method EnsureRawMemory(doc: Id, ts: int) returns (id: Id)
      requires Valid()
      modifies this`memories
      ensures Valid()
      ensures EnsuresRaw(old(State()), doc, ts, State(), id)
    {
      var existing := RawOf(State(), doc);
      if existing != {} {
        id := AnyOf(existing);
      } else {
        id := PutMemory(doc, Raw, None, None, 1.0, None, ts);
      }
    }

    /** Idempotent: the queue keeps the first entry of a document, and an active raw row is not doubled. */
    method EnsureRawMemoryAndEnqueue(doc: Id, ts: int) returns (id: Id)
      requires Valid()
      modifies this`memories, this`queue
      ensures Valid()
      ensures State().queue == Enqueue(old(State()), doc, ts).queue
      ensures EnsuresRaw(old(State()), doc, ts, State().(queue := old(queue)), id)
      ensures Ensured(old(State()), State(), doc, ts, id)
    {
      hide Inv, EnsuresRaw, Ensured;
      ghost var t := State();
      id := EnsureRawMemory(doc, ts);
      QueueKeeps(State(), Enqueue(State(), doc, ts).queue, docs);
      EnsureMeans(t, State(), doc, ts, id);
      if doc !in queue {
        queue := queue[doc := QueueItem(ts, 0, None, "pending")];
      }
    }

    /** Checks nothing: keeping the forest is up to the callers. */
    method SupersedeRow(older: Id, newer: Id, ts: int)
      modifies this`memories, this`edges
      ensures State() == Supersede(old(State()), older, newer, ts)
    {
      if older in memories {
        memories := memories[older := memories[older].(supersededBy := Some(newer), updatedTs := ts)];
      }
      var key := EdgeKey(newer, older, SUPERSEDES);
      if key !in edges {
        edges := edges[key := Edge(1.0, ts)];
      }
    }

    /** The row a promotion rewrites, or a new one. */
    method RetypeRow(p: Promotion, ts: int) returns (id: Id)
      modifies this`memories, this`queue
      ensures PromotionRow(old(State()), p, id)
      ensures State() == Retype(old(State()), p, ts, id)
    {
      var ids := Promotable(State(), p.doc);
      if ids != {} {
        var raw := RawOf(State(), p.doc);
        id := NewestOf(if raw != {} then raw else ids);
        memories := memories[id := memories[id].(kind := p.kind, weight := p.kind.DefaultWeight(),
          confidence := p.confidence, eventDate := p.date, updatedTs := ts)];
      } else {
        id := NextId();
        memories := memories[id := NewMemory(p.doc, p.kind, None, None, p.confidence, p.date, ts)];
      }
      queue := queue[p.doc := if p.doc in queue then queue[p.doc].(status := "promoted", lastError := None)
                              else QueueItem(ts, 0, None, "promoted")];
    }

    /** Promote in one transaction; no result means an error, and then nothing changed. */
    method PromoteDocMemory(p: Promotion, ts: int) returns (result: Option<Id>, ghost id: Id, ghost older: Option<Id>)
      requires Valid()
      modifies this`memories, this`edges, this`queue
      ensures Valid()
      ensures Refused(p) || PromotionChoice(old(State()), p, ts, id, older)
      ensures (State(), result) == Promote(old(State()), p, ts, id, older)
      ensures result.None? <==> CannotPromote(old(State()), p)
      ensures result.None? ==> State() == old(State())
      ensures result.Some? ==> Promoted(old(State()), State(), p, ts, result.value, older)
      ensures result.Some? ==> result.value in ActiveOf(State(), p.doc)
      ensures result.Some? && p.supersedes.Some? ==> memories[older.value].supersededBy == result
    {
      hide Inv, Retype, Supersede, IsPromoted, Promoted, CannotPromote;
      id, older := 0, None;
      if !(0.0 <= p.confidence <= 1.0) || p.supersedes == Some(p.doc) {
        PromotionFails(State(), p);
        return None, id, older;
      }
      ghost var t := State();
      var saved := (memories, edges, queue);
      var row := RetypeRow(p, ts);
      id := row;
      if p.supersedes.Some? {
        var ids := ActiveOf(State(), p.supersedes.value);
        if ids == {} {
          memories, edges, queue := saved.0, saved.1, saved.2;
          PromoteMeans(t, p, ts, id, older);
          return None, id, older;
        }
        var oldRow := NewestOf(ids);
        older := Some(oldRow);
        SupersedeRow(oldRow, row, ts);
      }
      result := Some(row);
      PromoteKeeps(t, p, ts, id, older);
      PromoteMeans(t, p, ts, id, older);
    }

    /** The first candidate of highest similarity in the window. */
    method FindEvolveTarget(text: string, candidates: seq<Id>, cfg: EvolveCfg) returns (target: Option<Id>)
      ensures IsTarget(State(), text, cfg, candidates, target)
      ensures MostSimilar(State(), text, cfg, candidates, target)
    {
      hide Jaccard;
      target := None;
      for k := 0 to |candidates|
        invariant IsTarget(State(), text, cfg, candidates[..k], target)
        invariant MostSimilar(State(), text, cfg, candidates[..k], target)
      {
        var d := candidates[k];
        var better := InWindow(State(), text, cfg, d)
          && (target.None? || Jaccard(text, docs[d]) > Jaccard(text, docs[target.value]));
        TargetStep(State(), text, cfg, candidates[..k], target, d);
        MostSimilarStep(State(), text, cfg, candidates[..k], target, d);
        if better {
          target := Some(d);
        }
        assert candidates[..k + 1] == candidates[..k] + [d];
      }
      assert candidates[..|candidates|] == candidates;
    }

    /** Evolve on ingest. `mergeOk` says whether the text-merge hook succeeds; if not, the insert stays. */
    method EvolveOnIngest(doc: Id, text: string, kind: MemoryType, cfg: EvolveCfg, mergeOk: bool, ts: int)
      returns (result: Option<Id>, ghost id: Id, ghost picks: seq<Id>, ghost candidates: seq<Id>,
               ghost found: Option<Id>, ghost older: Option<Id>)
      requires Valid()
      modifies this`memories, this`edges
      ensures Valid()
      ensures var m := NewMemory(doc, kind, None, None, 1.0, None, ts);
        && EvolveChoice(old(State()), doc, text, m, cfg, id, picks, candidates, found, older)
        && (State(), result) == Evolve(old(State()), m, id, found, older, mergeOk, ts)
      ensures MostSimilar(old(State()), text, cfg, candidates, found)
      ensures Evolved(old(State()), State(), doc, kind, id, found, older, mergeOk, ts)
      ensures result == if found.Some? && !mergeOk then None else Some(id)
      ensures id in ActiveOf(State(), doc)
    {
      hide Inv, NewestFirst, IsTarget, Supersede, MostSimilar, Evolved, IsNewRow;
      ghost var t := State();
      ghost var m := NewMemory(doc, kind, None, None, 1.0, None, ts);
      var picked := PickNewest(Active(State()) - ActiveOf(State(), doc), cfg.maxCandidates);
      PickedAreRows(State(), Active(State()) - ActiveOf(State(), doc), cfg.maxCandidates, picked);
      var cand := seq(|picked|, k requires 0 <= k < |picked| && picked[k] in memories reads this =>
        memories[picked[k]].docId);
      picks, candidates := picked, cand;
      var target := FindEvolveTarget(text, cand, cfg);
      found, older := target, None;
      var newMid := PutMemory(doc, kind, None, None, 1.0, None, ts);
      id := newMid;
      result := Some(newMid);
      if target.Some? {
        var ids := ActiveOf(State(), target.value);
        if ids != {} {
          var oldMid := NewestOf(ids);
          older := Some(oldMid);
          if mergeOk {
            SupersedeRow(oldMid, newMid, ts);
          }
        }
        if !mergeOk { result := None; }
      }
      EvolveKeeps(t, doc, text, m, cfg, id, picks, candidates, found, older, mergeOk, ts);
      EvolveMeans(t, doc, text, kind, cfg, id, picks, candidates, found, older, mergeOk, ts);
    }

    /** The compaction window: newest active memories with their document texts. */
    method FetchWindow(maxRows: nat) returns (rows: seq<Row>)
      ensures IsWindow(State(), maxRows, rows)
    {
      var ids := JoinedActive(State());
      var picked := PickNewest(ids, maxRows);
      PickedAreRows(State(), JoinedActive(State()), maxRows, picked);
      rows := seq(|picked|, k requires 0 <= k < |picked| && picked[k] in memories &&
        memories[picked[k]].docId in docs reads this =>
        Row(picked[k], docs[memories[picked[k]].docId]));
      assert RowIds(rows) == picked;
    }

    /** Put every member of the group but the largest under the largest. */
    method FoldOne(group: seq<Id>, clock: Id -> int) returns (n: nat)
      requires GroupOk(State(), group)
      modifies this`memories, this`edges
      ensures State() == FoldGroup(old(State()), group, MaxOf(group), |group|, clock)
      ensures n == |PrefixSet(group, |group|) - {MaxOf(group)}|
    {
      hide Inv, Supersede, Active;
      var rep := MaxOf(group);
      n := 0;
      for j := 0 to |group|
        invariant State() == FoldGroup(old(State()), group, rep, j, clock)
        invariant n == |PrefixSet(group, j) - {rep}|
      {
        var mid := group[j];
        PrefixCount(group, rep, j);
        if mid == rep {
          continue;
        }
        SupersedeRow(mid, rep, clock(mid));
        n := n + 1;
      }
    }

    /**
     Compact a window. `summarizes` is the summary hook's verdict on a group's
     texts; when it fails the groups folded before stay folded and there is no count.
     */
    method Compact(threshold: real, maxRows: nat, summarizes: seq<string> -> bool, clock: Id -> int)
      returns (count: Option<nat>, ghost rows: seq<Row>, ghost groups: seq<seq<Id>>, ghost reps: seq<nat>,
               ghost done: nat)
      requires Valid()
      modifies this`memories, this`edges
      ensures Valid()
      ensures IsWindow(old(State()), maxRows, rows)
      ensures AreComponents(rows, SimilarityGraph(rows, threshold), groups, reps)
      ensures done <= |groups| && State() == FoldGroups(old(State()), groups, done, clock)
      ensures count.Some? ==> Compacted(old(State()), State(), rows, SimilarityGraph(rows, threshold), clock)
      ensures count.Some? ==> Folds(old(State()), State(), rows, SimilarityGraph(rows, threshold), clock)
      ensures count.Some? ==> count.value == |rows| - |Components(SimilarityGraph(rows, threshold))|
      ensures count.None? ==> done < |groups| && !summarizes(GroupTexts(State(), groups[done]))
    {
      hide Inv, Folded, Compacted, Folds, IsWindow;
      hide AreComponents, FoldGroup, SimilarityGraph, Losers, GroupsOk, GroupOk;
      ghost var t := State();
      var window := FetchWindow(maxRows);
      var clusters, picks := ClusterForCompact(window, threshold);
      rows, groups, reps, done := window, clusters, picks, 0;
      WindowFoldable(t, maxRows, rows, threshold, groups, reps);
      var superseded := 0;
      NoLosersYet(groups);
      for k := 0 to |clusters|
        invariant State() == FoldGroups(t, groups, k, clock)
        invariant superseded == |Losers(groups, k)|
      {
        done := k;
        if !summarizes(GroupTexts(State(), clusters[k])) {
          FoldGroupsKeeps(t, groups, k, clock);
          return None, rows, groups, reps, done;
        }
        NextFoldable(t, groups, k, clock);
        var n := FoldOne(clusters[k], clock);
        superseded := superseded + n;
      }
      done := |clusters|;
      FoldGroupsKeeps(t, groups, done, clock);
      FullyFolded(t, maxRows, rows, threshold, groups, reps, clock);
      WindowFolds(t, State(), maxRows, rows, threshold, clock);
      count := Some(superseded);
    }

    /** When the first window holds every active row, a second compaction finds nothing to do. */
    method CompactTwice(threshold: real, maxRows: nat, again: nat, summarizes: seq<string> -> bool, clock: Id -> int)
      returns (first: Option<nat>, second: Option<nat>, ghost between: Tables)
      requires Valid() && maxRows >= |JoinedActive(State())|
      modifies this`memories, this`edges
      ensures Valid()
      ensures first.Some? ==> second == Some(0) && State() == between
    {
      hide Inv, Compacted, Folds, IsWindow, AreComponents, FoldGroup, SimilarityGraph, Components;
      ghost var t := State();
      ghost var rows, groups, reps, done;
      first, rows, groups, reps, done := Compact(threshold, maxRows, summarizes, clock);
      between := State();
      ghost var rows', groups', reps', done';
      second, rows', groups', reps', done' := Compact(threshold, again, summarizes, clock);
      if first.Some? {
        SecondRun(t, between, maxRows, rows, clock, again, rows', threshold, groups', reps');
      }
    }

    /**
     Delete a document with all its memories, in one transaction. `hadVector` says
     whether a stored vector of that id was deleted, which counts as having existed.
     */
    method Delete(doc: Id, hadVector: bool) returns (existed: bool)
      requires Valid()
      modifies this
      ensures Valid()
      ensures State() == DeleteDoc(old(State()), doc)
      ensures Deleted(old(State()), State(), doc)
      ensures existed <==> doc in old(docs) || hadVector
    {
      hide Inv, ClearLinks, DropEdges, MemoriesOf, Deleted;
      DeleteKeeps(State(), doc);
      DeleteMeans(State(), doc);
      var gone := MemoriesOf(memories, doc);
      edges := DropEdges(edges, gone);
      memories := ClearLinks(memories, gone);
      memories := memories - gone;
      queue := queue - {doc};
      existed := doc in docs || hadVector;
      docs := docs - {doc};
    }
  }
}
