/**
 The operations of the memory layer as relations between table states. Choices
 that SQL leaves open (ties, fresh row ids) are left open here too. Any run of
 them, in any order, stays inside the invariant.
 */
module MemoryOps {
  import opened Prelude
  import opened Text
  import opened Sorting
  import opened MemoryTables

  // ---------- ensure ----------

  /** `ensure_raw_memory`: an active raw row of the document, created if there is none. */
  ghost predicate EnsuresRaw(t: Tables, doc: Id, ts: int, t': Tables, id: Id) {
    if RawOf(t, doc) != {} then id in RawOf(t, doc) && t' == t
    else id !in t.memories && t' == Insert(t, id, NewMemory(doc, Raw, None, None, 1.0, None, ts))
  }

  lemma EnsureKeeps(t: Tables, doc: Id, ts: int, t': Tables, id: Id)
    requires Inv(t) && EnsuresRaw(t, doc, ts, t', id)
    ensures Inv(t') && id in RawOf(t', doc) && t.memories.Keys <= t'.memories.Keys
  {
    if RawOf(t, doc) == {} {
      InsertKeeps(t, id, NewMemory(doc, Raw, None, None, 1.0, None, ts));
    }
  }

  // ---------- promote ----------

  datatype Promotion = Promotion(doc: Id, kind: MemoryType, confidence: real, date: Option<string>,
                                 supersedes: Option<Id>)

  predicate Refused(p: Promotion) {
    !(0.0 <= p.confidence <= 1.0) || p.supersedes == Some(p.doc)
  }

  /** The row a promotion writes: the best promotable one, or a fresh one if there is none. */
  ghost predicate PromotionRow(t: Tables, p: Promotion, id: Id) {
    if Promotable(t, p.doc) != {} then IsPromoted(t, p.doc, id) else id !in t.memories
  }

  /** First half of a promotion: row `id` becomes the typed memory of the document. */
  function Retype(t: Tables, p: Promotion, ts: int, id: Id): Tables {
    var row := if id in t.memories
               then t.memories[id].(kind := p.kind, weight := p.kind.DefaultWeight(), confidence := p.confidence,
                                    eventDate := p.date, updatedTs := ts)
               else NewMemory(p.doc, p.kind, None, None, p.confidence, p.date, ts);
    MarkPromoted(Insert(t, id, row), p.doc, ts)
  }

  /** `older` is what the query for the newest active row of `doc` may return. */
  ghost predicate NewestActive(t: Tables, doc: Id, older: Option<Id>) {
    if ActiveOf(t, doc) == {} then older.None? else older.Some? && IsNewest(t, ActiveOf(t, doc), older.value)
  }

  /** The rows chosen by the queries of a promotion that is not refused. */
  ghost predicate PromotionChoice(t: Tables, p: Promotion, ts: int, id: Id, older: Option<Id>) {
    && PromotionRow(t, p, id)
    && (p.supersedes.Some? ==> NewestActive(Retype(t, p, ts, id), p.supersedes.value, older))
  }

  /** `promote_doc_memory` for given choices; an error rolls the transaction back. */
  function Promote(t: Tables, p: Promotion, ts: int, id: Id, older: Option<Id>): (Tables, Option<Id>) {
    if Refused(p) then (t, None)
    else if p.supersedes.None? then (Retype(t, p, ts, id), Some(id))
    else if older.None? then (t, None)
    else (Supersede(Retype(t, p, ts, id), older.value, id, ts), Some(id))
  }

  lemma RetypeKeeps(t: Tables, p: Promotion, ts: int, id: Id)
    requires Inv(t) && PromotionRow(t, p, id)
    ensures Inv(Retype(t, p, ts, id)) && id in ActiveOf(Retype(t, p, ts, id), p.doc)
  {
    var t1 := Retype(t, p, ts, id);
    var row := t1.memories[id];
    if id in t.memories {
      UpdateKeeps(t, id, row);
    } else {
      InsertKeeps(t, id, row);
    }
    QueueKeeps(Insert(t, id, row), t1.queue, t1.docs);
  }

  /** A promotion keeps the invariant; on success its memory is an active row of the document. */
  lemma PromoteKeeps(t: Tables, p: Promotion, ts: int, id: Id, older: Option<Id>)
    requires Inv(t) && (Refused(p) || PromotionChoice(t, p, ts, id, older))
    ensures var (t', result) := Promote(t, p, ts, id, older);
      && Inv(t')
      && (result.None? ==> t' == t)
      && (result.Some? ==> id in ActiveOf(t', p.doc) && t'.memories[id].kind == p.kind)
      && (result.Some? && p.supersedes.Some? ==> t'.memories[older.value].supersededBy == Some(id))
  {
    if !Refused(p) {
      RetypeKeeps(t, p, ts, id);
      if p.supersedes.Some? && older.Some? {
        SupersedeKeeps(Retype(t, p, ts, id), older.value, id, ts);
      }
    }
  }

  // ---------- evolve ----------

  datatype EvolveCfg = EvolveCfg(lo: real, hi: real, maxCandidates: nat)

  /** A candidate document's similarity counts when it lies in the configured window. */
  predicate InWindow(t: Tables, text: string, cfg: EvolveCfg, doc: Id) {
    doc in t.docs && cfg.lo <= Jaccard(text, t.docs[doc]) <= cfg.hi
  }

  /** `find_evolve_target`: a candidate of highest similarity among those in the window. */
  ghost predicate IsTarget(t: Tables, text: string, cfg: EvolveCfg, candidates: seq<Id>, target: Option<Id>) {
    match target
    case None => forall d :: d in candidates ==> !InWindow(t, text, cfg, d)
    case Some(best) =>
      && best in candidates && InWindow(t, text, cfg, best)
      && forall d :: d in candidates && InWindow(t, text, cfg, d) ==>
           Jaccard(text, t.docs[d]) <= Jaccard(text, t.docs[best])
  }

  lemma TargetStep(t: Tables, text: string, cfg: EvolveCfg, candidates: seq<Id>, target: Option<Id>, d: Id)
    requires IsTarget(t, text, cfg, candidates, target)
    ensures IsTarget(t, text, cfg, candidates + [d],
                     if InWindow(t, text, cfg, d) &&
                       (target.None? || Jaccard(text, t.docs[d]) > Jaccard(text, t.docs[target.value]))
                     then Some(d) else target)
  {
    forall c | c in candidates + [d]
      ensures c in candidates || c == d
    {}
  }

  /** The ids an `ORDER BY updated_ts DESC LIMIT limit` over `ids` may return. */
  ghost predicate NewestFirst(t: Tables, ids: set<Id>, limit: nat, picked: seq<Id>) {
    && ids <= t.memories.Keys
    && NoRepeats(picked)
    && |picked| == Min(limit, |ids|)
    && (forall x :: x in picked ==> x in ids)
    && (forall i, j :: 0 <= i < j < |picked| ==> t.memories[picked[j]].updatedTs <= t.memories[picked[i]].updatedTs)
    && (forall x, y :: x in picked && y in ids && y !in picked ==> t.memories[y].updatedTs <= t.memories[x].updatedTs)
  }

  lemma PickedAreRows(t: Tables, ids: set<Id>, limit: nat, picked: seq<Id>)
    requires NewestFirst(t, ids, limit, picked)
    ensures forall k :: 0 <= k < |picked| ==> picked[k] in ids && picked[k] in t.memories
  {
    forall k | 0 <= k < |picked|
      ensures picked[k] in ids && picked[k] in t.memories
    {
      var x := picked[k];
      assert x in picked;
      assert x in ids;
    }
  }

  /** The documents of the newest active memories of other documents. */
  ghost predicate Candidates(t: Tables, doc: Id, cfg: EvolveCfg, picked: seq<Id>, docs: seq<Id>) {
    && NewestFirst(t, Active(t) - ActiveOf(t, doc), cfg.maxCandidates, picked)
    && |docs| == |picked|
    && forall k :: 0 <= k < |docs| ==> picked[k] in t.memories && docs[k] == t.memories[picked[k]].docId
  }

  /** A target belongs to another document, which still has an active memory. */
  lemma TargetIsOther(t: Tables, doc: Id, text: string, cfg: EvolveCfg, picked: seq<Id>, docs: seq<Id>, target: Id)
    requires Candidates(t, doc, cfg, picked, docs) && IsTarget(t, text, cfg, docs, Some(target))
    ensures target != doc && ActiveOf(t, target) != {}
  {
    PickedAreRows(t, Active(t) - ActiveOf(t, doc), cfg.maxCandidates, picked);
    var k :| 0 <= k < |docs| && docs[k] == target;
    assert picked[k] in Active(t) && picked[k] !in ActiveOf(t, doc);
    assert picked[k] in ActiveOf(t, target);
  }

  /** The rows chosen by the queries of an evolution. */
  ghost predicate EvolveChoice(t: Tables, doc: Id, text: string, m: Memory, cfg: EvolveCfg, id: Id, picked: seq<Id>,
                               docs: seq<Id>, target: Option<Id>, older: Option<Id>) {
    && id !in t.memories
    && Candidates(t, doc, cfg, picked, docs)
    && IsTarget(t, text, cfg, docs, target)
    && (target.Some? ==> NewestActive(Insert(t, id, m), target.value, older))
  }

  /** `evolve_on_ingest` for given choices: the insertion stays even when the merge hook fails. */
  function Evolve(t: Tables, m: Memory, id: Id, target: Option<Id>, older: Option<Id>, mergeOk: bool,
                  ts: int): (Tables, Option<Id>) {
    var t1 := Insert(t, id, m);
    if target.None? then (t1, Some(id))
    else if !mergeOk then (t1, None)
    else if older.None? then (t1, Some(id))
    else (Supersede(t1, older.value, id, ts), Some(id))
  }

  /** An evolution keeps the invariant, and a target found is really superseded by the new memory. */
  lemma EvolveKeeps(t: Tables, doc: Id, text: string, m: Memory, cfg: EvolveCfg, id: Id, picked: seq<Id>,
                    docs: seq<Id>, target: Option<Id>, older: Option<Id>, mergeOk: bool, ts: int)
    requires Inv(t) && m.docId == doc && m.supersededBy.None?
    requires EvolveChoice(t, doc, text, m, cfg, id, picked, docs, target, older)
    ensures var (t', result) := Evolve(t, m, id, target, older, mergeOk, ts);
      && Inv(t') && id in ActiveOf(t', doc)
      && (target.Some? && mergeOk ==> older.Some? && t'.memories[older.value].supersededBy == Some(id)
                                      && t.memories[older.value].docId == target.value)
  {
    hide Inv, IsTarget, NewestFirst, Candidates;
    var t1 := Insert(t, id, m);
    InsertKeeps(t, id, m);
    if target.Some? {
      TargetIsOther(t, doc, text, cfg, picked, docs, target.value);
      assert ActiveOf(t1, target.value) == ActiveOf(t, target.value);
      if mergeOk {
        SupersedeKeeps(t1, older.value, id, ts);
      }
    }
  }
}
