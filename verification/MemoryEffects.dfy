/**
 What an operation of the memory layer did, column by column: each predicate
 relates the tables before and after without the statements that did it.
 */
module MemoryEffects {
  import opened Prelude
  import opened Text
  import opened MemoryTables
  import opened MemoryOps

  // ---------- Rows and queries ----------

  /** The weight of a kind, in hundredths. */
  lemma WeightsOfKinds()
    ensures Fact.DefaultWeight() * 100.0 == 120.0 && Preference.DefaultWeight() * 100.0 == 115.0
    ensures Decision.DefaultWeight() * 100.0 == 110.0 && Lesson.DefaultWeight() * 100.0 == 105.0
    ensures Raw.DefaultWeight() * 100.0 == 100.0 && Episodic.DefaultWeight() * 100.0 == 95.0
  {
  }

  /** A row written at this time, superseded by nothing. */
  ghost predicate IsNewRow(m: Memory, doc: Id, kind: MemoryType, entity: Option<Id>, tags: Option<string>,
                           confidence: real, date: Option<string>, ts: int) {
    && m.docId == doc && m.kind == kind && m.entityId == entity && m.weight == kind.DefaultWeight()
    && m.confidence == confidence && m.supersededBy == None && m.projectTags == tags
    && m.createdTs == ts && m.updatedTs == ts && m.eventDate == date
  }

  /** An active row of the document. */
  ghost predicate HoldsDoc(t: Tables, doc: Id, x: Id) {
    x in t.memories && t.memories[x].docId == doc && t.memories[x].supersededBy == None
  }

  /** The most recently updated active row of the document, or one of them. */
  ghost predicate IsLatest(t: Tables, doc: Id, x: Id) {
    && HoldsDoc(t, doc, x)
    && forall y :: HoldsDoc(t, doc, y) ==> t.memories[y].updatedTs <= t.memories[x].updatedTs
  }

  /** An active row of the document without an entity. */
  ghost predicate HoldsDocFreely(t: Tables, doc: Id, x: Id) {
    HoldsDoc(t, doc, x) && t.memories[x].entityId == None
  }

  /** `x` comes first: a raw row before all others, then the most recently updated. */
  ghost predicate ComesFirst(t: Tables, doc: Id, x: Id) {
    && HoldsDocFreely(t, doc, x)
    && forall y :: HoldsDocFreely(t, doc, y) ==>
         && (t.memories[y].kind == Raw ==> t.memories[x].kind == Raw)
         && ((t.memories[y].kind == Raw <==> t.memories[x].kind == Raw) ==>
              t.memories[y].updatedTs <= t.memories[x].updatedTs)
  }

  /** Row `x` is linked under row `y` at this time; its other columns stay. */
  ghost predicate LinkedUnder(was: Memory, m: Memory, y: Id, ts: int) {
    && m.supersededBy == Some(y) && m.updatedTs == ts
    && m == was.(supersededBy := m.supersededBy, updatedTs := m.updatedTs)
  }

  lemma LatestMeans(t: Tables, doc: Id, older: Option<Id>)
    requires NewestActive(t, doc, older)
    ensures if older.Some? then IsLatest(t, doc, older.value) else forall x :: !HoldsDoc(t, doc, x)
  {
    if older.None? {
      assert forall x :: HoldsDoc(t, doc, x) ==> x in ActiveOf(t, doc);
    } else {
      assert older.value in ActiveOf(t, doc);
      assert forall x :: HoldsDoc(t, doc, x) ==> x in ActiveOf(t, doc);
    }
  }

  // ---------- ensure ----------

  /** An active raw row of the document without an entity. */
  ghost predicate HoldsRaw(t: Tables, doc: Id, x: Id) {
    HoldsDocFreely(t, doc, x) && t.memories[x].kind == Raw
  }

  /** The document has one raw row for sure, the one it had or a new one, and one entry in the queue. */
  ghost predicate Ensured(t: Tables, t': Tables, doc: Id, ts: int, id: Id) {
    && t'.docs == t.docs && t'.edges == t.edges && HoldsRaw(t', doc, id)
    && (forall x :: HoldsRaw(t, doc, x) ==> HoldsRaw(t, doc, id) && t'.memories == t.memories)
    && (!HoldsRaw(t, doc, id) ==>
          && id !in t.memories && t'.memories.Keys == t.memories.Keys + {id}
          && (forall x :: x in t.memories ==> t'.memories[x] == t.memories[x])
          && IsNewRow(t'.memories[id], doc, Raw, None, None, 1.0, None, ts))
    && Queued(t, t', doc, QueueItem(ts, 0, None, "pending"))
  }

  /** The queue holds the document's entry as it was, or else this one. */
  ghost predicate Queued(t: Tables, t': Tables, doc: Id, item: QueueItem) {
    && t'.queue.Keys == t.queue.Keys + {doc}
    && (forall d :: d in t.queue ==> t'.queue[d] == t.queue[d])
    && (doc !in t.queue ==> t'.queue[doc] == item)
  }

  lemma EnsureMeans(t: Tables, t1: Tables, doc: Id, ts: int, id: Id)
    requires EnsuresRaw(t, doc, ts, t1, id)
    ensures Ensured(t, Enqueue(t1, doc, ts), doc, ts, id)
  {
    hide HoldsRaw, RawOf;
    RawRows(t, doc);
    if RawOf(t, doc) == {} {
      NewRawRow(t, t1, doc, ts, id);
    }
    SameRaw(t1, Enqueue(t1, doc, ts), doc);
  }

  lemma RawRows(t: Tables, doc: Id)
    ensures forall x :: HoldsRaw(t, doc, x) <==> x in RawOf(t, doc)
  {
  }

  lemma NewRawRow(t: Tables, t1: Tables, doc: Id, ts: int, id: Id)
    requires t1 == Insert(t, id, NewMemory(doc, Raw, None, None, 1.0, None, ts))
    ensures HoldsRaw(t1, doc, id)
  {
  }

  lemma SameRaw(t: Tables, t': Tables, doc: Id)
    requires t'.memories == t.memories
    ensures forall x :: HoldsRaw(t', doc, x) <==> HoldsRaw(t, doc, x)
  {
  }

  // ---------- promote ----------

  /** The row of a promotion: the first of the document's free rows, or a new one. */
  ghost predicate PromotedRow(t: Tables, t': Tables, p: Promotion, ts: int, x: Id) {
    && x in t'.memories
    && (if x in t.memories then
          && ComesFirst(t, p.doc, x)
          && t'.memories[x].projectTags == t.memories[x].projectTags
          && t'.memories[x].createdTs == t.memories[x].createdTs
        else
          && (forall y :: !HoldsDocFreely(t, p.doc, y))
          && t'.memories[x].projectTags == None
          && t'.memories[x].createdTs == ts)
    && var m := t'.memories[x];
      && m.docId == p.doc && m.kind == p.kind && m.entityId == None && m.weight == p.kind.DefaultWeight()
      && m.confidence == p.confidence && m.supersededBy == None && m.updatedTs == ts && m.eventDate == p.date
  }

  /** The document's queue entry is marked and cleared of its error; its time and attempts stay. */
  ghost predicate PromotedInQueue(t: Tables, t': Tables, doc: Id, ts: int) {
    && t'.queue.Keys == t.queue.Keys + {doc}
    && (forall d :: d in t.queue && d != doc ==> t'.queue[d] == t.queue[d])
    && t'.queue[doc].status == "promoted" && t'.queue[doc].lastError == None
    && t'.queue[doc].enqueuedTs == (if doc in t.queue then t.queue[doc].enqueuedTs else ts)
    && t'.queue[doc].attempts == (if doc in t.queue then t.queue[doc].attempts else 0)
  }

  /** Row `older`, which was active, is linked under `x`, and one edge says so; row `x` aside nothing else changed. */
  ghost predicate SupersededOnly(t: Tables, t': Tables, x: Id, older: Option<Id>, ts: int) {
    && t'.docs == t.docs
    && t'.memories.Keys == t.memories.Keys + {x}
    && (forall y :: y in t.memories && y != x && Some(y) != older ==> t'.memories[y] == t.memories[y])
    && (older.None? ==> t'.edges == t.edges)
    && (older.Some? ==>
          && older.value in t.memories && older.value != x && t.memories[older.value].supersededBy == None
          && LinkedUnder(t.memories[older.value], t'.memories[older.value], x, ts)
          && var key := EdgeKey(x, older.value, "supersedes");
            && key !in t.edges && t'.edges.Keys == t.edges.Keys + {key} && t'.edges[key] == Edge(1.0, ts)
            && forall k :: k in t.edges ==> t'.edges[k] == t.edges[k])
  }

  /** A promotion that succeeded. */
  ghost predicate Promoted(t: Tables, t': Tables, p: Promotion, ts: int, x: Id, older: Option<Id>) {
    && PromotedRow(t, t', p, ts, x)
    && PromotedInQueue(t, t', p.doc, ts)
    && SupersededOnly(t, t', x, if p.supersedes.Some? then older else None, ts)
    && (p.supersedes.Some? ==> older.Some? && IsLatest(t, p.supersedes.value, older.value))
  }

  /** When a promotion fails: an unsound confidence, a document to supersede itself, or none to supersede. */
  ghost predicate CannotPromote(t: Tables, p: Promotion) {
    || p.confidence < 0.0 || p.confidence > 1.0 || p.supersedes == Some(p.doc)
    || (p.supersedes.Some? && forall x :: !HoldsDoc(t, p.supersedes.value, x))
  }

  lemma RowOfPromotion(t: Tables, p: Promotion, ts: int, id: Id)
    requires PromotionRow(t, p, id)
    ensures var t' := Retype(t, p, ts, id);
      PromotedRow(t, t', p, ts, id) && PromotedInQueue(t, t', p.doc, ts) && SupersededOnly(t, t', id, None, ts)
  {
    hide ComesFirst, IsPromoted;
    FreeRows(t, p.doc);
    if Promotable(t, p.doc) != {} {
      FirstMeans(t, p.doc, id);
    }
  }

  lemma FreeRows(t: Tables, doc: Id)
    ensures forall x :: HoldsDocFreely(t, doc, x) <==> x in Promotable(t, doc)
  {
  }

  lemma FirstMeans(t: Tables, doc: Id, x: Id)
    requires Promotable(t, doc) != {} && IsPromoted(t, doc, x)
    ensures HoldsDocFreely(t, doc, x) && ComesFirst(t, doc, x)
  {
    FreeRows(t, doc);
    hide HoldsDocFreely, Promotable;
    forall y | HoldsDocFreely(t, doc, y)
      ensures y in Promotable(t, doc) && y in t.memories
      ensures t.memories[y].kind == Raw ==> t.memories[x].kind == Raw
      ensures (t.memories[y].kind == Raw <==> t.memories[x].kind == Raw) ==>
          t.memories[y].updatedTs <= t.memories[x].updatedTs
    {
      if t.memories[y].kind == Raw {
        assert y in RawOf(t, doc);
      }
    }
  }

  /** The row stays as promoted when another one is linked under it. */
  lemma RowStays(t: Tables, t1: Tables, p: Promotion, ts: int, x: Id, older: Id)
    requires PromotedRow(t, t1, p, ts, x) && PromotedInQueue(t, t1, p.doc, ts) && older != x
    ensures PromotedRow(t, Supersede(t1, older, x, ts), p, ts, x)
    ensures PromotedInQueue(t, Supersede(t1, older, x, ts), p.doc, ts)
  {
    hide ComesFirst, HoldsDocFreely;
  }

  lemma OthersStay(t: Tables, t1: Tables, p: Promotion, ts: int, x: Id, doc: Id, older: Option<Id>)
    requires PromotedRow(t, t1, p, ts, x) && SupersededOnly(t, t1, x, None, ts) && doc != p.doc
    requires NewestActive(t1, doc, older)
    ensures if older.Some? then IsLatest(t, doc, older.value) && older.value != x else forall y :: !HoldsDoc(t, doc, y)
  {
    hide NewestActive;
    LatestMeans(t1, doc, older);
    assert x in t.memories ==> t.memories[x].docId == p.doc;
    assert forall y :: HoldsDoc(t1, doc, y) <==> HoldsDoc(t, doc, y);
  }

  /** What a promotion does, and when it does nothing. */
  lemma PromoteMeans(t: Tables, p: Promotion, ts: int, id: Id, older: Option<Id>)
    requires Inv(t) && (Refused(p) || PromotionChoice(t, p, ts, id, older))
    ensures var (t', result) := Promote(t, p, ts, id, older);
      && (result.None? <==> CannotPromote(t, p))
      && (result.None? ==> t' == t)
      && (result.Some? ==> result.value == id && Promoted(t, t', p, ts, id, older))
  {
    hide Acyclic, NoDangling, Retype, Supersede, PromotedRow, PromotedInQueue, SupersededOnly, NewestActive, IsPromoted;
    if !Refused(p) {
      RowOfPromotion(t, p, ts, id);
      if p.supersedes.Some? {
        OthersStay(t, Retype(t, p, ts, id), p, ts, id, p.supersedes.value, older);
        if older.Some? {
          LinkMeans(t, Retype(t, p, ts, id), id, older.value, ts);
          RowStays(t, Retype(t, p, ts, id), p, ts, id, older.value);
        }
      }
    }
  }

  lemma PromotionFails(t: Tables, p: Promotion)
    requires Refused(p)
    ensures CannotPromote(t, p)
  {
  }

  lemma LinkMeans(t: Tables, t1: Tables, x: Id, older: Id, ts: int)
    requires EdgesMatch(t) && SupersededOnly(t, t1, x, None, ts)
    requires older in t.memories && t.memories[older].supersededBy == None && older != x
    ensures SupersededOnly(t, Supersede(t1, older, x, ts), x, Some(older), ts)
  {
  }

  // ---------- evolve ----------

  /** A candidate that still has a text of a similarity in the window, ends included. */
  ghost predicate Eligible(t: Tables, text: string, cfg: EvolveCfg, doc: Id) {
    doc in t.docs && Jaccard(text, t.docs[doc]) >= cfg.lo && Jaccard(text, t.docs[doc]) <= cfg.hi
  }

  /** The first of the most similar eligible candidates. */
  ghost predicate MostSimilar(t: Tables, text: string, cfg: EvolveCfg, candidates: seq<Id>, target: Option<Id>) {
    match target
    case None => forall k :: 0 <= k < |candidates| ==> !Eligible(t, text, cfg, candidates[k])
    case Some(d) =>
      exists b :: 0 <= b < |candidates| && candidates[b] == d && Eligible(t, text, cfg, d) &&
        forall k :: 0 <= k < |candidates| && Eligible(t, text, cfg, candidates[k]) ==>
          Jaccard(text, t.docs[candidates[k]]) <= Jaccard(text, t.docs[d]) &&
          (k < b ==> Jaccard(text, t.docs[candidates[k]]) < Jaccard(text, t.docs[d]))
  }

  lemma MostSimilarStep(t: Tables, text: string, cfg: EvolveCfg, candidates: seq<Id>, target: Option<Id>, d: Id)
    requires MostSimilar(t, text, cfg, candidates, target)
    ensures MostSimilar(t, text, cfg, candidates + [d],
      if InWindow(t, text, cfg, d) && (target.None? || Jaccard(text, t.docs[d]) > Jaccard(text, t.docs[target.value]))
      then Some(d) else target)
  {
    hide Jaccard;
    var longer, n := candidates + [d], |candidates|;
    assert forall k :: 0 <= k < n ==> longer[k] == candidates[k];
    assert longer[n] == d;
    if target.Some? {
      var b :| 0 <= b < n && candidates[b] == target.value && Eligible(t, text, cfg, target.value) &&
        forall k :: 0 <= k < n && Eligible(t, text, cfg, candidates[k]) ==>
          Jaccard(text, t.docs[candidates[k]]) <= Jaccard(text, t.docs[target.value]) &&
          (k < b ==> Jaccard(text, t.docs[candidates[k]]) < Jaccard(text, t.docs[target.value]));
      assert longer[b] == target.value;
    }
  }

  /** Counted: eligible when the common tokens are a share of all tokens within the window. */
  lemma EligibleCounted(t: Tables, text: string, cfg: EvolveCfg, doc: Id)
    requires doc in t.docs
    ensures var a, b := Tokens(text), Tokens(t.docs[doc]); var c := |set w | w in a && w in b|;
      Eligible(t, text, cfg, doc) <==>
        if a == {} && b == {} then cfg.lo <= 0.0 <= cfg.hi
        else cfg.lo * (|a| + |b| - c) as real <= c as real <= cfg.hi * (|a| + |b| - c) as real
  {
    hide Tokens, Jaccard;
    SimilarityCounted(text, t.docs[doc], cfg.lo);
    SimilarityCounted(text, t.docs[doc], cfg.hi);
  }

  /** An evolution: the new row, and the latest active row of the target's document under it if the merge succeeded. */
  ghost predicate Evolved(t: Tables, t': Tables, doc: Id, kind: MemoryType, id: Id, target: Option<Id>,
                          older: Option<Id>, mergeOk: bool, ts: int) {
    && id !in t.memories && id in t'.memories
    && IsNewRow(t'.memories[id], doc, kind, None, None, 1.0, None, ts)
    && t'.queue == t.queue
    && SupersededOnly(t, t', id, if target.Some? && mergeOk then older else None, ts)
    && (target.Some? ==> target.value != doc && older.Some? && IsLatest(t, target.value, older.value))
  }

  lemma EvolveMeans(t: Tables, doc: Id, text: string, kind: MemoryType, cfg: EvolveCfg, id: Id, picked: seq<Id>,
                    docs: seq<Id>, target: Option<Id>, older: Option<Id>, mergeOk: bool, ts: int)
    requires Inv(t)
    requires var m := NewMemory(doc, kind, None, None, 1.0, None, ts);
      EvolveChoice(t, doc, text, m, cfg, id, picked, docs, target, older)
    ensures var m := NewMemory(doc, kind, None, None, 1.0, None, ts);
      var (t', result) := Evolve(t, m, id, target, older, mergeOk, ts);
      && Evolved(t, t', doc, kind, id, target, older, mergeOk, ts)
      && result == if target.Some? && !mergeOk then None else Some(id)
  {
    hide Acyclic, NoDangling, EdgesMatch, Candidates, IsTarget, NewestActive, IsLatest, Supersede, SupersededOnly;
    var m := NewMemory(doc, kind, None, None, 1.0, None, ts);
    var t1 := Insert(t, id, m);
    InsertedOnly(t, id, m, ts);
    if target.Some? {
      LatestBefore(t, m, doc, text, cfg, id, picked, docs, target.value, older);
      if mergeOk {
        LinkMeans(t, t1, id, older.value, ts);
        OtherRowStays(t1, older.value, id, ts);
      }
    }
  }

  lemma InsertedOnly(t: Tables, id: Id, m: Memory, ts: int)
    requires id !in t.memories
    ensures SupersededOnly(t, Insert(t, id, m), id, None, ts)
  {
  }

  lemma OtherRowStays(t: Tables, older: Id, x: Id, ts: int)
    requires x in t.memories && older != x
    ensures var t' := Supersede(t, older, x, ts);
      x in t'.memories && t'.memories[x] == t.memories[x] && t'.queue == t.queue
  {
  }

  lemma LatestBefore(t: Tables, m: Memory, doc: Id, text: string, cfg: EvolveCfg, id: Id, picked: seq<Id>,
                     docs: seq<Id>, target: Id, older: Option<Id>)
    requires id !in t.memories && m.docId == doc && Candidates(t, doc, cfg, picked, docs)
    requires IsTarget(t, text, cfg, docs, Some(target)) && NewestActive(Insert(t, id, m), target, older)
    ensures target != doc && older.Some? && HoldsDoc(t, target, older.value) && IsLatest(t, target, older.value)
  {
    TargetIsOther(t, doc, text, cfg, picked, docs, target);
    hide Candidates, IsTarget, NewestActive;
    var t1 := Insert(t, id, m);
    LatestMeans(t1, target, older);
    assert forall y :: HoldsDoc(t1, target, y) <==> HoldsDoc(t, target, y);
    assert forall y :: HoldsDoc(t, target, y) <==> y in ActiveOf(t, target);
  }

  // ---------- delete ----------

  /** The document, its rows, their edges and its queue entry are gone, and links to its rows are cleared. */
  ghost predicate Deleted(t: Tables, t': Tables, doc: Id) {
    && (forall d :: d in t'.docs <==> d in t.docs && d != doc)
    && (forall d :: d in t'.docs ==> t'.docs[d] == t.docs[d])
    && (forall d :: d in t'.queue <==> d in t.queue && d != doc)
    && (forall d :: d in t'.queue ==> t'.queue[d] == t.queue[d])
    && (forall x :: x in t'.memories <==> x in t.memories && t.memories[x].docId != doc)
    && (forall x :: x in t'.memories ==>
          var was, now := t.memories[x], t'.memories[x];
          now == was.(supersededBy :=
            if was.supersededBy.Some? && was.supersededBy.value !in t'.memories then None else was.supersededBy))
    && (forall k :: k in t'.edges <==> k in t.edges && k.src in t'.memories && k.dst in t'.memories)
    && (forall k :: k in t'.edges ==> t'.edges[k] == t.edges[k])
  }

  lemma RowsLeft(t: Tables, doc: Id)
    requires NoDangling(t)
    ensures var t', gone := DeleteDoc(t, doc), MemoriesOf(t.memories, doc);
      && (forall x :: x in t'.memories <==> x in t.memories && t.memories[x].docId != doc)
      && (forall x :: x in t.memories ==> (x in gone <==> x !in t'.memories))
      && (forall x :: x in t'.memories ==>
            var was := t.memories[x];
            t'.memories[x] == was.(supersededBy :=
              if was.supersededBy.Some? && was.supersededBy.value in gone then None else was.supersededBy))
  {
  }

  lemma EdgesLeft(t: Tables, doc: Id)
    requires EdgesMatch(t)
    ensures var t', gone := DeleteDoc(t, doc), MemoriesOf(t.memories, doc);
      && (forall k :: k in t'.edges <==> k in t.edges && k.src !in gone && k.dst !in gone)
      && (forall k :: k in t'.edges ==> t'.edges[k] == t.edges[k])
  {
    hide ClearLinks, MemoriesOf;
  }

  lemma DocsLeft(t: Tables, doc: Id)
    ensures var t' := DeleteDoc(t, doc);
      && (forall d :: d in t'.docs <==> d in t.docs && d != doc)
      && (forall d :: d in t'.docs ==> t'.docs[d] == t.docs[d])
      && (forall d :: d in t'.queue <==> d in t.queue && d != doc)
      && (forall d :: d in t'.queue ==> t'.queue[d] == t.queue[d])
  {
  }

  /** What a delete does. */
  lemma DeleteMeans(t: Tables, doc: Id)
    requires Inv(t)
    ensures Deleted(t, DeleteDoc(t, doc), doc)
  {
    hide Acyclic, MemoriesOf, DeleteDoc;
    DocsLeft(t, doc);
    RowsLeft(t, doc);
    EdgesLeft(t, doc);
    assert forall x :: x in t.memories && t.memories[x].supersededBy.Some? ==>
      t.memories[x].supersededBy.value in t.memories;
  }
}
