/**
 Bulk document ingest: per-row full-text triggers against the deferred form that
 drops the trigger, inserts, and fills the index in one pass.
 */
module Ingest {
  import opened Prelude

  /** `hash` stands for the 32-byte content hash. */
  datatype Doc = Doc(uri: Option<string>, title: Option<string>, text: string, meta: Option<string>, ts: int, hash: nat)
  datatype Request = Request(uri: Option<string>, title: Option<string>, text: string, meta: Option<string>,
                             embedding: Option<seq<real>>)
  datatype FtsRow = FtsRow(title: Option<string>, text: string)
  datatype Synchronous = Off | Normal

  // ---------- What a batch does to the documents ----------

  /** The documents and the largest id ever given out. */
  datatype Table = Table(docs: map<Id, Doc>, lastId: Id)
  datatype Batch = Stored(table: Table, ids: seq<Id>) | Clash

  predicate HasHash(docs: map<Id, Doc>, h: nat) {
    exists id :: id in docs && docs[id].hash == h
  }

  ghost function Holder(docs: map<Id, Doc>, h: nat): (id: Id)
    requires HasHash(docs, h)
    ensures id in docs && docs[id].hash == h
  {
    var id :| id in docs && docs[id].hash == h;
    id
  }

  /** Another document already has this uri. */
  predicate UriTaken(docs: map<Id, Doc>, uri: Option<string>) {
    uri.Some? && exists id :: id in docs && docs[id].uri == uri
  }

  function NewDoc(req: Request, ts: int, h: nat): Doc {
    Doc(req.uri, req.title, req.text, req.meta, ts, h)
  }

  /** One request: deduplicated by hash, refused on a uri clash, else stored under the next id. */
  ghost function StoreOne(t: Table, req: Request, ts: int, h: nat): Batch {
    if HasHash(t.docs, h) then Stored(t, [Holder(t.docs, h)])
    else if UriTaken(t.docs, req.uri) then Clash
    else Stored(Table(t.docs[t.lastId + 1 := NewDoc(req, ts, h)], t.lastId + 1), [t.lastId + 1])
  }

  ghost function StoreAll(t: Table, reqs: seq<Request>, ts: int, digest: string -> nat): Batch {
    if reqs == [] then Stored(t, [])
    else
      var n := |reqs| - 1;
      match StoreAll(t, reqs[..n], ts, digest)
      case Clash => Clash
      case Stored(t1, ids) =>
        match StoreOne(t1, reqs[n], ts, digest(reqs[n].text))
        case Clash => Clash
        case Stored(t2, more) => Stored(t2, ids + more)
  }

  // ---------- Invariants ----------

  /** Hashes are those of the texts and unique, uris are unique, and no id exceeds the last one given out. */
  ghost predicate TableOk(t: Table, digest: string -> nat) {
    && t.lastId >= 0
    && (forall id :: id in t.docs ==> 1 <= id <= t.lastId && t.docs[id].hash == digest(t.docs[id].text))
    && (forall a, b :: a in t.docs && b in t.docs && t.docs[a].hash == t.docs[b].hash ==> a == b)
    && (forall a, b :: a in t.docs && b in t.docs && t.docs[a].uri.Some? && t.docs[a].uri == t.docs[b].uri ==> a == b)
  }

  lemma StoreOneKeeps(t: Table, req: Request, ts: int, digest: string -> nat)
    requires TableOk(t, digest)
    ensures var b := StoreOne(t, req, ts, digest(req.text));
      b.Stored? ==>
        && TableOk(b.table, digest) && b.table.lastId >= t.lastId
        && |b.ids| == 1 && b.ids[0] in b.table.docs && b.table.docs[b.ids[0]].hash == digest(req.text)
        && (forall id :: id in t.docs ==> id in b.table.docs && b.table.docs[id] == t.docs[id])
        && (forall id :: id in b.table.docs && id !in t.docs ==> id > t.lastId)
  {
    hide TableOk, HasHash, UriTaken;
    if !HasHash(t.docs, digest(req.text)) && !UriTaken(t.docs, req.uri) {
      NewRowKeeps(t, req, ts, digest);
    } else {
      LastIdIsId(t, digest);
    }
  }

  lemma LastIdIsId(t: Table, digest: string -> nat)
    requires TableOk(t, digest)
    ensures t.lastId >= 0
  {
  }

  lemma NewRowKeeps(t: Table, req: Request, ts: int, digest: string -> nat)
    requires TableOk(t, digest) && !HasHash(t.docs, digest(req.text)) && !UriTaken(t.docs, req.uri)
    ensures var id := t.lastId + 1;
      id !in t.docs && TableOk(Table(t.docs[id := NewDoc(req, ts, digest(req.text))], id), digest)
  {
  }

  /** Each returned id is a row holding the hash of its request's text. */
  ghost predicate Answers(t: Table, reqs: seq<Request>, ids: seq<Id>, digest: string -> nat) {
    && |ids| == |reqs|
    && forall i :: 0 <= i < |reqs| ==> ids[i] in t.docs && t.docs[ids[i]].hash == digest(reqs[i].text)
  }

  /** A stored batch keeps the invariant, keeps every old row, gives only new ids and answers every request. */
  lemma {:induction false} StoreAllKeeps(t: Table, reqs: seq<Request>, ts: int, digest: string -> nat)
    requires TableOk(t, digest)
    ensures var b := StoreAll(t, reqs, ts, digest);
      b.Stored? ==>
        && TableOk(b.table, digest) && b.table.lastId >= t.lastId && Answers(b.table, reqs, b.ids, digest)
        && (forall id :: id in t.docs ==> id in b.table.docs && b.table.docs[id] == t.docs[id])
        && (forall id :: id in b.table.docs && id !in t.docs ==> id > t.lastId)
  {
    hide TableOk, StoreOne;
    if reqs != [] {
      var n := |reqs| - 1;
      StoreAllKeeps(t, reqs[..n], ts, digest);
      var b := StoreAll(t, reqs[..n], ts, digest);
      if b.Stored? {
        StoreOneKeeps(b.table, reqs[n], ts, digest);
      }
    }
  }

  /** With a collision-free hash every answered row holds its request's own text. */
  lemma AnswersHoldText(t: Table, reqs: seq<Request>, ids: seq<Id>, digest: string -> nat)
    requires TableOk(t, digest) && Answers(t, reqs, ids, digest)
    requires forall a, b :: digest(a) == digest(b) ==> a == b
    ensures forall i :: 0 <= i < |reqs| ==> t.docs[ids[i]].text == reqs[i].text
  {
  }

  /** Once one request clashes, so does every longer batch. */
  lemma {:induction false} ClashStays(t: Table, reqs: seq<Request>, k: nat, ts: int, digest: string -> nat)
    requires k <= |reqs| && StoreAll(t, reqs[..k], ts, digest).Clash?
    ensures StoreAll(t, reqs, ts, digest).Clash?
    decreases |reqs|
  {
    if k < |reqs| {
      var n := |reqs| - 1;
      assert reqs[..n][..k] == reqs[..k];
      ClashStays(t, reqs[..n], k, ts, digest);
    } else {
      assert reqs[..k] == reqs;
    }
  }

  // ---------- The store ----------

  function FtsView(docs: map<Id, Doc>): map<Id, FtsRow> {
    map id | id in docs :: FtsRow(docs[id].title, docs[id].text)
  }

  class Store {
    const digest: string -> nat
    var docs: map<Id, Doc>
    var lastId: Id
    var fts: map<Id, FtsRow>
    var trigger: bool
    var synchronous: Synchronous

    function T(): Table
      reads this
    {
      Table(docs, lastId)
    }

    /** The full-text rows are exactly the documents, and the trigger is installed. */
    ghost predicate Valid()
      reads this
    {
      TableOk(T(), digest) && fts == FtsView(docs) && trigger && synchronous == Normal
    }

    constructor (digest: string -> nat)
      ensures Valid() && docs == map[] && this.digest == digest
    {
      this.digest := digest;
      docs, lastId, fts, trigger, synchronous := map[], 0, map[], true, Normal;
    }

    method FindByHash(h: nat) returns (found: Option<Id>)
      ensures found.None? <==> !HasHash(docs, h)
      ensures found.Some? ==> found.value in docs && docs[found.value].hash == h
    {
      found := None;
      var todo := docs.Keys;
      while todo != {} && found.None?
        invariant todo <= docs.Keys
        invariant forall id :: id in docs && id !in todo ==> docs[id].hash != h || found == Some(id)
        invariant found.Some? ==> found.value in docs && docs[found.value].hash == h
        decreases |todo|
      {
        var id := AnyOf(todo);
        todo := todo - {id};
        if docs[id].hash == h { found := Some(id); }
      }
    }

    method UriExists(uri: Option<string>) returns (taken: bool)
      ensures taken <==> UriTaken(docs, uri)
    {
      taken := false;
      if uri.None? { return; }
      var todo := docs.Keys;
      while todo != {} && !taken
        invariant todo <= docs.Keys
        invariant taken ==> UriTaken(docs, uri)
        invariant !taken ==> forall id :: id in docs && id !in todo ==> docs[id].uri != uri
        decreases |todo|
      {
        var id := AnyOf(todo);
        todo := todo - {id};
        if docs[id].uri == uri { taken := true; }
      }
    }

    /** One request: its id, or nothing on a uri clash. */
    method InsertRow(req: Request, ts: int) returns (result: Option<Id>)
      requires TableOk(T(), digest)
      modifies this`docs, this`lastId, this`fts
      ensures var b := StoreOne(old(T()), req, ts, digest(req.text));
        if b.Stored? then result.Some? && b.ids == [result.value] && T() == b.table else result.None?
      ensures result.Some? ==> fts == if trigger then old(fts) + FtsView(docs - old(docs).Keys) else old(fts)
    {
      StartOfBatch(docs, fts);
      var h := digest(req.text);
      var found := FindByHash(h);
      if found.Some? {
        return found;
      }
      var taken := UriExists(req.uri);
      if taken {
        return None;
      }
      var id := lastId + 1;
      AddedRow(docs, docs, fts, id, NewDoc(req, ts, h));
      docs := docs[id := NewDoc(req, ts, h)];
      lastId := id;
      if trigger {
        fts := fts[id := FtsRow(req.title, req.text)];
      }
      result := Some(id);
    }

    /** The insert loop of a batch; row triggers fire when installed. Without a result the caller rolls back. */
    method InsertRows(reqs: seq<Request>, ts: int) returns (result: Option<seq<Id>>)
      requires TableOk(T(), digest)
      modifies this`docs, this`lastId, this`fts
      ensures var b := StoreAll(old(T()), reqs, ts, digest);
        if b.Stored? then result == Some(b.ids) && T() == b.table else result.None?
      ensures result.Some? ==> fts == if trigger then old(fts) + FtsView(docs - old(docs).Keys) else old(fts)
    {
      hide TableOk, FtsView, StoreOne, Answers;
      ghost var t := T();
      var ids: seq<Id> := [];
      StartOfBatch(docs, fts);
      for i := 0 to |reqs|
        invariant StoreAll(t, reqs[..i], ts, digest) == Stored(T(), ids)
        invariant fts == if trigger then old(fts) + FtsView(docs - old(docs).Keys) else old(fts)
      {
        assert reqs[..i + 1][..i] == reqs[..i];
        StoreAllKeeps(t, reqs[..i], ts, digest);
        ghost var before, rows := docs, fts;
        StoreOneKeeps(T(), reqs[i], ts, digest);
        var id := InsertRow(reqs[i], ts);
        if id.None? {
          ClashStays(t, reqs, i + 1, ts, digest);
          return None;
        }
        ids := ids + [id.value];
        ViewsCompose(old(docs), before, docs, old(fts));
      }
      assert reqs[..|reqs|] == reqs;
      result := Some(ids);
    }

    /** Fast bulk ingest with row triggers, in one transaction. */
    method PutBatchFast(reqs: seq<Request>, ts: int) returns (result: Option<seq<Id>>)
      requires Valid()
      modifies this
      ensures Valid()
      ensures BatchOutcome(old(T()), reqs, ts, digest, result, T())
    {
      if exists i :: 0 <= i < |reqs| && reqs[i].embedding.Some? {
        return None;
      }
      StoreAllKeeps(T(), reqs, ts, digest);
      synchronous := Off;
      var saved := (docs, lastId, fts);
      result := InsertRows(reqs, ts);
      if result.None? {
        docs, lastId, fts := saved.0, saved.1, saved.2;
      } else {
        ViewOfGrown(saved.0, docs);
      }
      synchronous := Normal;
    }

    /**
     Deferred ingest: trigger dropped, rows inserted, the index filled from ids above the old
     maximum, trigger back.
     */
    method PutBatchDeferredFts(reqs: seq<Request>, ts: int) returns (result: Option<seq<Id>>)
      requires Valid()
      modifies this
      ensures Valid()
      ensures BatchOutcome(old(T()), reqs, ts, digest, result, T())
    {
      hide TableOk, FtsView, StoreAll, RowsAbove, Answers;
      if exists i :: 0 <= i < |reqs| && reqs[i].embedding.Some? {
        return None;
      }
      StoreAllKeeps(T(), reqs, ts, digest);
      synchronous := Off;
      trigger := false;
      var saved := (docs, lastId, fts);
      var maxBefore := MaxId();
      result := InsertRows(reqs, ts);
      if result.Some? {
        DeferredView(saved.0, docs, maxBefore);
        fts := fts + RowsAbove(docs, maxBefore);
        trigger := true;
      } else {
        docs, lastId, fts := saved.0, saved.1, saved.2;
      }
      synchronous := Normal;
      if result.None? {
        trigger := true;
      }
    }

    /** `COALESCE(MAX(id), 0)`. */
    method MaxId() returns (m: Id)
      requires TableOk(T(), digest)
      ensures 0 <= m <= lastId && forall id :: id in docs ==> id <= m
      ensures m == 0 || m in docs
    {
      m := 0;
      var todo := docs.Keys;
      while todo != {}
        invariant todo <= docs.Keys && 0 <= m <= lastId && (m == 0 || m in docs)
        invariant forall id :: id in docs && id !in todo ==> id <= m
        decreases |todo|
      {
        var id := AnyOf(todo);
        todo := todo - {id};
        if id > m { m := id; }
      }
    }

    /** Delete one document with its full-text row; its id is not given out again. */
    method Delete(id: Id) returns (existed: bool)
      requires Valid()
      modifies this`docs, this`fts
      ensures Valid()
      ensures existed <==> id in old(docs)
      ensures docs == old(docs) - {id}
    {
      existed := id in docs;
      fts := fts - {id};
      docs := docs - {id};
      assert fts == FtsView(docs);
    }
  }

  /** What either batch form does: all or nothing, as the specification says. */
  ghost predicate BatchOutcome(t: Table, reqs: seq<Request>, ts: int, digest: string -> nat, result: Option<seq<Id>>,
                               t': Table) {
    if exists i :: 0 <= i < |reqs| && reqs[i].embedding.Some? then result.None? && t' == t
    else
      match StoreAll(t, reqs, ts, digest)
      case Clash => result.None? && t' == t
      case Stored(table, ids) => result == Some(ids) && t' == table
  }

  lemma StartOfBatch(docs: map<Id, Doc>, fts: map<Id, FtsRow>)
    ensures fts == fts + FtsView(docs - docs.Keys)
  {
    assert docs - docs.Keys == map[];
  }

  /** What two insertions in a row add to the index. */
  lemma ViewsCompose(first: map<Id, Doc>, middle: map<Id, Doc>, last: map<Id, Doc>, fts: map<Id, FtsRow>)
    requires forall id :: id in first ==> id in middle && middle[id] == first[id]
    requires forall id :: id in middle ==> id in last && last[id] == middle[id]
    ensures fts + FtsView(middle - first.Keys) + FtsView(last - middle.Keys) == fts + FtsView(last - first.Keys)
  {
  }

  lemma AddedRow(before: map<Id, Doc>, docs: map<Id, Doc>, fts: map<Id, FtsRow>, id: Id, d: Doc)
    requires id !in before && before.Keys <= docs.Keys
    ensures fts + FtsView(docs[id := d] - before.Keys) ==
      (fts + FtsView(docs - before.Keys))[id := FtsRow(d.title, d.text)]
  {
  }

  lemma ViewOfGrown(before: map<Id, Doc>, docs: map<Id, Doc>)
    requires forall id :: id in before ==> id in docs && docs[id] == before[id]
    ensures FtsView(docs) == FtsView(before) + FtsView(docs - before.Keys)
  {
  }

  /** `INSERT ... SELECT ... WHERE id > max`. */
  function RowsAbove(docs: map<Id, Doc>, max: Id): map<Id, FtsRow> {
    map id | id in docs && id > max :: FtsRow(docs[id].title, docs[id].text)
  }

  /** Filling in the rows above the old maximum completes the index. */
  lemma DeferredView(before: map<Id, Doc>, docs: map<Id, Doc>, max: Id)
    requires forall id :: id in before ==> id in docs && docs[id] == before[id] && id <= max
    requires forall id :: id in docs && id !in before ==> id > max
    ensures FtsView(before) + RowsAbove(docs, max) == FtsView(docs)
  {
  }

  /** Deferred and per-row ingest of one batch end with the same documents, ids and full-text rows. */
  method BothForms(a: Store, b: Store, reqs: seq<Request>, ts: int)
    returns (fast: Option<seq<Id>>, deferred: Option<seq<Id>>)
    requires a != b && a.Valid() && b.Valid() && a.T() == b.T() && a.digest == b.digest
    modifies a, b
    ensures a.Valid() && b.Valid()
    ensures fast == deferred && a.T() == b.T() && a.fts == b.fts && a.trigger == b.trigger
  {
    fast := a.PutBatchFast(reqs, ts);
    deferred := b.PutBatchDeferredFts(reqs, ts);
  }
}
