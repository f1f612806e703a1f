/** What a batch leaves in the documents, row by row, and when it is refused. */
module IngestRows {
  import opened Prelude
  import opened Ingest

  /** No stored document has the hash of this request's text, and no earlier request has it either. */
  ghost predicate Fresh(t: Table, reqs: seq<Request>, i: nat, digest: string -> nat)
    requires i < |reqs|
  {
    && (forall id :: id in t.docs ==> t.docs[id].hash != digest(reqs[i].text))
    && forall j :: 0 <= j < i ==> digest(reqs[j].text) != digest(reqs[i].text)
  }

  /** How many of the first k requests are fresh. */
  ghost function FreshCount(t: Table, reqs: seq<Request>, k: nat, digest: string -> nat): nat
    requires k <= |reqs|
  {
    if k == 0 then 0
    else FreshCount(t, reqs, k - 1, digest) + if Fresh(t, reqs, k - 1, digest) then 1 else 0
  }

  /** The row holds what the request brought. */
  ghost predicate HoldsRequest(d: Doc, req: Request, ts: int) {
    d.uri == req.uri && d.title == req.title && d.text == req.text && d.meta == req.meta && d.ts == ts
  }

  /** The id of a fresh request's row: the next one after those of the fresh requests before it. */
  ghost predicate NextRow(t: Table, reqs: seq<Request>, i: nat, ts: int, digest: string -> nat, t': Table, id: Id)
    requires i < |reqs|
  {
    && id == t.lastId + FreshCount(t, reqs, i, digest) + 1
    && id in t'.docs && HoldsRequest(t'.docs[id], reqs[i], ts)
  }

  ghost predicate FreshRow(t: Table, reqs: seq<Request>, k: nat, digest: string -> nat, ids: seq<Id>, id: Id) {
    exists i :: 0 <= i < k && i < |reqs| && i < |ids| && Fresh(t, reqs, i, digest) && ids[i] == id
  }

  /** The documents after the first k requests: the old rows, and one new row for each fresh request, in order. */
  ghost predicate Batched(t: Table, reqs: seq<Request>, k: nat, ts: int, digest: string -> nat, t': Table,
                          ids: seq<Id>) {
    && |ids| == k <= |reqs|
    && t'.lastId == t.lastId + FreshCount(t, reqs, k, digest)
    && (forall id :: id in t.docs ==> id in t'.docs && t'.docs[id] == t.docs[id])
    && (forall id :: id in t'.docs && id !in t.docs ==> FreshRow(t, reqs, k, digest, ids, id))
    && (forall i :: 0 <= i < k && Fresh(t, reqs, i, digest) ==> NextRow(t, reqs, i, ts, digest, t', ids[i]))
    && (forall i :: 0 <= i < k ==> ids[i] in t'.docs && t'.docs[ids[i]].hash == digest(reqs[i].text))
  }

  /** A fresh request whose uri an old document has, or an earlier fresh request. */
  ghost predicate Clashes(t: Table, reqs: seq<Request>, i: nat, digest: string -> nat)
    requires i < |reqs|
  {
    && Fresh(t, reqs, i, digest) && reqs[i].uri.Some?
    && ((exists id :: id in t.docs && t.docs[id].uri == reqs[i].uri)
        || exists j :: 0 <= j < i && Fresh(t, reqs, j, digest) && reqs[j].uri == reqs[i].uri)
  }

  lemma HashMet(t: Table, reqs: seq<Request>, k: nat, ts: int, digest: string -> nat, t': Table, ids: seq<Id>)
    requires TableOk(t', digest) && Batched(t, reqs, k, ts, digest, t', ids) && k < |reqs|
    ensures HasHash(t'.docs, digest(reqs[k].text)) <==> !Fresh(t, reqs, k, digest)
  {
    hide NextRow, FreshCount, TableOk;
    var h := digest(reqs[k].text);
    if HasHash(t'.docs, h) {
      var id :| id in t'.docs && t'.docs[id].hash == h;
      if id !in t.docs {
        var i :| 0 <= i < k && Fresh(t, reqs, i, digest) && ids[i] == id;
      }
    }
    if !Fresh(t, reqs, k, digest) {
      if j :| 0 <= j < k && digest(reqs[j].text) == h {
        assert ids[j] in t'.docs;
      } else {
        var id :| id in t.docs && t.docs[id].hash == h;
        assert id in t'.docs;
      }
    }
  }

  lemma UriMet(t: Table, reqs: seq<Request>, k: nat, ts: int, digest: string -> nat, t': Table, ids: seq<Id>)
    requires Batched(t, reqs, k, ts, digest, t', ids) && k < |reqs| && Fresh(t, reqs, k, digest)
    ensures UriTaken(t'.docs, reqs[k].uri) <==> Clashes(t, reqs, k, digest)
  {
    hide FreshCount, Fresh;
    var uri := reqs[k].uri;
    if UriTaken(t'.docs, uri) {
      var id :| id in t'.docs && t'.docs[id].uri == uri;
      if id !in t.docs {
        var i :| 0 <= i < k && Fresh(t, reqs, i, digest) && ids[i] == id;
        assert NextRow(t, reqs, i, ts, digest, t', ids[i]);
      }
    }
    if Clashes(t, reqs, k, digest) {
      if j :| 0 <= j < k && Fresh(t, reqs, j, digest) && reqs[j].uri == uri {
        assert NextRow(t, reqs, j, ts, digest, t', ids[j]);
      } else {
        var id :| id in t.docs && t.docs[id].uri == uri;
        assert id in t'.docs;
      }
    }
  }

  /** One more request: dropped when its hash is there, refused when it clashes, and else a new row. */
  lemma BatchedStep(t: Table, reqs: seq<Request>, k: nat, ts: int, digest: string -> nat, t': Table, ids: seq<Id>)
    requires TableOk(t', digest) && Batched(t, reqs, k, ts, digest, t', ids) && k < |reqs|
    ensures var b := StoreOne(t', reqs[k], ts, digest(reqs[k].text));
      && (b.Clash? <==> Clashes(t, reqs, k, digest))
      && (b.Stored? ==> Batched(t, reqs, k + 1, ts, digest, b.table, ids + b.ids))
  {
    hide Batched, Fresh, Clashes, TableOk, UriTaken, HasHash, HoldsRequest, NewDoc;
    HashMet(t, reqs, k, ts, digest, t', ids);
    if Fresh(t, reqs, k, digest) {
      UriMet(t, reqs, k, ts, digest, t', ids);
      NextIdIsNew(t', digest);
      BroughtRow(reqs[k], ts, digest(reqs[k].text));
      NewRow(t, reqs, k, ts, digest, t', ids, NewDoc(reqs[k], ts, digest(reqs[k].text)), t'.lastId + 1);
    } else {
      NotFreshNoClash(t, reqs, k, digest);
      OldHash(t, reqs, k, ts, digest, t', ids);
    }
  }

  lemma BroughtRow(req: Request, ts: int, h: nat)
    ensures HoldsRequest(NewDoc(req, ts, h), req, ts) && NewDoc(req, ts, h).hash == h
  {
  }

  lemma NotFreshNoClash(t: Table, reqs: seq<Request>, k: nat, digest: string -> nat)
    requires k < |reqs| && !Fresh(t, reqs, k, digest)
    ensures !Clashes(t, reqs, k, digest)
  {
  }

  lemma MoreFreshRows(t: Table, reqs: seq<Request>, k: nat, digest: string -> nat, ids: seq<Id>, more: Id, id: Id)
    requires |ids| == k < |reqs| && (FreshRow(t, reqs, k, digest, ids, id) || (Fresh(t, reqs, k, digest) && id == more))
    ensures FreshRow(t, reqs, k + 1, digest, ids + [more], id)
  {
    var longer := ids + [more];
    if FreshRow(t, reqs, k, digest, ids, id) {
      var i :| 0 <= i < k && Fresh(t, reqs, i, digest) && ids[i] == id;
      assert longer[i] == id;
    } else {
      assert longer[k] == id;
    }
  }

  lemma OldHash(t: Table, reqs: seq<Request>, k: nat, ts: int, digest: string -> nat, t': Table, ids: seq<Id>)
    requires Batched(t, reqs, k, ts, digest, t', ids) && k < |reqs| && !Fresh(t, reqs, k, digest)
    requires HasHash(t'.docs, digest(reqs[k].text))
    ensures Batched(t, reqs, k + 1, ts, digest, t', ids + [Holder(t'.docs, digest(reqs[k].text))])
  {
    hide Fresh, FreshRow, NextRow;
    var more := Holder(t'.docs, digest(reqs[k].text));
    forall id | id in t'.docs && id !in t.docs
      ensures FreshRow(t, reqs, k + 1, digest, ids + [more], id)
    {
      MoreFreshRows(t, reqs, k, digest, ids, more, id);
    }
  }

  lemma NextIdIsNew(t: Table, digest: string -> nat)
    requires TableOk(t, digest)
    ensures t.lastId + 1 !in t.docs
  {
  }

  lemma NewRow(t: Table, reqs: seq<Request>, k: nat, ts: int, digest: string -> nat, t': Table, ids: seq<Id>,
               d: Doc, more: Id)
    requires Batched(t, reqs, k, ts, digest, t', ids) && k < |reqs| && Fresh(t, reqs, k, digest)
    requires more !in t'.docs && more == t'.lastId + 1
    requires HoldsRequest(d, reqs[k], ts) && d.hash == digest(reqs[k].text)
    ensures Batched(t, reqs, k + 1, ts, digest, Table(t'.docs[more := d], more), ids + [more])
  {
    hide Fresh, FreshRow, HoldsRequest;
    var after, longer := Table(t'.docs[more := d], more), ids + [more];
    forall id | id in after.docs && id !in t.docs
      ensures FreshRow(t, reqs, k + 1, digest, longer, id)
    {
      MoreFreshRows(t, reqs, k, digest, ids, more, id);
    }
    forall i | 0 <= i < k + 1 && Fresh(t, reqs, i, digest)
      ensures NextRow(t, reqs, i, ts, digest, after, longer[i])
    {
      assert i < k ==> longer[i] == ids[i] && NextRow(t, reqs, i, ts, digest, t', ids[i]);
    }
  }

  /** One of the first k requests clashes. */
  ghost predicate AnyClash(t: Table, reqs: seq<Request>, k: nat, digest: string -> nat) {
    exists i :: 0 <= i < k && i < |reqs| && Clashes(t, reqs, i, digest)
  }

  lemma OneMoreClash(t: Table, reqs: seq<Request>, k: nat, digest: string -> nat)
    requires k < |reqs|
    ensures AnyClash(t, reqs, k + 1, digest) <==> AnyClash(t, reqs, k, digest) || Clashes(t, reqs, k, digest)
  {
    hide Clashes;
  }

  /** The first k requests: the first k - 1, then one more. */
  lemma StoreAllStep(t: Table, reqs: seq<Request>, k: nat, ts: int, digest: string -> nat)
    requires 0 < k <= |reqs|
    ensures var b := StoreAll(t, reqs[..k - 1], ts, digest); var c := StoreAll(t, reqs[..k], ts, digest);
      if b.Clash? then c.Clash?
      else
        var d := StoreOne(b.table, reqs[k - 1], ts, digest(reqs[k - 1].text));
        if d.Clash? then c.Clash? else c == Stored(d.table, b.ids + d.ids)
  {
    hide StoreOne;
    assert reqs[..k][..k - 1] == reqs[..k - 1];
  }

  /** A batch is refused exactly when one of its requests clashes; else it leaves exactly these rows and ids. */
  lemma {:induction false} BatchExactly(t: Table, reqs: seq<Request>, k: nat, ts: int, digest: string -> nat)
    requires TableOk(t, digest) && k <= |reqs|
    ensures var b := StoreAll(t, reqs[..k], ts, digest);
      && (b.Clash? <==> AnyClash(t, reqs, k, digest))
      && (b.Stored? ==> Batched(t, reqs, k, ts, digest, b.table, b.ids))
  {
    if k == 0 {
      NoRequests(t, reqs, ts, digest);
    } else {
      hide Clashes, Batched, TableOk, StoreOne, AnyClash, StoreAll;
      StoreAllStep(t, reqs, k, ts, digest);
      BatchExactly(t, reqs, k - 1, ts, digest);
      OneMoreClash(t, reqs, k - 1, digest);
      var b := StoreAll(t, reqs[..k - 1], ts, digest);
      if b.Stored? {
        StoreAllKeeps(t, reqs[..k - 1], ts, digest);
        BatchedStep(t, reqs, k - 1, ts, digest, b.table, b.ids);
      }
    }
  }

  lemma NoRequests(t: Table, reqs: seq<Request>, ts: int, digest: string -> nat)
    ensures StoreAll(t, reqs[..0], ts, digest) == Stored(t, [])
    ensures Batched(t, reqs, 0, ts, digest, t, []) && !AnyClash(t, reqs, 0, digest)
  {
    assert reqs[..0] == [];
  }

  /** The whole batch. */
  lemma WholeBatch(t: Table, reqs: seq<Request>, ts: int, digest: string -> nat)
    requires TableOk(t, digest)
    ensures var b := StoreAll(t, reqs, ts, digest);
      && (b.Clash? <==> AnyClash(t, reqs, |reqs|, digest))
      && (b.Stored? ==> Batched(t, reqs, |reqs|, ts, digest, b.table, b.ids))
  {
    hide StoreAll, AnyClash, Batched, TableOk;
    BatchExactly(t, reqs, |reqs|, ts, digest);
    assert reqs[..|reqs|] == reqs;
  }

  /** The full-text rows hold titles and texts, document by document. */
  lemma IndexHoldsTexts(docs: map<Id, Doc>)
    ensures forall id :: id in FtsView(docs) <==> id in docs
    ensures forall id :: id in docs ==>
      FtsView(docs)[id].title == docs[id].title && FtsView(docs)[id].text == docs[id].text
  {
  }
}
