/**
 The typed-memory tables as values, every operation on them as a relation
 between table states, and the invariant that all of them keep: `superseded_by`
 is a forest, never dangles, and is mirrored exactly by the 'supersedes' edges.
 */
module MemoryTables {
  import opened Prelude

  datatype MemoryType = Fact | Decision | Lesson | Preference | Episodic | Raw {
    function DefaultWeight(): real {
      match this
      case Fact => 1.20
      case Decision => 1.10
      case Lesson => 1.05
      case Preference => 1.15
      case Episodic => 0.95
      case Raw => 1.00
    }
  }

  datatype Memory = Memory(
    docId: Id, kind: MemoryType, entityId: Option<Id>, weight: real, confidence: real,
    supersededBy: Option<Id>, projectTags: Option<string>, createdTs: int, updatedTs: int, eventDate: Option<string>)

  datatype EdgeKey = EdgeKey(src: Id, dst: Id, edgeType: string)
  datatype Edge = Edge(weight: real, createdTs: int)
  datatype QueueItem = QueueItem(enqueuedTs: int, attempts: nat, lastError: Option<string>, status: string)

  const SUPERSEDES := "supersedes"

  datatype Tables = Tables(
    docs: map<Id, string>, memories: map<Id, Memory>, edges: map<EdgeKey, Edge>, queue: map<Id, QueueItem>)

  // ---------- Queries ----------

  function Active(t: Tables): (ids: set<Id>)
    ensures ids <= t.memories.Keys
  {
    set id | id in t.memories && t.memories[id].supersededBy.None?
  }

  function ActiveOf(t: Tables, doc: Id): (ids: set<Id>)
    ensures ids <= Active(t)
  {
    set id | id in Active(t) && t.memories[id].docId == doc
  }

  /** `x` is a row an `ORDER BY updated_ts DESC LIMIT 1` over `ids` may return. */
  ghost predicate IsNewest(t: Tables, ids: set<Id>, x: Id) {
    && x in ids
    && ids <= t.memories.Keys
    && forall y :: y in ids ==> t.memories[y].updatedTs <= t.memories[x].updatedTs
  }

  /** The rows a promotion may rewrite: active and not tied to an entity. */
  function Promotable(t: Tables, doc: Id): (ids: set<Id>)
    ensures ids <= ActiveOf(t, doc)
  {
    set id | id in ActiveOf(t, doc) && t.memories[id].entityId.None?
  }

  /** Raw rows come before typed ones, then the most recently updated. */
  ghost predicate IsPromoted(t: Tables, doc: Id, x: Id) {
    IsNewest(t, if RawOf(t, doc) != {} then RawOf(t, doc) else Promotable(t, doc), x)
  }

  function RawOf(t: Tables, doc: Id): set<Id> {
    set id | id in Promotable(t, doc) && t.memories[id].kind.Raw?
  }

  // ---------- Statements ----------

  function NewMemory(doc: Id, kind: MemoryType, entity: Option<Id>, tags: Option<string>, confidence: real,
                     date: Option<string>, ts: int): Memory {
    Memory(doc, kind, entity, kind.DefaultWeight(), confidence, None, tags, ts, ts, date)
  }

  function Insert(t: Tables, id: Id, m: Memory): Tables {
    t.(memories := t.memories[id := m])
  }

  function Enqueue(t: Tables, doc: Id, ts: int): Tables {
    if doc in t.queue then t else t.(queue := t.queue[doc := QueueItem(ts, 0, None, "pending")])
  }

  function MarkPromoted(t: Tables, doc: Id, ts: int): Tables {
    t.(queue := t.queue[doc := if doc in t.queue then t.queue[doc].(status := "promoted", lastError := None)
                               else QueueItem(ts, 0, None, "promoted")])
  }

  function Supersede(t: Tables, old_: Id, new_: Id, ts: int): Tables {
    var key := EdgeKey(new_, old_, SUPERSEDES);
    t.(memories := if old_ in t.memories
                   then t.memories[old_ := t.memories[old_].(supersededBy := Some(new_), updatedTs := ts)]
                   else t.memories,
       edges := if key in t.edges then t.edges else t.edges[key := Edge(1.0, ts)])
  }

  /** The links to removed memories are cleared. */
  function ClearLinks(memories: map<Id, Memory>, gone: set<Id>): map<Id, Memory> {
    map id | id in memories ::
      var m := memories[id];
      if m.supersededBy.Some? && m.supersededBy.value in gone then m.(supersededBy := None) else m
  }

  function DropEdges(edges: map<EdgeKey, Edge>, gone: set<Id>): map<EdgeKey, Edge> {
    map k | k in edges && k.src !in gone && k.dst !in gone :: edges[k]
  }

  function MemoriesOf(memories: map<Id, Memory>, doc: Id): set<Id> {
    set id | id in memories && memories[id].docId == doc
  }

  /** Deleting a document removes its memories, their edges and the links to them. */
  function DeleteDoc(t: Tables, doc: Id): Tables {
    var gone := MemoriesOf(t.memories, doc);
    Tables(t.docs - {doc}, ClearLinks(t.memories, gone) - gone, DropEdges(t.edges, gone), t.queue - {doc})
  }

  // ---------- The invariant ----------

  predicate PointsInto(t: Tables, id: Id, s: set<Id>)
    requires id in t.memories
  {
    t.memories[id].supersededBy.Some? && t.memories[id].supersededBy.value in s
  }

  /** Some member of `s` is active or superseded by a memory outside `s`. */
  ghost predicate HasExit(t: Tables, s: set<Id>)
    requires s <= t.memories.Keys
  {
    exists x :: x in s && !PointsInto(t, x, s)
  }

  /** No set of memories is closed under `superseded_by`: the links are acyclic. */
  ghost predicate Acyclic(t: Tables) {
    forall s :: s <= t.memories.Keys && s != {} ==> HasExit(t, s)
  }

  ghost predicate NoDangling(t: Tables) {
    forall id :: id in t.memories && t.memories[id].supersededBy.Some? ==>
      t.memories[id].supersededBy.value in t.memories
  }

  /** Every edge joins existing memories, and the 'supersedes' edges are the `superseded_by` links. */
  ghost predicate EdgesMatch(t: Tables) {
    && (forall k :: k in t.edges ==> k.src in t.memories && k.dst in t.memories)
    && (forall k :: k in t.edges && k.edgeType == SUPERSEDES ==> t.memories[k.dst].supersededBy == Some(k.src))
    && (forall id :: id in t.memories && t.memories[id].supersededBy.Some? ==>
          EdgeKey(t.memories[id].supersededBy.value, id, SUPERSEDES) in t.edges)
  }

  ghost predicate Inv(t: Tables) {
    Acyclic(t) && NoDangling(t) && EdgesMatch(t)
  }

  // ---------- What each statement keeps ----------

  lemma InsertKeeps(t: Tables, id: Id, m: Memory)
    requires Inv(t) && id !in t.memories && m.supersededBy.None?
    ensures Inv(Insert(t, id, m))
  {
    var t' := Insert(t, id, m);
    forall s | s <= t'.memories.Keys && s != {}
      ensures HasExit(t', s)
    {
      if id in s {
        assert !PointsInto(t', id, s);
      } else {
        assert HasExit(t, s);
        var x :| x in s && !PointsInto(t, x, s);
        assert !PointsInto(t', x, s);
      }
    }
  }

  /** Rewriting an active row without touching its links keeps the invariant. */
  lemma UpdateKeeps(t: Tables, id: Id, m: Memory)
    requires Inv(t) && id in t.memories && m.supersededBy == t.memories[id].supersededBy
    ensures Inv(Insert(t, id, m))
  {
    var t' := Insert(t, id, m);
    assert t'.memories.Keys == t.memories.Keys;
    forall s | s <= t'.memories.Keys && s != {}
      ensures HasExit(t', s)
    {
      assert HasExit(t, s);
      var x :| x in s && !PointsInto(t, x, s);
      assert !PointsInto(t', x, s);
    }
  }

  /** The heart of the matter: linking one active memory under another distinct active one. */
  lemma SupersedeKeeps(t: Tables, old_: Id, new_: Id, ts: int)
    requires Inv(t)
    requires old_ in Active(t) && new_ in Active(t) && old_ != new_
    ensures Inv(Supersede(t, old_, new_, ts))
    ensures Active(Supersede(t, old_, new_, ts)) == Active(t) - {old_}
  {
    SupersedeAcyclic(t, old_, new_, ts);
    SupersedeLinks(t, old_, new_, ts);
    hide Acyclic, EdgesMatch, NoDangling;
  }

  lemma SupersedeLinks(t: Tables, old_: Id, new_: Id, ts: int)
    requires NoDangling(t) && EdgesMatch(t) && old_ in Active(t) && new_ in Active(t)
    ensures NoDangling(Supersede(t, old_, new_, ts)) && EdgesMatch(Supersede(t, old_, new_, ts))
  {
  }

  lemma SupersedeAcyclic(t: Tables, old_: Id, new_: Id, ts: int)
    requires Acyclic(t) && old_ in Active(t) && new_ in Active(t) && old_ != new_
    ensures Acyclic(Supersede(t, old_, new_, ts))
  {
    var t' := Supersede(t, old_, new_, ts);
    assert t'.memories.Keys == t.memories.Keys;
    forall s | s <= t'.memories.Keys && s != {}
      ensures HasExit(t', s)
    {
      if new_ in s {
        assert !PointsInto(t', new_, s);
      } else {
        assert HasExit(t, s);
        var x :| x in s && !PointsInto(t, x, s);
        assert !PointsInto(t', x, s);
      }
    }
  }

  lemma DeleteKeeps(t: Tables, doc: Id)
    requires Inv(t)
    ensures Inv(DeleteDoc(t, doc))
    ensures forall id :: id in DeleteDoc(t, doc).memories <==> id in t.memories && t.memories[id].docId != doc
  {
    DeleteAcyclic(t, doc);
    DeleteLinks(t, doc);
    hide Acyclic, EdgesMatch, NoDangling;
  }

  lemma DeleteLinks(t: Tables, doc: Id)
    requires NoDangling(t) && EdgesMatch(t)
    ensures NoDangling(DeleteDoc(t, doc)) && EdgesMatch(DeleteDoc(t, doc))
  {
    var t', gone := DeleteDoc(t, doc), MemoriesOf(t.memories, doc);
    KeptRows(t, doc);
    hide ClearLinks, MemoriesOf;
    forall id | id in t'.memories && t'.memories[id].supersededBy.Some?
      ensures EdgeKey(t'.memories[id].supersededBy.value, id, SUPERSEDES) in t'.edges
    {
      assert t.memories[id].supersededBy == t'.memories[id].supersededBy;
    }
  }

  /** The rows kept keep their link, unless it led to a row removed. */
  lemma KeptRows(t: Tables, doc: Id)
    ensures var t', gone := DeleteDoc(t, doc), MemoriesOf(t.memories, doc);
      && (forall id :: id in t'.memories <==> id in t.memories && id !in gone)
      && (forall id :: id in gone ==> id in t.memories)
      && forall id :: id in t'.memories ==>
           var s := t.memories[id].supersededBy;
           t'.memories[id].supersededBy == if s.Some? && s.value in gone then None else s
  {
  }

  lemma DeleteAcyclic(t: Tables, doc: Id)
    requires Acyclic(t)
    ensures Acyclic(DeleteDoc(t, doc))
  {
    var t' := DeleteDoc(t, doc);
    forall s | s <= t'.memories.Keys && s != {}
      ensures HasExit(t', s)
    {
      assert s <= t.memories.Keys;
      assert HasExit(t, s);
      var x :| x in s && !PointsInto(t, x, s);
      assert !PointsInto(t', x, s);
    }
  }

  lemma QueueKeeps(t: Tables, q: map<Id, QueueItem>, docs: map<Id, string>)
    requires Inv(t)
    ensures Inv(t.(queue := q, docs := docs))
  {
    var t' := t.(queue := q, docs := docs);
    forall s | s <= t'.memories.Keys && s != {}
      ensures HasExit(t', s)
    {
      assert HasExit(t, s);
      var x :| x in s && !PointsInto(t, x, s);
      assert !PointsInto(t', x, s);
    }
  }

  // ---------- What the invariant means ----------

  ghost predicate IsChain(t: Tables, p: seq<Id>) {
    && |p| > 0
    && (forall k :: 0 <= k < |p| ==> p[k] in t.memories)
    && (forall k :: 0 < k < |p| ==> t.memories[p[k - 1]].supersededBy == Some(p[k]))
  }

  ghost predicate EndsActive(t: Tables, id: Id) {
    exists p :: IsChain(t, p) && p[0] == id && p[|p| - 1] in Active(t)
  }

  lemma ChainGrows(t: Tables, x: Id, p: seq<Id>)
    requires IsChain(t, p) && x in t.memories && t.memories[x].supersededBy == Some(p[0])
    ensures IsChain(t, [x] + p)
  {
    var q := [x] + p;
    assert q[0] == x && forall k :: 0 < k < |q| ==> q[k] == p[k - 1];
  }

  /** Following `superseded_by` from any memory reaches an active one. */
  lemma EveryChainEndsActive(t: Tables, id: Id)
    requires Inv(t) && id in t.memories
    ensures EndsActive(t, id)
  {
    var bad := set x | x in t.memories && !EndsActive(t, x);
    if id in bad {
      assert HasExit(t, bad);
      var x :| x in bad && !PointsInto(t, x, bad);
      hide Acyclic, EdgesMatch, EndsActive, PointsInto;
      ExitEndsActive(t, x, bad);
    }
  }

  /** A memory whose link leads out of those without an end has an end itself. */
  lemma ExitEndsActive(t: Tables, x: Id, bad: set<Id>)
    requires NoDangling(t) && x in t.memories && !PointsInto(t, x, bad)
    requires forall y :: y in t.memories && y !in bad ==> EndsActive(t, y)
    ensures EndsActive(t, x)
  {
    if t.memories[x].supersededBy.None? {
      assert IsChain(t, [x]);
    } else {
      var n := t.memories[x].supersededBy.value;
      assert EndsActive(t, n);
      var p :| IsChain(t, p) && p[0] == n && p[|p| - 1] in Active(t);
      ChainGrows(t, x, p);
      assert ([x] + p)[|p|] == p[|p| - 1];
    }
  }

  /** No memory is superseded, directly or not, by itself. */
  lemma NoCycle(t: Tables, p: seq<Id>)
    requires Inv(t) && IsChain(t, p) && |p| > 1
    ensures p[0] != p[|p| - 1]
  {
    if p[0] == p[|p| - 1] {
      var s := set x | x in p;
      assert HasExit(t, s) by { assert p[0] in s; }
      forall x | x in s
        ensures PointsInto(t, x, s)
      {
        var k :| 0 <= k < |p| && p[k] == x;
        var next := if k == |p| - 1 then 1 else k + 1;
        assert t.memories[p[next - 1]].supersededBy == Some(p[next]);
      }
    }
  }
}
