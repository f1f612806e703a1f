/** Whole runs of the memory layer: any legal sequence of operations from empty tables. */
module MemoryRuns {
  import opened Prelude
  import opened Clustering
  import opened MemoryTables
  import opened MemoryOps
  import opened Compaction

  /** One operation together with what its queries returned. */
  datatype Op =
    | AddDoc(doc: Id, text: string)
    | PutMemory(id: Id, row: Memory)
    | EnsureRaw(doc: Id, id: Id, ts: int)
    | PromoteDoc(p: Promotion, id: Id, older: Option<Id>, ts: int)
    | EvolveDoc(doc: Id, text: string, row: Memory, cfg: EvolveCfg, id: Id, picked: seq<Id>, docs: seq<Id>,
                target: Option<Id>, older: Option<Id>, mergeOk: bool, ts: int)
    | CompactWindow(threshold: real, maxRows: nat, rows: seq<Row>, groups: seq<seq<Id>>, reps: seq<nat>, done: nat,
                    clock: Id -> int)
    | Delete(doc: Id)

  const EMPTY := Tables(map[], map[], map[], map[])

  /** What the queries of an operation may return in state `t`; row ids need only be unused now. */
  ghost predicate Legal(t: Tables, op: Op) {
    match op
    case AddDoc(doc, _) => doc !in t.docs
    case PutMemory(id, row) => id !in t.memories && row.supersededBy.None?
    case EnsureRaw(doc, id, _) => if RawOf(t, doc) != {} then id in RawOf(t, doc) else id !in t.memories
    case PromoteDoc(p, id, older, ts) => Refused(p) || PromotionChoice(t, p, ts, id, older)
    case EvolveDoc(doc, text, row, cfg, id, picked, docs, target, older, _, _) =>
      && row.docId == doc && row.supersededBy.None?
      && EvolveChoice(t, doc, text, row, cfg, id, picked, docs, target, older)
    case CompactWindow(threshold, maxRows, rows, groups, reps, done, _) =>
      && IsWindow(t, maxRows, rows)
      && AreComponents(rows, SimilarityGraph(rows, threshold), groups, reps)
      && done <= |groups|
    case Delete(_) => true
  }

  ghost function Apply(t: Tables, op: Op): Tables
    requires Legal(t, op)
  {
    match op
    case AddDoc(doc, text) => t.(docs := t.docs[doc := text])
    case PutMemory(id, row) => Insert(t, id, row)
    case EnsureRaw(doc, id, ts) =>
      Enqueue(if RawOf(t, doc) != {} then t else Insert(t, id, NewMemory(doc, Raw, None, None, 1.0, None, ts)), doc, ts)
    case PromoteDoc(p, id, older, ts) => Promote(t, p, ts, id, older).0
    case EvolveDoc(_, _, row, _, id, _, _, target, older, mergeOk, ts) =>
      Evolve(t, row, id, target, older, mergeOk, ts).0
    case CompactWindow(_, _, _, groups, _, done, clock) => FoldGroups(t, groups, done, clock)
    case Delete(doc) => DeleteDoc(t, doc)
  }

  lemma CompactKeeps(t: Tables, op: Op)
    requires Inv(t) && op.CompactWindow? && Legal(t, op)
    ensures Inv(Apply(t, op))
  {
    SimilarityIsUndirected(op.rows, op.threshold);
    WindowGroupsOk(t, op.maxRows, op.rows, SimilarityGraph(op.rows, op.threshold), op.groups, op.reps);
    FoldGroupsKeeps(t, op.groups, op.done, op.clock);
  }

  lemma EnsureStepKeeps(t: Tables, op: Op)
    requires Inv(t) && op.EnsureRaw? && Legal(t, op)
    ensures Inv(Apply(t, op))
  {
    hide Inv;
    var t1 := if RawOf(t, op.doc) != {} then t
      else Insert(t, op.id, NewMemory(op.doc, Raw, None, None, 1.0, None, op.ts));
    EnsureKeeps(t, op.doc, op.ts, t1, op.id);
    QueueKeeps(t1, Enqueue(t1, op.doc, op.ts).queue, t1.docs);
  }

  /** Every operation, whatever its queries return, keeps the invariant. */
  lemma StepKeeps(t: Tables, op: Op)
    requires Inv(t) && Legal(t, op)
    ensures Inv(Apply(t, op))
  {
    match op
    case AddDoc(doc, text) => QueueKeeps(t, t.queue, t.docs[doc := text]);
    case PutMemory(id, row) => InsertKeeps(t, id, row);
    case EnsureRaw(_, _, _) => EnsureStepKeeps(t, op);
    case PromoteDoc(p, id, older, ts) => PromoteKeeps(t, p, ts, id, older);
    case EvolveDoc(doc, text, row, cfg, id, picked, docs, target, older, mergeOk, ts) =>
      EvolveKeeps(t, doc, text, row, cfg, id, picked, docs, target, older, mergeOk, ts);
    case CompactWindow(_, _, _, _, _, _, _) => CompactKeeps(t, op);
    case Delete(doc) => DeleteKeeps(t, doc);
  }

  /** `states` is a run of `ops` from empty tables. */
  ghost predicate IsRun(states: seq<Tables>, ops: seq<Op>) {
    && |states| == |ops| + 1
    && states[0] == EMPTY
    && forall k :: 0 <= k < |ops| ==> Legal(states[k], ops[k]) && states[k + 1] == Apply(states[k], ops[k])
  }

  lemma EmptyIsSound()
    ensures Inv(EMPTY)
  {
  }

  /**
   In every state of every run `superseded_by` never dangles and is acyclic,
   every chain ends at an active memory, and the 'supersedes' edges are exactly
   the links, with no edge naming a missing memory.
   */
  lemma {:induction false} EveryReachableState(states: seq<Tables>, ops: seq<Op>, k: nat)
    requires IsRun(states, ops) && k < |states|
    ensures Inv(states[k])
    ensures forall id :: id in states[k].memories ==> EndsActive(states[k], id)
    ensures forall p :: IsChain(states[k], p) && |p| > 1 ==> p[0] != p[|p| - 1]
  {
    hide Inv, Apply, Legal, EndsActive, IsChain;
    if k == 0 {
      EmptyIsSound();
    } else {
      EveryReachableState(states, ops, k - 1);
      StepKeeps(states[k - 1], ops[k - 1]);
    }
    forall id | id in states[k].memories
      ensures EndsActive(states[k], id)
    {
      EveryChainEndsActive(states[k], id);
    }
    forall p | IsChain(states[k], p) && |p| > 1
      ensures p[0] != p[|p| - 1]
    {
      NoCycle(states[k], p);
    }
  }
}
