/**
 Compaction of a window of active memories: every connected component of the
 similarity relation is folded under its largest id. Its exact effect, its
 count, its invariant and its idempotence.
 */
module Compaction {
  import opened Prelude
  import opened Sorting
  import opened Clustering
  import opened MemoryTables
  import opened MemoryOps
  import opened MemoryEffects

  // ---------- The window ----------

  /** Active memories whose document still exists. */
  function JoinedActive(t: Tables): (ids: set<Id>)
    ensures forall x :: x in ids ==> x in t.memories && x in Active(t) && t.memories[x].docId in t.docs
  {
    set id | id in Active(t) && t.memories[id].docId in t.docs
  }

  function RowIds(rows: seq<Row>): (ids: seq<Id>)
    ensures |ids| == |rows|
    ensures forall i :: 0 <= i < |rows| ==> ids[i] == rows[i].id
  {
    seq(|rows|, i requires 0 <= i < |rows| => rows[i].id)
  }

  /** The rows the window query may return. */
  ghost predicate IsWindow(t: Tables, maxRows: nat, rows: seq<Row>) {
    && NewestFirst(t, JoinedActive(t), maxRows, RowIds(rows))
    && forall i :: 0 <= i < |rows| ==>
         rows[i].id in JoinedActive(t) && rows[i].text == t.docs[t.memories[rows[i].id].docId]
  }

  lemma WindowIdsDistinct(t: Tables, maxRows: nat, rows: seq<Row>)
    requires IsWindow(t, maxRows, rows)
    ensures forall i, j :: 0 <= i < j < |rows| ==> rows[i].id != rows[j].id
  {
    var ids := RowIds(rows);
    forall i, j | 0 <= i < j < |rows|
      ensures rows[i].id != rows[j].id
    {
      assert ids[i] != ids[j];
    }
  }

  // ---------- Folding one group ----------

  function MaxOf(ids: seq<Id>): (m: Id)
    requires ids != []
    ensures m in ids && forall x :: x in ids ==> x <= m
  {
    if |ids| == 1 then ids[0]
    else
      var rest := MaxOf(ids[1..]);
      assert ids == [ids[0]] + ids[1..];
      if ids[0] >= rest then ids[0] else rest
  }

  function Superseded(m: Memory, rep: Id, ts: int): Memory {
    m.(supersededBy := Some(rep), updatedTs := ts)
  }

  /** The first k members of the group, other than `rep`, put under `rep`. */
  function FoldGroup(t: Tables, group: seq<Id>, rep: Id, k: nat, clock: Id -> int): Tables
    requires k <= |group|
  {
    if k == 0 then t
    else
      var t1 := FoldGroup(t, group, rep, k - 1, clock);
      if group[k - 1] == rep then t1 else Supersede(t1, group[k - 1], rep, clock(group[k - 1]))
  }

  ghost predicate GroupOk(t: Tables, group: seq<Id>) {
    group != [] && NoRepeats(group) && forall x :: x in group ==> x in Active(t)
  }

  /** Rows `moved` were put under `rep`; nothing else changed. */
  ghost predicate Moved(t: Tables, t': Tables, moved: set<Id>, rep: Id, clock: Id -> int) {
    && t'.docs == t.docs && t'.queue == t.queue
    && t'.memories.Keys == t.memories.Keys
    && moved <= t.memories.Keys
    && forall id :: id in t.memories ==>
         t'.memories[id] == if id in moved then Superseded(t.memories[id], rep, clock(id)) else t.memories[id]
  }

  function PrefixSet(s: seq<Id>, k: nat): set<Id>
    requires k <= |s|
  {
    set i | 0 <= i < k :: s[i]
  }

  lemma MovedActive(t: Tables, t': Tables, moved: set<Id>, rep: Id, clock: Id -> int)
    requires Moved(t, t', moved, rep, clock)
    ensures Active(t') == Active(t) - moved
  {
    forall id
      ensures id in Active(t') <==> id in Active(t) && id !in moved
    {
      if id in t.memories {
        assert t'.memories[id] == if id in moved then Superseded(t.memories[id], rep, clock(id)) else t.memories[id];
      }
    }
  }

  lemma MovedOneMore(t: Tables, t1: Tables, moved: set<Id>, rep: Id, clock: Id -> int, x: Id)
    requires Moved(t, t1, moved, rep, clock) && x in t.memories && x !in moved
    ensures Moved(t, Supersede(t1, x, rep, clock(x)), moved + {x}, rep, clock)
  {
  }

  lemma NothingMoved(t: Tables, rep: Id, clock: Id -> int)
    ensures Moved(t, t, {}, rep, clock)
  {
  }

  lemma {:induction false} FoldGroupEffect(t: Tables, group: seq<Id>, rep: Id, k: nat, clock: Id -> int)
    requires GroupOk(t, group) && k <= |group|
    ensures Moved(t, FoldGroup(t, group, rep, k, clock), PrefixSet(group, k) - {rep}, rep, clock)
  {
    hide Moved, Supersede, Active;
    if k == 0 {
      assert PrefixSet(group, 0) - {rep} == {};
      NothingMoved(t, rep, clock);
    } else {
      FoldGroupEffect(t, group, rep, k - 1, clock);
      var x := group[k - 1];
      var before := PrefixSet(group, k - 1);
      assert x in group && x in Active(t);
      assert x !in before;
      assert PrefixSet(group, k) == before + {x};
      if x != rep {
        MovedOneMore(t, FoldGroup(t, group, rep, k - 1, clock), before - {rep}, rep, clock, x);
        assert before - {rep} + {x} == PrefixSet(group, k) - {rep};
      } else {
        assert before - {rep} == PrefixSet(group, k) - {rep};
      }
    }
  }

  lemma FoldGroupActive(t: Tables, group: seq<Id>, rep: Id, k: nat, clock: Id -> int)
    requires GroupOk(t, group) && rep in group && k < |group|
    ensures group[k] in Active(FoldGroup(t, group, rep, k, clock)) && rep in Active(FoldGroup(t, group, rep, k, clock))
  {
    FoldGroupEffect(t, group, rep, k, clock);
    MovedActive(t, FoldGroup(t, group, rep, k, clock), PrefixSet(group, k) - {rep}, rep, clock);
    var x := group[k];
    assert x in group && rep in group;
    assert x in Active(t) && rep in Active(t);
    assert x !in PrefixSet(group, k);
  }

  lemma {:induction false} FoldGroupKeeps(t: Tables, group: seq<Id>, rep: Id, k: nat, clock: Id -> int)
    requires Inv(t) && GroupOk(t, group) && rep in group && k <= |group|
    ensures Inv(FoldGroup(t, group, rep, k, clock))
  {
    hide Inv, Supersede;
    if k > 0 {
      FoldGroupKeeps(t, group, rep, k - 1, clock);
      var t1 := FoldGroup(t, group, rep, k - 1, clock);
      var x := group[k - 1];
      FoldGroupActive(t, group, rep, k - 1, clock);
      if x != rep {
        SupersedeKeeps(t1, x, rep, clock(x));
      }
    }
  }

  // ---------- Folding all groups ----------

  function FoldGroups(t: Tables, groups: seq<seq<Id>>, k: nat, clock: Id -> int): Tables
    requires k <= |groups| && forall a :: 0 <= a < |groups| ==> groups[a] != []
  {
    if k == 0 then t
    else FoldGroup(FoldGroups(t, groups, k - 1, clock), groups[k - 1], MaxOf(groups[k - 1]), |groups[k - 1]|, clock)
  }

  ghost predicate GroupsOk(t: Tables, groups: seq<seq<Id>>) {
    && (forall a :: 0 <= a < |groups| ==> GroupOk(t, groups[a]))
    && (forall a, b :: 0 <= a < b < |groups| ==> forall x :: x in groups[a] ==> x !in groups[b])
  }

  /** The members of the first k groups that are not the largest of their group. */
  ghost function Losers(groups: seq<seq<Id>>, k: nat): set<Id>
    requires k <= |groups| && forall a :: 0 <= a < |groups| ==> groups[a] != []
  {
    set a, x | 0 <= a < k && x in groups[a] && x != MaxOf(groups[a]) :: x
  }

  lemma NoLosersYet(groups: seq<seq<Id>>)
    requires forall a :: 0 <= a < |groups| ==> groups[a] != []
    ensures Losers(groups, 0) == {}
  {
  }

  /** The state after folding the first k groups, row by row. */
  ghost predicate Folded(t: Tables, t': Tables, groups: seq<seq<Id>>, k: nat, clock: Id -> int)
    requires k <= |groups| && forall a :: 0 <= a < |groups| ==> groups[a] != []
  {
    && t'.docs == t.docs && t'.queue == t.queue && t'.memories.Keys == t.memories.Keys
    && (forall a, x :: 0 <= a < k && x in groups[a] && x != MaxOf(groups[a]) ==>
          x in t.memories && t'.memories[x] == Superseded(t.memories[x], MaxOf(groups[a]), clock(x)))
    && (forall x :: x in t.memories && x !in Losers(groups, k) ==> t'.memories[x] == t.memories[x])
    && Active(t') == Active(t) - Losers(groups, k)
  }

  lemma LosersStep(groups: seq<seq<Id>>, k: nat)
    requires k < |groups| && forall a :: 0 <= a < |groups| ==> groups[a] != []
    ensures Losers(groups, k + 1) == Losers(groups, k) + (PrefixSet(groups[k], |groups[k]|) - {MaxOf(groups[k])})
  {
    forall x
      ensures x in PrefixSet(groups[k], |groups[k]|) <==> x in groups[k]
    {}
  }

  lemma GroupAvoidsLosers(t: Tables, groups: seq<seq<Id>>, k: nat)
    requires GroupsOk(t, groups) && k < |groups|
    ensures forall x :: x in groups[k] ==> x !in Losers(groups, k)
  {
  }

  lemma GroupStillOk(t: Tables, t1: Tables, groups: seq<seq<Id>>, k: nat, clock: Id -> int)
    requires GroupsOk(t, groups) && k < |groups| && Folded(t, t1, groups, k, clock)
    ensures GroupOk(t1, groups[k])
  {
    hide Losers, FoldGroup;
    GroupAvoidsLosers(t, groups, k);
    assert GroupOk(t, groups[k]);
  }

  /** The first k groups are untouched by folding group k. */
  lemma EarlierUntouched(t: Tables, groups: seq<seq<Id>>, k: nat, a: nat, x: Id)
    requires GroupsOk(t, groups) && a < k < |groups| && x in groups[a]
    ensures x !in PrefixSet(groups[k], |groups[k]|)
  {
    assert x !in groups[k];
  }

  /** One more group folded, from what the groups before it left behind. */
  lemma FoldedStep(t: Tables, t1: Tables, groups: seq<seq<Id>>, k: nat, clock: Id -> int)
    requires GroupsOk(t, groups) && k < |groups| && Folded(t, t1, groups, k, clock)
    ensures GroupOk(t1, groups[k])
    ensures Folded(t, FoldGroup(t1, groups[k], MaxOf(groups[k]), |groups[k]|, clock), groups, k + 1, clock)
  {
    hide FoldGroup, Losers, MaxOf;
    var g := groups[k];
    var rep := MaxOf(g);
    var t' := FoldGroup(t1, g, rep, |g|, clock);
    var moved := PrefixSet(g, |g|) - {rep};
    GroupStillOk(t, t1, groups, k, clock);
    GroupAvoidsLosers(t, groups, k);
    FoldGroupEffect(t1, g, rep, |g|, clock);
    MovedActive(t1, t', moved, rep, clock);
    LosersStep(groups, k);
    forall a: nat, x | a < k + 1 && x in groups[a] && x != MaxOf(groups[a])
      ensures x in t.memories && t'.memories[x] == Superseded(t.memories[x], MaxOf(groups[a]), clock(x))
    {
      if a == k {
        assert x in moved && x in Active(t1);
        assert t1.memories[x] == t.memories[x];
      } else {
        EarlierUntouched(t, groups, k, a, x);
        assert x in t1.memories;
      }
    }
  }

  lemma NothingFolded(t: Tables, groups: seq<seq<Id>>, clock: Id -> int)
    requires forall a :: 0 <= a < |groups| ==> groups[a] != []
    ensures Folded(t, t, groups, 0, clock)
  {
    NoLosersYet(groups);
  }

  lemma {:induction false} FoldGroupsEffect(t: Tables, groups: seq<seq<Id>>, k: nat, clock: Id -> int)
    requires GroupsOk(t, groups) && k <= |groups|
    ensures Folded(t, FoldGroups(t, groups, k, clock), groups, k, clock)
  {
    hide FoldGroup, Folded, Losers;
    if k == 0 {
      NothingFolded(t, groups, clock);
    } else {
      FoldGroupsEffect(t, groups, k - 1, clock);
      FoldedStep(t, FoldGroups(t, groups, k - 1, clock), groups, k - 1, clock);
    }
  }

  /** What folding group k may rely on, and how the count grows with it. */
  lemma NextFoldable(t: Tables, groups: seq<seq<Id>>, k: nat, clock: Id -> int)
    requires GroupsOk(t, groups) && k < |groups|
    ensures GroupOk(FoldGroups(t, groups, k, clock), groups[k])
    ensures |Losers(groups, k + 1)| == |Losers(groups, k)| + |PrefixSet(groups[k], |groups[k]|) - {MaxOf(groups[k])}|
  {
    hide Losers, Folded;
    FoldGroupsEffect(t, groups, k, clock);
    FoldedStep(t, FoldGroups(t, groups, k, clock), groups, k, clock);
    LosersGrow(t, groups, k);
  }

  lemma {:induction false} FoldGroupsKeeps(t: Tables, groups: seq<seq<Id>>, k: nat, clock: Id -> int)
    requires Inv(t) && GroupsOk(t, groups) && k <= |groups|
    ensures Inv(FoldGroups(t, groups, k, clock))
  {
    hide Inv, Folded, FoldGroup;
    if k > 0 {
      FoldGroupsKeeps(t, groups, k - 1, clock);
      var t1 := FoldGroups(t, groups, k - 1, clock);
      assert GroupOk(t1, groups[k - 1]) by {
        FoldGroupsEffect(t, groups, k - 1, clock);
        FoldedStep(t, t1, groups, k - 1, clock);
      }
      FoldGroupKeeps(t1, groups[k - 1], MaxOf(groups[k - 1]), |groups[k - 1]|, clock);
    }
  }

  // ---------- The edges that folding adds ----------

  /** `INSERT OR IGNORE` of one edge per key: an edge already there stays as it is. */
  function AddEdges(edges: map<EdgeKey, Edge>, keys: set<EdgeKey>, clock: Id -> int): map<EdgeKey, Edge> {
    edges + map k | k in keys && k !in edges :: Edge(1.0, clock(k.dst))
  }

  function Link(rep: Id, x: Id): EdgeKey {
    EdgeKey(rep, x, SUPERSEDES)
  }

  /** The links of the first k members of a group to `rep`. */
  function LinksTo(group: seq<Id>, rep: Id, k: nat): set<EdgeKey>
    requires k <= |group|
  {
    set i | 0 <= i < k && group[i] != rep :: Link(rep, group[i])
  }

  /** The links of the first k groups, each to its largest member. */
  function LinksOf(groups: seq<seq<Id>>, k: nat): set<EdgeKey>
    requires k <= |groups| && forall a :: 0 <= a < |groups| ==> groups[a] != []
  {
    set a, i | 0 <= a < k && 0 <= i < |groups[a]| && groups[a][i] != MaxOf(groups[a]) ::
      Link(MaxOf(groups[a]), groups[a][i])
  }

  lemma NoEdges(edges: map<EdgeKey, Edge>, clock: Id -> int)
    ensures AddEdges(edges, {}, clock) == edges
  {
  }

  lemma AddEdgesTwice(edges: map<EdgeKey, Edge>, first: set<EdgeKey>, second: set<EdgeKey>, clock: Id -> int)
    ensures AddEdges(AddEdges(edges, first, clock), second, clock) == AddEdges(edges, first + second, clock)
  {
  }

  lemma SupersedeEdge(t: Tables, x: Id, rep: Id, clock: Id -> int)
    ensures Supersede(t, x, rep, clock(x)).edges == AddEdges(t.edges, {Link(rep, x)}, clock)
  {
  }

  lemma LinksToStep(group: seq<Id>, rep: Id, k: nat)
    requires k < |group|
    ensures LinksTo(group, rep, k + 1) == LinksTo(group, rep, k) + if group[k] == rep then {} else {Link(rep, group[k])}
  {
  }

  lemma {:induction false} FoldGroupEdges(t: Tables, group: seq<Id>, rep: Id, k: nat, clock: Id -> int)
    requires k <= |group|
    ensures FoldGroup(t, group, rep, k, clock).edges == AddEdges(t.edges, LinksTo(group, rep, k), clock)
  {
    hide AddEdges, LinksTo, Supersede;
    if k == 0 {
      assert LinksTo(group, rep, 0) == {} by { LinksToNothing(group, rep); }
      NoEdges(t.edges, clock);
    } else {
      var x := group[k - 1];
      FoldGroupEdges(t, group, rep, k - 1, clock);
      LinksToStep(group, rep, k - 1);
      if x != rep {
        SupersedeEdge(FoldGroup(t, group, rep, k - 1, clock), x, rep, clock);
        AddEdgesTwice(t.edges, LinksTo(group, rep, k - 1), {Link(rep, x)}, clock);
      } else {
        assert LinksTo(group, rep, k) == LinksTo(group, rep, k - 1);
      }
    }
  }

  lemma LinksToNothing(group: seq<Id>, rep: Id)
    ensures LinksTo(group, rep, 0) == {}
  {
  }

  lemma LinksOfNothing(groups: seq<seq<Id>>)
    requires forall a :: 0 <= a < |groups| ==> groups[a] != []
    ensures LinksOf(groups, 0) == {}
  {
  }

  lemma LinksOfStep(groups: seq<seq<Id>>, k: nat)
    requires k < |groups| && forall a :: 0 <= a < |groups| ==> groups[a] != []
    ensures LinksOf(groups, k + 1) == LinksOf(groups, k) + LinksTo(groups[k], MaxOf(groups[k]), |groups[k]|)
  {
    hide MaxOf;
  }

  lemma {:induction false} FoldGroupsEdges(t: Tables, groups: seq<seq<Id>>, k: nat, clock: Id -> int)
    requires k <= |groups| && forall a :: 0 <= a < |groups| ==> groups[a] != []
    ensures FoldGroups(t, groups, k, clock).edges == AddEdges(t.edges, LinksOf(groups, k), clock)
  {
    hide AddEdges, LinksOf, LinksTo, FoldGroup, MaxOf;
    if k == 0 {
      LinksOfNothing(groups);
      NoEdges(t.edges, clock);
    } else {
      var t1, g := FoldGroups(t, groups, k - 1, clock), groups[k - 1];
      FoldGroupsEdges(t, groups, k - 1, clock);
      FoldGroupEdges(t1, g, MaxOf(g), |g|, clock);
      LinksOfStep(groups, k - 1);
      AddEdgesTwice(t.edges, LinksOf(groups, k - 1), LinksTo(g, MaxOf(g), |g|), clock);
    }
  }

  // ---------- Groups of a window are foldable ----------

  lemma {:induction false} SelectedIdsMember(rows: seq<Row>, selected: set<nat>, k: nat, x: Id)
    requires k <= |rows|
    ensures x in SelectedIds(rows, selected, k) <==> exists j: nat :: j < k && j in selected && rows[j].id == x
  {
    if k > 0 {
      SelectedIdsMember(rows, selected, k - 1, x);
    }
  }

  ghost predicate DistinctIds(rows: seq<Row>) {
    forall i, j :: 0 <= i < j < |rows| ==> rows[i].id != rows[j].id
  }

  lemma {:induction false} SelectedIdsDistinct(rows: seq<Row>, selected: set<nat>, k: nat)
    requires k <= |rows| && DistinctIds(rows)
    ensures NoRepeats(SelectedIds(rows, selected, k))
  {
    if k > 0 {
      SelectedIdsDistinct(rows, selected, k - 1);
      SelectedIdsMember(rows, selected, k - 1, rows[k - 1].id);
    }
  }

  /** A row's id is in the group of row i exactly when the two rows are connected. */
  lemma InGroup(rows: seq<Row>, g: Graph, i: nat, j: nat)
    requires g.n == |rows| && g.Valid() && DistinctIds(rows) && i < |rows| && j < |rows|
    ensures rows[j].id in AllIds(rows, g)[i] <==> Connected(g, i, j)
  {
    SelectedIdsMember(rows, Component(g, i), |rows|, rows[j].id);
    assert forall m: nat :: m < |rows| && rows[m].id == rows[j].id ==> m == j;
  }

  /** Every id in a group is a row's id. */
  lemma GroupIdIsRow(rows: seq<Row>, g: Graph, i: nat, x: Id) returns (j: nat)
    requires i < |rows| && x in AllIds(rows, g)[i]
    ensures j < |rows| && rows[j].id == x
  {
    SelectedIdsMember(rows, Component(g, i), |rows|, x);
    j :| j < |rows| && j in Component(g, i) && rows[j].id == x;
  }

  lemma SameGroup(rows: seq<Row>, g: Graph, i: nat, j: nat)
    requires g.n == |rows| && g.Valid() && i < |rows| && j < |rows| && Connected(g, i, j)
    ensures AllIds(rows, g)[i] == AllIds(rows, g)[j]
  {
    SameComponent(g, i, j);
  }

  lemma GroupsDisjoint(rows: seq<Row>, g: Graph, groups: seq<seq<Id>>, reps: seq<nat>, a: nat, b: nat, x: Id)
    requires g.n == |rows| && g.Valid() && DistinctIds(rows) && AreComponents(rows, g, groups, reps)
    requires a < |groups| && b < |groups| && x in groups[a] && x in groups[b]
    ensures a == b
  {
    var j := GroupIdIsRow(rows, g, reps[a], x);
    InGroup(rows, g, reps[a], j);
    InGroup(rows, g, reps[b], j);
    ConnectedSymmetric(g, reps[b], j);
    ConnectedTransitive(g, reps[a], j, reps[b]);
    ConnectedSymmetric(g, reps[a], reps[b]);
  }

  lemma WindowGroupsOk(t: Tables, maxRows: nat, rows: seq<Row>, g: Graph, groups: seq<seq<Id>>, reps: seq<nat>)
    requires IsWindow(t, maxRows, rows) && g.n == |rows| && g.Valid() && AreComponents(rows, g, groups, reps)
    ensures DistinctIds(rows) && GroupsOk(t, groups)
  {
    hide Connected, Component, SelectedIds;
    WindowIdsDistinct(t, maxRows, rows);
    forall a | 0 <= a < |groups|
      ensures GroupOk(t, groups[a])
    {
      SelectedIdsDistinct(rows, Component(g, reps[a]), |rows|);
      forall x | x in groups[a]
        ensures x in Active(t)
      {
        var j := GroupIdIsRow(rows, g, reps[a], x);
      }
    }
    forall a, b, x | 0 <= a < b < |groups| && x in groups[a]
      ensures x !in groups[b]
    {
      if x in groups[b] {
        GroupsDisjoint(rows, g, groups, reps, a, b, x);
      }
    }
  }

  // ---------- What compaction did, in terms of components ----------

  /** The surviving id of row i's component: its largest. */
  ghost function Survivor(rows: seq<Row>, g: Graph, i: nat): Id
    requires i < |rows|
  {
    if AllIds(rows, g)[i] == [] then rows[i].id else MaxOf(AllIds(rows, g)[i])
  }

  ghost predicate RowCompacted(t: Tables, t': Tables, rows: seq<Row>, g: Graph, clock: Id -> int, i: nat)
    requires i < |rows|
  {
    var id, rep := rows[i].id, Survivor(rows, g, i);
    && id in t.memories && id in t'.memories
    && t'.memories[id] == if id == rep then t.memories[id] else Superseded(t.memories[id], rep, clock(id))
  }

  /** The links of the window's rows to the largest ids of their components. */
  ghost function WindowLinks(rows: seq<Row>, g: Graph): set<EdgeKey> {
    set i | 0 <= i < |rows| && rows[i].id != Survivor(rows, g, i) :: Link(Survivor(rows, g, i), rows[i].id)
  }

  /**
   Every row of the window is under the largest id of its component, and the edges
   are the old ones and the links to say so; nothing else changed.
   */
  ghost predicate Compacted(t: Tables, t': Tables, rows: seq<Row>, g: Graph, clock: Id -> int) {
    && t'.docs == t.docs && t'.queue == t.queue && t'.memories.Keys == t.memories.Keys
    && (forall i: nat :: i < |rows| ==> RowCompacted(t, t', rows, g, clock, i))
    && (forall id :: id in t.memories && id !in RowIds(rows) ==> t'.memories[id] == t.memories[id])
    && t'.edges == AddEdges(t.edges, WindowLinks(rows, g), clock)
  }

  /** The largest id among the rows connected to row i. */
  ghost predicate IsTop(rows: seq<Row>, g: Graph, i: nat, rep: Id)
    requires i < |rows|
  {
    && (exists j: nat :: j < |rows| && Connected(g, i, j) && rows[j].id == rep)
    && forall j: nat :: j < |rows| && Connected(g, i, j) ==> rows[j].id <= rep
  }

  /** The row is its component's largest and stays, or is linked under it with an edge. */
  ghost predicate RowFolds(t: Tables, t': Tables, rows: seq<Row>, g: Graph, clock: Id -> int, i: nat, rep: Id)
    requires i < |rows|
  {
    var x := rows[i].id;
    && x in t.memories && x in t'.memories && IsTop(rows, g, i, rep)
    && (x == rep ==> t'.memories[x] == t.memories[x])
    && (x != rep ==>
          LinkedUnder(t.memories[x], t'.memories[x], rep, clock(x)) && EdgeKey(rep, x, "supersedes") in t'.edges)
  }

  ghost predicate RowFolded(t: Tables, t': Tables, rows: seq<Row>, g: Graph, clock: Id -> int, i: nat)
    requires i < |rows|
  {
    exists rep :: RowFolds(t, t', rows, g, clock, i, rep)
  }

  /** A new edge says that a row of the window is under its component's largest. */
  ghost predicate EdgeFolds(rows: seq<Row>, g: Graph, clock: Id -> int, key: EdgeKey, edge: Edge, i: nat) {
    && i < |rows| && key.dst == rows[i].id && key.src != key.dst && IsTop(rows, g, i, key.src)
    && key.edgeType == "supersedes" && edge == Edge(1.0, clock(rows[i].id))
  }

  /** The same, column by column: every row under its component's largest id, and nothing else changed. */
  ghost predicate Folds(t: Tables, t': Tables, rows: seq<Row>, g: Graph, clock: Id -> int) {
    && t'.docs == t.docs && t'.queue == t.queue && t'.memories.Keys == t.memories.Keys
    && (forall x :: x in t.memories && (forall i :: 0 <= i < |rows| ==> rows[i].id != x) ==>
          t'.memories[x] == t.memories[x])
    && (forall i: nat :: i < |rows| ==> RowFolded(t, t', rows, g, clock, i))
    && (forall k :: k in t.edges ==> k in t'.edges && t'.edges[k] == t.edges[k])
    && (forall k :: k in t'.edges && k !in t.edges ==> exists i :: EdgeFolds(rows, g, clock, k, t'.edges[k], i))
  }

  lemma SurvivorIsTop(rows: seq<Row>, g: Graph, i: nat)
    requires g.n == |rows| && g.Valid() && DistinctIds(rows) && i < |rows|
    ensures IsTop(rows, g, i, Survivor(rows, g, i))
  {
    hide Connected;
    var rep := Survivor(rows, g, i);
    ConnectedSelf(g, i);
    InGroup(rows, g, i, i);
    var top := GroupIdIsRow(rows, g, i, rep);
    InGroup(rows, g, i, top);
    forall j: nat | j < |rows| && Connected(g, i, j)
      ensures rows[j].id <= rep
    {
      InGroup(rows, g, i, j);
    }
  }

  lemma CompactedRows(t: Tables, t': Tables, rows: seq<Row>, g: Graph, clock: Id -> int, i: nat)
    requires g.n == |rows| && g.Valid() && DistinctIds(rows) && Compacted(t, t', rows, g, clock) && i < |rows|
    ensures RowFolds(t, t', rows, g, clock, i, Survivor(rows, g, i))
  {
    hide Survivor, IsTop;
    SurvivorIsTop(rows, g, i);
    assert RowCompacted(t, t', rows, g, clock, i);
    if rows[i].id != Survivor(rows, g, i) {
      assert Link(Survivor(rows, g, i), rows[i].id) in WindowLinks(rows, g);
    }
  }

  lemma CompactedEdge(t: Tables, t': Tables, rows: seq<Row>, g: Graph, clock: Id -> int, k: EdgeKey)
    requires g.n == |rows| && g.Valid() && DistinctIds(rows) && Compacted(t, t', rows, g, clock)
    requires k in t'.edges && k !in t.edges
    ensures exists i :: EdgeFolds(rows, g, clock, k, t'.edges[k], i)
  {
    hide Survivor, IsTop, RowCompacted;
    assert k in WindowLinks(rows, g);
    var i :| 0 <= i < |rows| && rows[i].id != Survivor(rows, g, i) && k == Link(Survivor(rows, g, i), rows[i].id);
    SurvivorIsTop(rows, g, i);
    assert EdgeFolds(rows, g, clock, k, t'.edges[k], i);
  }

  lemma CompactedMeans(t: Tables, t': Tables, rows: seq<Row>, g: Graph, clock: Id -> int)
    requires g.n == |rows| && g.Valid() && DistinctIds(rows) && Compacted(t, t', rows, g, clock)
    ensures Folds(t, t', rows, g, clock)
  {
    hide RowFolds, EdgeFolds, RowCompacted, WindowLinks;
    forall i: nat | i < |rows|
      ensures RowFolded(t, t', rows, g, clock, i)
    {
      CompactedRows(t, t', rows, g, clock, i);
      assert RowFolds(t, t', rows, g, clock, i, Survivor(rows, g, i));
    }
    forall k | k in t'.edges && k !in t.edges
      ensures exists i :: EdgeFolds(rows, g, clock, k, t'.edges[k], i)
    {
      CompactedEdge(t, t', rows, g, clock, k);
    }
    forall x | x in t.memories && forall i :: 0 <= i < |rows| ==> rows[i].id != x
      ensures t'.memories[x] == t.memories[x]
    {
      assert x !in RowIds(rows);
    }
    assert forall k :: k in t.edges ==> k in t'.edges && t'.edges[k] == t.edges[k];
  }

  lemma LoserGroup(rows: seq<Row>, g: Graph, groups: seq<seq<Id>>, reps: seq<nat>, i: nat) returns (b: nat)
    requires g.n == |rows| && g.Valid() && DistinctIds(rows) && AreComponents(rows, g, groups, reps)
    requires i < |rows| && rows[i].id in Losers(groups, |groups|)
    ensures b < |groups| && groups[b] == AllIds(rows, g)[i] && rows[i].id in groups[b] && rows[i].id != MaxOf(groups[b])
  {
    var c, x :| 0 <= c < |groups| && x in groups[c] && x != MaxOf(groups[c]) && x == rows[i].id;
    b := c;
    InGroup(rows, g, reps[b], i);
    SameGroup(rows, g, reps[b], i);
  }

  lemma TwoMembers(ids: seq<Id>, x: Id)
    requires x in ids && x != MaxOf(ids)
    ensures |ids| >= 2
  {
  }

  lemma SurvivorGroup(rows: seq<Row>, g: Graph, groups: seq<seq<Id>>, reps: seq<nat>, i: nat) returns (a: nat)
    requires g.n == |rows| && g.Valid() && DistinctIds(rows) && AreComponents(rows, g, groups, reps)
    requires i < |rows| && rows[i].id != Survivor(rows, g, i)
    ensures a < |groups| && groups[a] == AllIds(rows, g)[i] && rows[i].id in groups[a] && rows[i].id != MaxOf(groups[a])
  {
    ConnectedSelf(g, i);
    InGroup(rows, g, i, i);
    TwoMembers(AllIds(rows, g)[i], rows[i].id);
    a :| 0 <= a < |groups| && Connected(g, reps[a], i);
    SameGroup(rows, g, reps[a], i);
  }

  lemma RowOutcome(t: Tables, t': Tables, rows: seq<Row>, g: Graph, groups: seq<seq<Id>>, reps: seq<nat>,
                   clock: Id -> int, i: nat)
    requires g.n == |rows| && g.Valid() && DistinctIds(rows) && AreComponents(rows, g, groups, reps)
    requires Folded(t, t', groups, |groups|, clock)
    requires i < |rows| && rows[i].id in t.memories
    ensures RowCompacted(t, t', rows, g, clock, i)
  {
    if rows[i].id != Survivor(rows, g, i) {
      var a := SurvivorGroup(rows, g, groups, reps, i);
    } else if rows[i].id in Losers(groups, |groups|) {
      var b := LoserGroup(rows, g, groups, reps, i);
    }
  }

  lemma LosersAreRows(rows: seq<Row>, g: Graph, groups: seq<seq<Id>>, reps: seq<nat>, x: Id)
    requires AreComponents(rows, g, groups, reps) && x in Losers(groups, |groups|)
    ensures x in RowIds(rows)
  {
    var b, y :| 0 <= b < |groups| && y in groups[b] && y != MaxOf(groups[b]) && y == x;
    var j := GroupIdIsRow(rows, g, reps[b], x);
    assert RowIds(rows)[j] == x;
  }

  /** The links of all groups are the window's links. */
  lemma LinksAreWindowLinks(rows: seq<Row>, g: Graph, groups: seq<seq<Id>>, reps: seq<nat>)
    requires g.n == |rows| && g.Valid() && DistinctIds(rows) && AreComponents(rows, g, groups, reps)
    requires forall a :: 0 <= a < |groups| ==> groups[a] != []
    ensures LinksOf(groups, |groups|) == WindowLinks(rows, g)
  {
    forall key | key in WindowLinks(rows, g)
      ensures key in LinksOf(groups, |groups|)
    {
      var i :| 0 <= i < |rows| && rows[i].id != Survivor(rows, g, i) && key == Link(Survivor(rows, g, i), rows[i].id);
      WindowLinkIsGroupLink(rows, g, groups, reps, i);
    }
    forall key | key in LinksOf(groups, |groups|)
      ensures key in WindowLinks(rows, g)
    {
      var a, j :| 0 <= a < |groups| && 0 <= j < |groups[a]| && groups[a][j] != MaxOf(groups[a]) &&
        key == Link(MaxOf(groups[a]), groups[a][j]);
      GroupLinkIsWindowLink(rows, g, groups, reps, a, j);
    }
  }

  lemma WindowLinkIsGroupLink(rows: seq<Row>, g: Graph, groups: seq<seq<Id>>, reps: seq<nat>, i: nat)
    requires g.n == |rows| && g.Valid() && DistinctIds(rows) && AreComponents(rows, g, groups, reps)
    requires forall a :: 0 <= a < |groups| ==> groups[a] != []
    requires i < |rows| && rows[i].id != Survivor(rows, g, i)
    ensures Link(Survivor(rows, g, i), rows[i].id) in LinksOf(groups, |groups|)
  {
    var a := SurvivorGroup(rows, g, groups, reps, i);
    var j :| 0 <= j < |groups[a]| && groups[a][j] == rows[i].id;
    assert Link(MaxOf(groups[a]), groups[a][j]) in LinksOf(groups, |groups|);
  }

  lemma GroupLinkIsWindowLink(rows: seq<Row>, g: Graph, groups: seq<seq<Id>>, reps: seq<nat>, a: nat, j: nat)
    requires g.n == |rows| && g.Valid() && DistinctIds(rows) && AreComponents(rows, g, groups, reps)
    requires a < |groups| && j < |groups[a]| && groups[a][j] != MaxOf(groups[a])
    ensures Link(MaxOf(groups[a]), groups[a][j]) in WindowLinks(rows, g)
  {
    assert groups[a][j] in groups[a];
    var i := GroupIdIsRow(rows, g, reps[a], groups[a][j]);
    InGroup(rows, g, reps[a], i);
    SameGroup(rows, g, reps[a], i);
    assert Survivor(rows, g, i) == MaxOf(groups[a]);
  }

  /** The links are really new: no row of a window was superseded before. */
  lemma WindowLinksAreNew(t: Tables, maxRows: nat, rows: seq<Row>, g: Graph)
    requires Inv(t) && IsWindow(t, maxRows, rows)
    ensures forall key :: key in WindowLinks(rows, g) ==> key !in t.edges
  {
    hide Acyclic, SelectedIds, MaxOf;
    forall key | key in WindowLinks(rows, g)
      ensures key !in t.edges
    {
      var i: nat :| i < |rows| && rows[i].id != Survivor(rows, g, i) && key == Link(Survivor(rows, g, i), rows[i].id);
      assert rows[i].id in JoinedActive(t);
    }
  }

  /** Folding the groups of a window is compaction by components. */
  lemma FoldedIsCompacted(t: Tables, t': Tables, maxRows: nat, rows: seq<Row>, g: Graph, groups: seq<seq<Id>>,
                          reps: seq<nat>, clock: Id -> int)
    requires IsWindow(t, maxRows, rows) && g.n == |rows| && g.Valid() && AreComponents(rows, g, groups, reps)
    requires Folded(t, t', groups, |groups|, clock)
    requires t'.edges == AddEdges(t.edges, LinksOf(groups, |groups|), clock)
    ensures Compacted(t, t', rows, g, clock)
  {
    hide AddEdges, LinksOf, WindowLinks;
    WindowIdsDistinct(t, maxRows, rows);
    forall i: nat | i < |rows|
      ensures RowCompacted(t, t', rows, g, clock, i)
    {
      RowOutcome(t, t', rows, g, groups, reps, clock, i);
    }
    forall id | id in Losers(groups, |groups|)
      ensures id in RowIds(rows)
    {
      LosersAreRows(rows, g, groups, reps, id);
    }
    LinksAreWindowLinks(rows, g, groups, reps);
  }

  // ---------- Consequences ----------

  /** Two rows of a compacted window that both stay active lie in different components. */
  lemma OneSurvivorPerComponent(t: Tables, t': Tables, rows: seq<Row>, g: Graph, clock: Id -> int, i: nat, j: nat)
    requires g.n == |rows| && g.Valid() && DistinctIds(rows) && Compacted(t, t', rows, g, clock)
    requires i < |rows| && j < |rows| && Connected(g, i, j)
    requires rows[i].id in Active(t') && rows[j].id in Active(t')
    ensures i == j
  {
    assert RowCompacted(t, t', rows, g, clock, i) && RowCompacted(t, t', rows, g, clock, j);
    SameGroup(rows, g, i, j);
    ConnectedSelf(g, i);
    InGroup(rows, g, i, i);
    assert rows[i].id == Survivor(rows, g, i) == Survivor(rows, g, j) == rows[j].id;
  }

  /** ... and the largest id of every component does stay active. */
  lemma SurvivorStaysActive(t: Tables, t': Tables, rows: seq<Row>, g: Graph, clock: Id -> int, i: nat)
    requires g.n == |rows| && g.Valid() && DistinctIds(rows) && Compacted(t, t', rows, g, clock)
    requires forall k :: 0 <= k < |rows| ==> rows[k].id in Active(t)
    requires i < |rows|
    ensures exists j: nat ::
      j < |rows| && Connected(g, i, j) && rows[j].id == Survivor(rows, g, i) && rows[j].id in Active(t')
  {
    ConnectedSelf(g, i);
    InGroup(rows, g, i, i);
    var rep := Survivor(rows, g, i);
    var j := GroupIdIsRow(rows, g, i, rep);
    InGroup(rows, g, i, j);
    SameGroup(rows, g, i, j);
    assert RowCompacted(t, t', rows, g, clock, j);
    assert rows[j].id == rep && rows[j].id in Active(t');
  }

  /** After compacting a window that held every active row, any later window has no similar pair left. */
  lemma NothingLeftToFold(t: Tables, t': Tables, maxRows: nat, rows: seq<Row>, clock: Id -> int, maxRows': nat,
                          rows': seq<Row>, threshold: real)
    requires IsWindow(t, maxRows, rows) && maxRows >= |JoinedActive(t)|
    requires Compacted(t, t', rows, SimilarityGraph(rows, threshold), clock)
    requires IsWindow(t', maxRows', rows')
    ensures forall i: nat, j: nat :: i < j < |rows'| ==> !Similar(rows', threshold, i, j)
  {
    var g := SimilarityGraph(rows, threshold);
    SimilarityIsUndirected(rows, threshold);
    WindowIdsDistinct(t, maxRows, rows);
    WindowIdsDistinct(t', maxRows', rows');
    forall i: nat, j: nat | i < j < |rows'|
      ensures !Similar(rows', threshold, i, j)
    {
      var a := CoveredRow(t, t', maxRows, rows, g, clock, rows'[i].id);
      var b := CoveredRow(t, t', maxRows, rows, g, clock, rows'[j].id);
      assert rows[a].text == rows'[i].text && rows[b].text == rows'[j].text;
      if Similar(rows', threshold, i, j) {
        assert (a, b) in g.edges;
        ConnectedStep(g, a, b);
        OneSurvivorPerComponent(t, t', rows, g, clock, a, b);
      }
    }
  }

  /** Every memory still active was a row of the covering window. */
  lemma CoveredRow(t: Tables, t': Tables, maxRows: nat, rows: seq<Row>, g: Graph, clock: Id -> int, id: Id)
    returns (a: nat)
    requires IsWindow(t, maxRows, rows) && maxRows >= |JoinedActive(t)|
    requires g.n == |rows| && Compacted(t, t', rows, g, clock)
    requires id in JoinedActive(t')
    ensures a < |rows| && rows[a].id == id && t'.memories[id] == t.memories[id]
  {
    var ids := RowIds(rows);
    if id in ids {
      var k :| 0 <= k < |ids| && ids[k] == id;
      assert RowCompacted(t, t', rows, g, clock, k);
    }
    assert id in JoinedActive(t) && t'.memories[id] == t.memories[id];
    FullPick(ids, JoinedActive(t));
    a :| 0 <= a < |ids| && ids[a] == id;
  }

  /** Distinct picks as many as the set has are the whole set. */
  lemma {:induction false} FullPick(picked: seq<Id>, ids: set<Id>)
    requires NoRepeats(picked) && |picked| == |ids| && forall x :: x in picked ==> x in ids
    ensures forall x :: x in ids ==> x in picked
  {
    if picked != [] {
      var n := |picked| - 1;
      var x := picked[n];
      forall y | y in picked[..n]
        ensures y in ids - {x}
      {}
      FullPick(picked[..n], ids - {x});
      assert picked == picked[..n] + [x];
    }
  }

  /** The texts handed to the summary hook: those of the group's rows whose document exists. */
  function GroupTexts(t: Tables, group: seq<Id>): seq<string> {
    if group == [] then []
    else
      var id := group[0];
      (if id in t.memories && t.memories[id].docId in t.docs then [t.docs[t.memories[id].docId]] else [])
      + GroupTexts(t, group[1..])
  }

  /** When every row's document exists, the texts are those of the rows, in order. */
  lemma {:induction false} TextsInOrder(t: Tables, group: seq<Id>, k: nat)
    requires forall x :: x in group ==> x in t.memories && t.memories[x].docId in t.docs
    requires k < |group|
    ensures |GroupTexts(t, group)| == |group| && GroupTexts(t, group)[k] == t.docs[t.memories[group[k]].docId]
  {
    if |group| > 1 {
      TextsInOrder(t, group[1..], if k == 0 then 0 else k - 1);
    }
  }

  lemma {:induction false} DistinctCount(ids: seq<Id>)
    requires NoRepeats(ids)
    ensures |PrefixSet(ids, |ids|)| == |ids|
  {
    if ids != [] {
      var n := |ids| - 1;
      DistinctCount(ids[..n]);
      assert PrefixSet(ids, |ids|) == PrefixSet(ids[..n], n) + {ids[n]};
      assert ids[n] !in PrefixSet(ids[..n], n);
    }
  }

  lemma CountRemoved(window: set<Id>, losers: set<Id>, before: set<Id>, after: set<Id>)
    requires losers <= window <= before && after == before - losers
    ensures |losers| == |window| - |window * after|
  {
    assert window * after == window - losers;
  }

  /** As many rows are superseded as the window has rows beyond its survivors. */
  lemma LosersCount(t: Tables, t': Tables, maxRows: nat, rows: seq<Row>, g: Graph, groups: seq<seq<Id>>,
                    reps: seq<nat>, clock: Id -> int)
    requires IsWindow(t, maxRows, rows) && AreComponents(rows, g, groups, reps)
    requires Folded(t, t', groups, |groups|, clock)
    ensures |Losers(groups, |groups|)| == |rows| - |PrefixSet(RowIds(rows), |rows|) * Active(t')|
  {
    var ids := RowIds(rows);
    var window := PrefixSet(ids, |rows|);
    var losers := Losers(groups, |groups|);
    DistinctCount(ids);
    assert losers <= window by {
      forall x | x in losers
        ensures x in window
      {
        LosersAreRows(rows, g, groups, reps, x);
      }
    }
    assert window <= Active(t) by {
      forall x | x in window
        ensures x in Active(t)
      {
        var k :| 0 <= k < |rows| && ids[k] == x;
        assert rows[k].id in JoinedActive(t);
      }
    }
    CountRemoved(window, losers, Active(t), Active(t'));
  }

  /** The connected components. */
  ghost function Components(g: Graph): set<set<nat>> {
    set i | 0 <= i < g.n :: Component(g, i)
  }

  ghost function Image<T(!new)>(s: set<nat>, f: nat -> T): set<T> {
    set i | i in s :: f(i)
  }

  lemma {:induction false} InjectiveImage<T(!new)>(s: set<nat>, f: nat -> T)
    requires forall i, j :: i in s && j in s && f(i) == f(j) ==> i == j
    ensures |Image(s, f)| == |s|
  {
    if s == {} {
      assert Image(s, f) == {};
    } else {
      var i :| i in s;
      InjectiveImage(s - {i}, f);
      assert f(i) !in Image(s - {i}, f);
      assert Image(s, f) == Image(s - {i}, f) + {f(i)};
    }
  }

  /** The rows still active. */
  ghost function Survivors(t': Tables, rows: seq<Row>): set<nat> {
    set i: nat | i < |rows| && rows[i].id in Active(t')
  }

  /** One row of each component stays active. */
  lemma SurvivorsRepresent(t: Tables, t': Tables, rows: seq<Row>, g: Graph, clock: Id -> int)
    requires g.n == |rows| && g.Valid() && DistinctIds(rows) && Compacted(t, t', rows, g, clock)
    requires forall k :: 0 <= k < |rows| ==> rows[k].id in Active(t)
    ensures Image(Survivors(t', rows), (i: nat) => Component(g, i)) == Components(g)
    ensures |Survivors(t', rows)| == |Components(g)|
  {
    hide Active, Compacted, Connected, Component, Survivor;
    var f := (i: nat) => Component(g, i);
    forall c | c in Components(g)
      ensures c in Image(Survivors(t', rows), f)
    {
      var i :| 0 <= i < g.n && c == Component(g, i);
      SurvivorStaysActive(t, t', rows, g, clock, i);
      var j: nat :| j < |rows| && Connected(g, i, j) && rows[j].id == Survivor(rows, g, i) && rows[j].id in Active(t');
      SameComponent(g, i, j);
      assert j in Survivors(t', rows) && f(j) == c;
    }
    forall i, j | i in Survivors(t', rows) && j in Survivors(t', rows) && f(i) == f(j)
      ensures i == j
    {
      OneComponent(g, i, j);
      OneSurvivorPerComponent(t, t', rows, g, clock, i, j);
    }
    InjectiveImage(Survivors(t', rows), f);
  }

  lemma OneComponent(g: Graph, i: nat, j: nat)
    requires i < g.n && j < g.n && Component(g, i) == Component(g, j)
    ensures Connected(g, i, j)
  {
    ConnectedSelf(g, j);
    assert j in Component(g, j);
  }

  /** The ids still active are as many as the components. */
  lemma SurvivorsCount(t: Tables, t': Tables, rows: seq<Row>, g: Graph, clock: Id -> int)
    requires g.n == |rows| && g.Valid() && DistinctIds(rows) && Compacted(t, t', rows, g, clock)
    requires forall k :: 0 <= k < |rows| ==> rows[k].id in Active(t)
    ensures |PrefixSet(RowIds(rows), |rows|) * Active(t')| == |Components(g)|
  {
    hide Active, Compacted, Component;
    SurvivorsRepresent(t, t', rows, g, clock);
    var id := (i: nat) => if i < |rows| then rows[i].id else 0;
    InjectiveImage(Survivors(t', rows), id);
    var ids := RowIds(rows);
    assert PrefixSet(ids, |rows|) * Active(t') == Image(Survivors(t', rows), id) by {
      forall x | x in PrefixSet(ids, |rows|) * Active(t')
        ensures x in Image(Survivors(t', rows), id)
      {
        var k :| 0 <= k < |rows| && ids[k] == x;
        assert k in Survivors(t', rows) && id(k) == x;
      }
    }
  }

  lemma WindowFolds(t: Tables, t': Tables, maxRows: nat, rows: seq<Row>, threshold: real, clock: Id -> int)
    requires IsWindow(t, maxRows, rows) && Compacted(t, t', rows, SimilarityGraph(rows, threshold), clock)
    ensures Folds(t, t', rows, SimilarityGraph(rows, threshold), clock)
  {
    hide IsWindow, Similar, Compacted, Folds;
    SimilarityIsUndirected(rows, threshold);
    WindowIdsDistinct(t, maxRows, rows);
    CompactedMeans(t, t', rows, SimilarityGraph(rows, threshold), clock);
  }

  lemma PrefixCount(group: seq<Id>, rep: Id, j: nat)
    requires NoRepeats(group) && j < |group|
    ensures |PrefixSet(group, j + 1) - {rep}| == |PrefixSet(group, j) - {rep}| + (if group[j] == rep then 0 else 1)
  {
    var before, x := PrefixSet(group, j), group[j];
    assert x !in before;
    assert PrefixSet(group, j + 1) == before + {x};
    if x == rep {
      assert before + {x} - {rep} == before - {rep};
    } else {
      assert before + {x} - {rep} == (before - {rep}) + {x};
    }
  }

  lemma LosersGrow(t: Tables, groups: seq<seq<Id>>, k: nat)
    requires GroupsOk(t, groups) && k < |groups|
    ensures |Losers(groups, k + 1)| == |Losers(groups, k)| + |PrefixSet(groups[k], |groups[k]|) - {MaxOf(groups[k])}|
  {
    LosersStep(groups, k);
    GroupAvoidsLosers(t, groups, k);
    assert Losers(groups, k) !! PrefixSet(groups[k], |groups[k]|) - {MaxOf(groups[k])};
  }

  lemma WindowFoldable(t: Tables, maxRows: nat, rows: seq<Row>, threshold: real, groups: seq<seq<Id>>, reps: seq<nat>)
    requires IsWindow(t, maxRows, rows) && AreComponents(rows, SimilarityGraph(rows, threshold), groups, reps)
    ensures GroupsOk(t, groups) && forall a :: 0 <= a < |groups| ==> groups[a] != []
  {
    hide IsWindow, Similar;
    SimilarityIsUndirected(rows, threshold);
    WindowGroupsOk(t, maxRows, rows, SimilarityGraph(rows, threshold), groups, reps);
  }

  /** All groups folded: compaction by components, and the count is the rows less the components. */
  lemma FullyFolded(t: Tables, maxRows: nat, rows: seq<Row>, threshold: real, groups: seq<seq<Id>>, reps: seq<nat>,
                    clock: Id -> int)
    requires IsWindow(t, maxRows, rows) && AreComponents(rows, SimilarityGraph(rows, threshold), groups, reps)
    requires forall a :: 0 <= a < |groups| ==> groups[a] != []
    ensures var t' := FoldGroups(t, groups, |groups|, clock);
      && Compacted(t, t', rows, SimilarityGraph(rows, threshold), clock)
      && |Losers(groups, |groups|)| == |rows| - |Components(SimilarityGraph(rows, threshold))|
  {
    hide IsWindow, Similar, AreComponents, Folded, Compacted, Losers, Active;
    var g := SimilarityGraph(rows, threshold);
    var t' := FoldGroups(t, groups, |groups|, clock);
    SimilarityIsUndirected(rows, threshold);
    WindowGroupsOk(t, maxRows, rows, g, groups, reps);
    FoldGroupsEffect(t, groups, |groups|, clock);
    FoldGroupsEdges(t, groups, |groups|, clock);
    FoldedIsCompacted(t, t', maxRows, rows, g, groups, reps, clock);
    LosersCount(t, t', maxRows, rows, g, groups, reps, clock);
    WindowIdsDistinct(t, maxRows, rows);
    WindowIsActive(t, maxRows, rows);
    SurvivorsCount(t, t', rows, g, clock);
  }

  lemma WindowIsActive(t: Tables, maxRows: nat, rows: seq<Row>)
    requires IsWindow(t, maxRows, rows)
    ensures forall k :: 0 <= k < |rows| ==> rows[k].id in Active(t)
  {
    forall k | 0 <= k < |rows|
      ensures rows[k].id in Active(t)
    {
      assert RowIds(rows)[k] in JoinedActive(t);
    }
  }

  // ---------- A second run ----------

  lemma {:induction false} LoopsGoNowhere(g: Graph, p: seq<nat>)
    requires IsPath(g, p) && forall e :: e in g.edges ==> e.0 == e.1
    ensures p[0] == p[|p| - 1]
  {
    if |p| > 1 {
      var q := p[..|p| - 1];
      assert forall k :: 0 <= k < |q| ==> q[k] == p[k];
      LoopsGoNowhere(g, q);
      assert (p[|p| - 2], p[|p| - 1]) in g.edges;
    }
  }

  lemma {:induction false} AtMostOneSelected(rows: seq<Row>, selected: set<nat>, i: nat, k: nat)
    requires k <= |rows| && forall j :: j in selected ==> j == i
    ensures |SelectedIds(rows, selected, k)| <= 1
    ensures k <= i ==> SelectedIds(rows, selected, k) == []
  {
    if k > 0 {
      AtMostOneSelected(rows, selected, i, k - 1);
    }
  }

  lemma LoneComponent(g: Graph, i: nat, j: nat)
    requires forall e :: e in g.edges ==> e.0 == e.1
    requires j in Component(g, i)
    ensures j == i
  {
    var p :| IsPath(g, p) && p[0] == i && p[|p| - 1] == j;
    LoopsGoNowhere(g, p);
  }

  lemma OnlyLoops(rows: seq<Row>, threshold: real)
    requires forall i: nat, j: nat :: i < j < |rows| ==> !Similar(rows, threshold, i, j)
    ensures forall e :: e in SimilarityGraph(rows, threshold).edges ==> e.0 == e.1
  {
    hide Similar;
    SimilarityIsUndirected(rows, threshold);
  }

  /** A window without similar pairs has no group to fold. */
  lemma NoSimilarPairsNoGroups(rows: seq<Row>, threshold: real, groups: seq<seq<Id>>, reps: seq<nat>)
    requires forall i: nat, j: nat :: i < j < |rows| ==> !Similar(rows, threshold, i, j)
    requires AreComponents(rows, SimilarityGraph(rows, threshold), groups, reps)
    ensures groups == []
  {
    hide Similar, SelectedIds, SimilarityGraph, Component, Connected;
    var g := SimilarityGraph(rows, threshold);
    OnlyLoops(rows, threshold);
    if groups != [] {
      var i := reps[0];
      forall j | j in Component(g, i)
        ensures j == i
      {
        LoneComponent(g, i, j);
      }
      AtMostOneSelected(rows, Component(g, i), i, |rows|);
    }
  }

  /** After a compaction that covered every active row a second run has no group, and as many components as rows. */
  lemma SecondRun(t: Tables, t': Tables, maxRows: nat, rows: seq<Row>, clock: Id -> int, again: nat, rows': seq<Row>,
                  threshold: real, groups': seq<seq<Id>>, reps': seq<nat>)
    requires IsWindow(t, maxRows, rows) && maxRows >= |JoinedActive(t)|
    requires Compacted(t, t', rows, SimilarityGraph(rows, threshold), clock)
    requires IsWindow(t', again, rows') && AreComponents(rows', SimilarityGraph(rows', threshold), groups', reps')
    ensures groups' == [] && |rows'| == |Components(SimilarityGraph(rows', threshold))|
  {
    hide IsWindow, Compacted, Similar, AreComponents;
    NothingLeftToFold(t, t', maxRows, rows, clock, again, rows', threshold);
    NoSimilarPairsNoGroups(rows', threshold, groups', reps');
    FullyFolded(t', again, rows', threshold, groups', reps', clock);
    NoLosersYet(groups');
  }
}
