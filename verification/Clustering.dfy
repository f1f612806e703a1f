/**
 Single-link clustering of the compaction window: a union-find with path
 compression whose groups are proved to be the connected components of the
 relation "Jaccard similarity at least the threshold".
 */
module Clustering {
  import opened Prelude
  import opened Text

  // ---------- Connectivity, independently of any union-find ----------

  /** An undirected graph on 0..n: every edge is present in both directions. */
  datatype Graph = Graph(n: nat, edges: set<(nat, nat)>) {
    ghost predicate Valid() {
      forall e :: e in edges ==> e.0 < n && e.1 < n && (e.1, e.0) in edges
    }
  }

  ghost predicate IsPath(g: Graph, p: seq<nat>) {
    && |p| > 0
    && (forall k :: 0 <= k < |p| ==> p[k] < g.n)
    && (forall k :: 0 < k < |p| ==> (p[k - 1], p[k]) in g.edges)
  }

  ghost predicate Connected(g: Graph, x: nat, y: nat) {
    exists p :: IsPath(g, p) && p[0] == x && p[|p| - 1] == y
  }

  ghost function Component(g: Graph, i: nat): set<nat> {
    set j: nat | j < g.n && Connected(g, i, j)
  }

  lemma ConnectedSelf(g: Graph, x: nat)
    requires x < g.n
    ensures Connected(g, x, x)
  {
    assert IsPath(g, [x]);
  }

  lemma ConnectedStep(g: Graph, x: nat, y: nat)
    requires g.Valid() && (x, y) in g.edges
    ensures Connected(g, x, y)
  {
    assert IsPath(g, [x, y]);
  }

  lemma ConnectedTransitive(g: Graph, x: nat, y: nat, z: nat)
    requires Connected(g, x, y) && Connected(g, y, z)
    ensures Connected(g, x, z)
  {
    var p :| IsPath(g, p) && p[0] == x && p[|p| - 1] == y;
    var q :| IsPath(g, q) && q[0] == y && q[|q| - 1] == z;
    var r := p + q[1..];
    forall k | 0 < k < |r|
      ensures (r[k - 1], r[k]) in g.edges
    {
      if k >= |p| {
        assert r[k] == q[k - |p| + 1] && r[k - 1] == q[k - |p|];
      }
    }
    assert IsPath(g, r);
  }

  lemma ConnectedSymmetric(g: Graph, x: nat, y: nat)
    requires g.Valid() && Connected(g, x, y)
    ensures Connected(g, y, x)
  {
    var p :| IsPath(g, p) && p[0] == x && p[|p| - 1] == y;
    var r := seq(|p|, k requires 0 <= k < |p| => p[|p| - 1 - k]);
    forall k | 0 < k < |r|
      ensures (r[k - 1], r[k]) in g.edges
    {
      var m := |p| - k;
      assert (p[m - 1], p[m]) in g.edges;
    }
    assert IsPath(g, r);
  }

  /** A component is the same set from any of its members. */
  lemma SameComponent(g: Graph, x: nat, y: nat)
    requires g.Valid() && Connected(g, x, y)
    ensures Component(g, x) == Component(g, y)
  {
    ConnectedSymmetric(g, x, y);
    forall j: nat | j < g.n
      ensures Connected(g, x, j) <==> Connected(g, y, j)
    {
      if Connected(g, x, j) { ConnectedTransitive(g, y, x, j); }
      if Connected(g, y, j) { ConnectedTransitive(g, x, y, j); }
    }
  }

  // ---------- The fetched rows ----------

  /** One fetched row: a memory id and the text of its document. */
  datatype Row = Row(id: Id, text: string)

  predicate Similar(rows: seq<Row>, threshold: real, i: nat, j: nat)
    requires i < |rows| && j < |rows|
  {
    Jaccard(rows[i].text, rows[j].text) >= threshold
  }

  /** Two rows are similar exactly when their common tokens are that share of all their tokens. */
  lemma SimilarCounted(rows: seq<Row>, threshold: real, i: nat, j: nat)
    requires i < |rows| && j < |rows|
    ensures var a, b := Tokens(rows[i].text), Tokens(rows[j].text); var c := |set t | t in a && t in b|;
      Similar(rows, threshold, i, j) <==>
        if a == {} && b == {} then threshold <= 0.0 else c as real >= threshold * (|a| + |b| - c) as real
  {
    hide Tokens, Jaccard;
    SimilarityCounted(rows[i].text, rows[j].text, threshold);
  }

  ghost function SimilarityGraph(rows: seq<Row>, threshold: real): (g: Graph)
    ensures g.n == |rows|
  {
    Graph(|rows|, set i: nat, j: nat | i < |rows| && j < |rows| && Similar(rows, threshold, i, j) :: (i, j))
  }

  lemma SimilarityIsUndirected(rows: seq<Row>, threshold: real)
    ensures SimilarityGraph(rows, threshold).Valid()
    ensures forall i: nat, j: nat :: i < |rows| && j < |rows| ==>
              ((i, j) in SimilarityGraph(rows, threshold).edges <==> Similar(rows, threshold, i, j))
  {
    hide Jaccard;
    forall i: nat, j: nat | i < |rows| && j < |rows| && Similar(rows, threshold, i, j)
      ensures Similar(rows, threshold, j, i)
    {
      JaccardSymmetric(rows[i].text, rows[j].text);
    }
  }

  /** The ids, in row order, of those of the first k rows whose index is selected. */
  ghost function SelectedIds(rows: seq<Row>, selected: set<nat>, k: nat): seq<Id>
    requires k <= |rows|
  {
    if k == 0 then []
    else SelectedIds(rows, selected, k - 1) + (if k - 1 in selected then [rows[k - 1].id] else [])
  }

  // ---------- The parent vector ----------

  /** `root` names node i's root and `depth` strictly falls along its parent link. */
  ghost predicate NodeOk(parent: seq<nat>, root: seq<nat>, depth: seq<nat>, i: nat)
    requires |root| == |depth| == |parent| && i < |parent|
  {
    && parent[i] < |parent| && root[i] < |parent|
    && parent[root[i]] == root[i] && root[root[i]] == root[i]
    && root[parent[i]] == root[i]
    && (parent[i] == i ==> root[i] == i)
    && (parent[i] != i ==> depth[parent[i]] < depth[i])
    && (root[i] != i ==> depth[root[i]] < depth[i])
  }

  ghost predicate Forest(parent: seq<nat>, root: seq<nat>, depth: seq<nat>) {
    && |root| == |depth| == |parent|
    && forall i: nat :: i < |parent| ==> NodeOk(parent, root, depth, i)
  }

  lemma Compress(parent: seq<nat>, root: seq<nat>, depth: seq<nat>, i: nat)
    requires Forest(parent, root, depth) && i < |parent|
    ensures root[i] < |parent|
    ensures Forest(parent[i := root[i]], root, depth)
  {
    assert NodeOk(parent, root, depth, i);
    var parent' := parent[i := root[i]];
    forall x: nat | x < |parent|
      ensures NodeOk(parent', root, depth, x)
    {
      assert NodeOk(parent, root, depth, x);
      assert NodeOk(parent, root, depth, root[x]);
    }
  }

  /** The roots after linking tree ri under rj. */
  ghost function Relabel(root: seq<nat>, ri: nat, rj: nat): (r: seq<nat>)
    ensures |r| == |root|
  {
    seq(|root|, x requires 0 <= x < |root| => if root[x] == ri then rj else root[x])
  }

  ghost function Deepen(root: seq<nat>, depth: seq<nat>, ri: nat, extra: nat): (d: seq<nat>)
    requires |depth| == |root|
    ensures |d| == |root|
  {
    seq(|root|, x requires 0 <= x < |root| => if root[x] == ri then depth[x] + extra else depth[x])
  }

  lemma Link(parent: seq<nat>, root: seq<nat>, depth: seq<nat>, ri: nat, rj: nat)
    requires Forest(parent, root, depth)
    requires ri < |parent| && rj < |parent| && root[ri] == ri && root[rj] == rj && ri != rj
    ensures Forest(parent[ri := rj], Relabel(root, ri, rj), Deepen(root, depth, ri, depth[rj] + 1))
  {
    var parent' := parent[ri := rj];
    var root' := Relabel(root, ri, rj);
    var depth' := Deepen(root, depth, ri, depth[rj] + 1);
    assert NodeOk(parent, root, depth, rj);
    forall x: nat | x < |parent|
      ensures NodeOk(parent', root', depth', x)
    {
      assert NodeOk(parent, root, depth, x);
    }
  }

  /** Find with path compression: returns the root and changes no node's root. */
  method Find(parent: array<nat>, i: nat, ghost root: seq<nat>, ghost depth: seq<nat>) returns (r: nat)
    requires i < parent.Length
    requires Forest(parent[..], root, depth)
    modifies parent
    ensures Forest(parent[..], root, depth)
    ensures r == root[i] && r < parent.Length && root[r] == r
    decreases depth[i]
  {
    assert NodeOk(parent[..], root, depth, i);
    if parent[i] != i {
      var up := Find(parent, parent[i], root, depth);
      Compress(parent[..], root, depth, i);
      ghost var compressed := parent[..][i := up];
      parent[i] := up;
      assert parent[..] == compressed;
    }
    r := parent[i];
  }

  /** Two rows compared as similar: their trees become one. */
  method Union(parent: array<nat>, i: nat, j: nat, ghost root: seq<nat>, ghost depth: seq<nat>)
    returns (ghost root': seq<nat>, ghost depth': seq<nat>)
    requires i < parent.Length && j < parent.Length
    requires Forest(parent[..], root, depth)
    modifies parent
    ensures Forest(parent[..], root', depth')
    ensures root' == Relabel(root, root[i], root[j])
  {
    var ri := Find(parent, i, root, depth);
    var rj := Find(parent, j, root, depth);
    root', depth' := root, depth;
    if ri != rj {
      Link(parent[..], root, depth, ri, rj);
      ghost var linked := parent[..][ri := rj];
      parent[ri] := rj;
      assert parent[..] == linked;
      root', depth' := Relabel(root, ri, rj), Deepen(root, depth, ri, depth[rj] + 1);
    } else {
      assert root' == Relabel(root, ri, rj);
    }
  }

  // ---------- Roots are components ----------

  /** Every root names a member of its node's component. */
  ghost predicate Sound(g: Graph, root: seq<nat>)
    requires |root| == g.n
  {
    forall x: nat :: x < g.n ==> Connected(g, x, root[x])
  }

  /** The pair (x, y) has been compared when the loops stand at (i, j). */
  predicate Compared(x: nat, y: nat, i: nat, j: nat) {
    x < y && (x < i || (x == i && y < j))
  }

  /** Similar pairs already compared share a root. */
  ghost predicate Joined(g: Graph, root: seq<nat>, i: nat, j: nat)
    requires |root| == g.n
  {
    forall x: nat, y: nat :: Compared(x, y, i, j) && y < g.n && (x, y) in g.edges ==> root[x] == root[y]
  }

  lemma RelabelSound(g: Graph, root: seq<nat>, i: nat, j: nat)
    requires g.Valid() && |root| == g.n && i < g.n && j < g.n
    requires Sound(g, root) && (i, j) in g.edges
    ensures Sound(g, Relabel(root, root[i], root[j]))
  {
    var root' := Relabel(root, root[i], root[j]);
    forall x: nat | x < g.n
      ensures Connected(g, x, root'[x])
    {
      if root[x] == root[i] {
        ConnectedSymmetric(g, i, root[i]);
        ConnectedTransitive(g, x, root[i], i);
        ConnectedStep(g, i, j);
        ConnectedTransitive(g, x, i, j);
        ConnectedTransitive(g, x, j, root[j]);
      }
    }
  }

  lemma RelabelJoins(g: Graph, root: seq<nat>, i: nat, j: nat)
    requires |root| == g.n && i < j < g.n && Joined(g, root, i, j)
    ensures Joined(g, Relabel(root, root[i], root[j]), i, j + 1)
  {
  }

  ghost predicate PairMatches(g: Graph, root: seq<nat>, x: nat, y: nat)
    requires |root| == g.n && x < g.n && y < g.n
  {
    root[x] == root[y] <==> Connected(g, x, y)
  }

  ghost predicate RootsMatch(g: Graph, root: seq<nat>) {
    && |root| == g.n
    && forall x: nat, y: nat :: x < g.n && y < g.n ==> PairMatches(g, root, x, y)
  }

  lemma {:induction false} PathKeepsRoot(g: Graph, root: seq<nat>, p: seq<nat>)
    requires g.Valid() && |root| == g.n && IsPath(g, p)
    requires Joined(g, root, g.n, 0)
    ensures root[p[0]] == root[p[|p| - 1]]
  {
    if |p| > 1 {
      var x, y := p[0], p[1];
      assert (x, y) in g.edges && (y, x) in g.edges;
      assert Compared(x, y, g.n, 0) || Compared(y, x, g.n, 0) || x == y;
      var q := p[1..];
      assert forall k :: 0 < k < |q| ==> q[k - 1] == p[k] && q[k] == p[k + 1];
      PathKeepsRoot(g, root, q);
    }
  }

  /** Once all pairs are compared, one root means one component and conversely. */
  lemma RootsAreComponents(g: Graph, root: seq<nat>)
    requires g.Valid() && |root| == g.n
    requires Sound(g, root) && Joined(g, root, g.n, 0)
    ensures RootsMatch(g, root)
  {
    forall x: nat, y: nat | x < g.n && y < g.n
      ensures PairMatches(g, root, x, y)
    {
      if root[x] == root[y] {
        ConnectedSymmetric(g, y, root[y]);
        ConnectedTransitive(g, x, root[x], y);
      }
      if Connected(g, x, y) {
        var p :| IsPath(g, p) && p[0] == x && p[|p| - 1] == y;
        PathKeepsRoot(g, root, p);
      }
    }
  }

  lemma Singletons(parent: seq<nat>, depth: seq<nat>)
    requires |depth| == |parent| && forall i: nat :: i < |parent| ==> parent[i] == i
    ensures Forest(parent, parent, depth)
  {
  }

  /** The double loop over pairs: afterwards roots are components. */
  method JoinAll(rows: seq<Row>, threshold: real, parent: array<nat>, ghost g: Graph)
    returns (ghost root: seq<nat>, ghost depth: seq<nat>)
    requires parent.Length == |rows| == g.n && g.Valid()
    requires forall i: nat, j: nat :: i < g.n && j < g.n ==> ((i, j) in g.edges <==> Similar(rows, threshold, i, j))
    requires forall i :: 0 <= i < |rows| ==> parent[i] == i
    modifies parent
    ensures Forest(parent[..], root, depth)
    ensures RootsMatch(g, root)
  {
    hide Forest, Similar, Connected;
    var n := |rows|;
    root, depth := parent[..], seq(n, _ => 0);
    Singletons(parent[..], depth);
    forall x: nat | x < n
      ensures Connected(g, x, root[x])
    {
      ConnectedSelf(g, x);
    }
    for i := 0 to n
      invariant Forest(parent[..], root, depth)
      invariant |root| == n && Sound(g, root)
      invariant Joined(g, root, i, 0)
    {
      for j := i + 1 to n
        invariant Forest(parent[..], root, depth)
        invariant |root| == n && Sound(g, root)
        invariant Joined(g, root, i, j)
      {
        if Similar(rows, threshold, i, j) {
          RelabelSound(g, root, i, j);
          RelabelJoins(g, root, i, j);
          root, depth := Union(parent, i, j, root, depth);
        }
      }
    }
    RootsAreComponents(g, root);
  }

  // ---------- Grouping ----------

  ghost function SameRoot(root: seq<nat>, r: nat): set<nat> {
    set x: nat | x < |root| && root[x] == r
  }

  /** `groups` holds, for every root of the first k rows, the ids of its rows in order. */
  ghost predicate Grouped(rows: seq<Row>, root: seq<nat>, groups: map<nat, seq<Id>>, k: nat)
    requires |root| == |rows| && k <= |rows|
  {
    && (forall x: nat :: x < k ==> root[x] in groups)
    && (forall r :: r in groups ==> exists x: nat :: x < k && root[x] == r)
    && (forall r :: r in groups ==> groups[r] == SelectedIds(rows, SameRoot(root, r), k))
  }

  lemma {:induction false} UnseenRootIsEmpty(rows: seq<Row>, root: seq<nat>, r: nat, k: nat)
    requires |root| == |rows| && k <= |rows|
    requires forall x: nat :: x < k ==> root[x] != r
    ensures SelectedIds(rows, SameRoot(root, r), k) == []
  {
    if k > 0 {
      UnseenRootIsEmpty(rows, root, r, k - 1);
    }
  }

  lemma GroupedStep(rows: seq<Row>, root: seq<nat>, groups: map<nat, seq<Id>>, k: nat)
    requires |root| == |rows| && k < |rows| && Grouped(rows, root, groups, k)
    ensures
      var r := root[k];
      Grouped(rows, root, groups[r := (if r in groups then groups[r] else []) + [rows[k].id]], k + 1)
  {
    var r := root[k];
    var groups' := groups[r := (if r in groups then groups[r] else []) + [rows[k].id]];
    if r !in groups {
      UnseenRootIsEmpty(rows, root, r, k);
    }
    forall q | q in groups'
      ensures groups'[q] == SelectedIds(rows, SameRoot(root, q), k + 1)
    {
      assert k in SameRoot(root, q) <==> q == r;
    }
    forall q | q in groups'
      ensures exists x: nat :: x < k + 1 && root[x] == q
    {
      if q == r {
        assert root[k] == q;
      }
    }
  }

  /** The grouping loop: the ids of each tree, in row order. */
  method GroupByRoot(rows: seq<Row>, parent: array<nat>, ghost root: seq<nat>, ghost depth: seq<nat>)
    returns (groups: map<nat, seq<Id>>)
    requires parent.Length == |rows|
    requires Forest(parent[..], root, depth)
    modifies parent
    ensures Grouped(rows, root, groups, |rows|)
  {
    groups := map[];
    for i := 0 to |rows|
      invariant Forest(parent[..], root, depth)
      invariant Grouped(rows, root, groups, i)
    {
      var r := Find(parent, i, root, depth);
      GroupedStep(rows, root, groups, i);
      groups := groups[r := (if r in groups then groups[r] else []) + [rows[i].id]];
    }
  }

  /** Some chosen row has root r. */
  ghost predicate Taken(root: seq<nat>, reps: seq<nat>, r: nat) {
    exists a :: 0 <= a < |reps| && reps[a] < |root| && root[reps[a]] == r
  }

  /** Each chosen row stands for its group, which has at least two members. */
  ghost predicate Chosen(ids: seq<seq<Id>>, groups: seq<seq<Id>>, reps: seq<nat>) {
    && |reps| == |groups|
    && forall a :: 0 <= a < |groups| ==> reps[a] < |ids| && groups[a] == ids[reps[a]] && |groups[a]| >= 2
  }

  /** The groups taken so far, out of the groups `ids[i]` of all rows i: those whose root is not waiting. */
  ghost predicate Emitted(ids: seq<seq<Id>>, root: seq<nat>, todo: set<nat>, groups: seq<seq<Id>>, reps: seq<nat>)
    requires |root| == |ids|
  {
    && Chosen(ids, groups, reps)
    && (forall a :: 0 <= a < |reps| ==> root[reps[a]] !in todo)
    && (forall a, b :: 0 <= a < b < |reps| ==> root[reps[a]] != root[reps[b]])
    && (forall i: nat :: i < |ids| && root[i] !in todo && |ids[i]| >= 2 ==> Taken(root, reps, root[i]))
  }

  lemma EmittedNone(ids: seq<seq<Id>>, root: seq<nat>, todo: set<nat>)
    requires |root| == |ids| && forall i: nat :: i < |ids| ==> root[i] in todo
    ensures Emitted(ids, root, todo, [], [])
  {
  }

  lemma TakenMore(root: seq<nat>, reps: seq<nat>, x: nat, r: nat)
    requires x < |root| && (Taken(root, reps, r) || root[x] == r)
    ensures Taken(root, reps + [x], r)
  {
    var reps' := reps + [x];
    if root[x] == r {
      assert reps'[|reps|] == x;
    } else {
      var a :| 0 <= a < |reps| && reps[a] < |root| && root[reps[a]] == r;
      assert reps'[a] == reps[a];
    }
  }

  /** Taking one more tree from the waiting ones. */
  lemma EmittedStep(ids: seq<seq<Id>>, root: seq<nat>, todo: set<nat>, groups: seq<seq<Id>>, reps: seq<nat>, x: nat)
    requires |root| == |ids| && x < |ids| && root[x] in todo
    requires forall i: nat :: i < |ids| && root[i] == root[x] ==> ids[i] == ids[x]
    requires Emitted(ids, root, todo, groups, reps)
    ensures
      if |ids[x]| >= 2 then Emitted(ids, root, todo - {root[x]}, groups + [ids[x]], reps + [x])
      else Emitted(ids, root, todo - {root[x]}, groups, reps)
  {
    hide Taken;
    var left := todo - {root[x]};
    if |ids[x]| >= 2 {
      forall i: nat | i < |ids| && root[i] !in left && |ids[i]| >= 2
        ensures Taken(root, reps + [x], root[i])
      {
        TakenMore(root, reps, x, root[i]);
      }
    }
  }

  lemma RootIsComponent(g: Graph, root: seq<nat>, i: nat)
    requires RootsMatch(g, root) && i < g.n
    ensures SameRoot(root, root[i]) == Component(g, i)
  {
    forall j: nat | j < g.n
      ensures j in SameRoot(root, root[i]) <==> j in Component(g, i)
    {
      assert PairMatches(g, root, i, j);
    }
  }

  ghost function AllIds(rows: seq<Row>, g: Graph): (ids: seq<seq<Id>>)
    ensures |ids| == |rows|
    ensures forall i: nat :: i < |rows| ==> ids[i] == SelectedIds(rows, Component(g, i), |rows|)
  {
    seq(|rows|, i requires 0 <= i < |rows| => SelectedIds(rows, Component(g, i), |rows|))
  }

  lemma RootGivesIds(rows: seq<Row>, g: Graph, root: seq<nat>, x: nat)
    requires g.n == |rows| && RootsMatch(g, root) && x < |rows|
    ensures SelectedIds(rows, SameRoot(root, root[x]), |rows|) == AllIds(rows, g)[x]
    ensures forall i: nat :: i < |rows| && root[i] == root[x] ==> AllIds(rows, g)[i] == AllIds(rows, g)[x]
  {
    RootIsComponent(g, root, x);
    forall i: nat | i < |rows| && root[i] == root[x]
      ensures AllIds(rows, g)[i] == AllIds(rows, g)[x]
    {
      RootIsComponent(g, root, i);
    }
  }

  /**
   `groups` lists the components with at least two members, each once;
   `reps[a]` is a row of the a-th group.
   */
  ghost predicate AreComponents(rows: seq<Row>, g: Graph, groups: seq<seq<Id>>, reps: seq<nat>) {
    && |reps| == |groups|
    && (forall a :: 0 <= a < |groups| ==>
          reps[a] < |rows| && groups[a] == AllIds(rows, g)[reps[a]] && |groups[a]| >= 2)
    && (forall a, b :: 0 <= a < b < |groups| ==> !Connected(g, reps[a], reps[b]))
    && (forall i: nat :: i < |rows| && |AllIds(rows, g)[i]| >= 2 ==> Represented(g, reps, i))
  }

  /** Row i is connected to a chosen row. */
  ghost predicate Represented(g: Graph, reps: seq<nat>, i: nat) {
    exists a :: 0 <= a < |reps| && Connected(g, reps[a], i)
  }

  lemma TakenIsRepresented(g: Graph, root: seq<nat>, reps: seq<nat>, i: nat)
    requires RootsMatch(g, root) && i < g.n && Taken(root, reps, root[i])
    ensures Represented(g, reps, i)
  {
    hide Connected;
    var a :| 0 <= a < |reps| && reps[a] < |root| && root[reps[a]] == root[i];
    assert PairMatches(g, root, reps[a], i);
  }

  lemma EmittedIsAll(rows: seq<Row>, g: Graph, root: seq<nat>, groups: seq<seq<Id>>, reps: seq<nat>)
    requires g.n == |rows| && RootsMatch(g, root)
    requires Emitted(AllIds(rows, g), root, {}, groups, reps)
    ensures AreComponents(rows, g, groups, reps)
  {
    hide Connected, AllIds, Represented, Taken;
    forall a, b | 0 <= a < b < |groups|
      ensures !Connected(g, reps[a], reps[b])
    {
      assert PairMatches(g, root, reps[a], reps[b]);
    }
    forall i: nat | i < |rows| && |AllIds(rows, g)[i]| >= 2
      ensures Represented(g, reps, i)
    {
      TakenIsRepresented(g, root, reps, i);
    }
  }

  /** The ids, in row order, of a component with at least two members. */
  ghost predicate IsGroup(rows: seq<Row>, g: Graph, group: seq<Id>) {
    exists i: nat :: i < |rows| && group == AllIds(rows, g)[i] && |group| >= 2
  }

  lemma GroupListed(rows: seq<Row>, g: Graph, groups: seq<seq<Id>>, reps: seq<nat>, i: nat)
    requires g.n == |rows| && g.Valid() && AreComponents(rows, g, groups, reps)
    requires i < |rows| && |AllIds(rows, g)[i]| >= 2
    ensures AllIds(rows, g)[i] in groups
  {
    hide Connected, Component, SelectedIds;
    assert Represented(g, reps, i);
    var a :| 0 <= a < |reps| && Connected(g, reps[a], i);
    SameComponent(g, reps[a], i);
    assert groups[a] == AllIds(rows, g)[reps[a]] == AllIds(rows, g)[i];
  }

  lemma GroupsAreComponents(rows: seq<Row>, g: Graph, groups: seq<seq<Id>>, reps: seq<nat>)
    requires g.n == |rows| && g.Valid() && AreComponents(rows, g, groups, reps)
    ensures forall group :: group in groups <==> IsGroup(rows, g, group)
  {
    hide Connected, Component, SelectedIds, AllIds, Represented;
    forall group | IsGroup(rows, g, group)
      ensures group in groups
    {
      var i: nat :| i < |rows| && group == AllIds(rows, g)[i] && |group| >= 2;
      GroupListed(rows, g, groups, reps, i);
    }
    forall a | 0 <= a < |groups|
      ensures IsGroup(rows, g, groups[a])
    {
    }
  }

  /** Cluster the window: the groups are exactly the components with at least two members. */
  method ClusterForCompact(rows: seq<Row>, threshold: real) returns (groups: seq<seq<Id>>, ghost reps: seq<nat>)
    ensures AreComponents(rows, SimilarityGraph(rows, threshold), groups, reps)
    ensures forall group :: group in groups <==> IsGroup(rows, SimilarityGraph(rows, threshold), group)
  {
    hide Connected, Component, Forest, Similar, SimilarityGraph, PairMatches, Emitted, AreComponents, IsGroup;
    ghost var g := SimilarityGraph(rows, threshold);
    SimilarityIsUndirected(rows, threshold);
    var parent := new nat[|rows|](i => i);
    ghost var root, depth := JoinAll(rows, threshold, parent, g);
    var byRoot := GroupByRoot(rows, parent, root, depth);
    groups, reps := [], [];
    var todo := byRoot.Keys;
    ghost var ids := AllIds(rows, g);
    EmittedNone(ids, root, todo);
    while todo != {}
      invariant todo <= byRoot.Keys
      invariant Emitted(ids, root, todo, groups, reps)
      decreases |todo|
    {
      var r :| r in todo;
      ghost var x: nat :| x < |rows| && root[x] == r;
      RootGivesIds(rows, g, root, x);
      EmittedStep(ids, root, todo, groups, reps, x);
      todo := todo - {r};
      if |byRoot[r]| >= 2 {
        groups, reps := groups + [byRoot[r]], reps + [x];
      }
    }
    EmittedIsAll(rows, g, root, groups, reps);
    GroupsAreComponents(rows, g, groups, reps);
  }
}
