/** Neighbour graphs and what can be reached in them. */
module Reachability {
  import opened Sorting

  // ---------- Graphs ----------

  /** Adjacency lists while building, compressed rows afterwards. */
  datatype Graph =
    | Lists(adj: seq<seq<nat>>)
    | Csr(offsets: seq<nat>, neighbours: seq<nat>)
  {
    function Size(): nat {
      match this
      case Lists(adj) => |adj|
      case Csr(offsets, _) => if offsets == [] then 0 else |offsets| - 1
    }

    predicate InBounds() {
      Csr? ==>
        && (forall i :: 0 <= i < |offsets| ==> offsets[i] <= |neighbours|)
        && (forall i, j :: 0 <= i <= j < |offsets| ==> offsets[i] <= offsets[j])
    }

    function Neighbours(i: nat): seq<nat>
      requires InBounds() && i < Size()
    {
      match this
      case Lists(adj) => adj[i]
      case Csr(offsets, neighbours) => neighbours[offsets[i]..offsets[i + 1]]
    }

    /** Every list names existing nodes, each once. */
    ghost predicate Valid() {
      && InBounds()
      && forall i: nat :: i < Size() ==> NoRepeats(Neighbours(i)) && forall v :: v in Neighbours(i) ==> v < Size()
    }
  }

  ghost predicate IsPath(g: Graph, p: seq<nat>)
    requires g.Valid()
  {
    && |p| > 0
    && (forall k :: 0 <= k < |p| ==> p[k] < g.Size())
    && (forall k :: 0 < k < |p| ==> p[k] in g.Neighbours(p[k - 1]))
  }

  ghost predicate Reaches(g: Graph, x: nat, y: nat)
    requires g.Valid()
  {
    exists p :: IsPath(g, p) && p[0] == x && p[|p| - 1] == y
  }

  /** The nodes that can be reached from x. */
  ghost function ReachSet(g: Graph, x: nat): set<nat>
    requires g.Valid()
  {
    set y: nat | y < g.Size() && Reaches(g, x, y)
  }

  lemma ReachSelf(g: Graph, x: nat)
    requires g.Valid() && x < g.Size()
    ensures x in ReachSet(g, x)
  {
    assert IsPath(g, [x]);
  }

  lemma ReachStep(g: Graph, x: nat, y: nat, z: nat)
    requires g.Valid() && y in ReachSet(g, x) && z in g.Neighbours(y)
    ensures z in ReachSet(g, x)
  {
    var p :| IsPath(g, p) && p[0] == x && p[|p| - 1] == y;
    PathExtends(g, p, z);
    var q := p + [z];
    assert IsPath(g, q) && q[0] == x && q[|q| - 1] == z;
  }

  lemma PathExtends(g: Graph, p: seq<nat>, z: nat)
    requires g.Valid() && IsPath(g, p) && z in g.Neighbours(p[|p| - 1])
    ensures IsPath(g, p + [z])
  {
    hide NoRepeats, Graph.Neighbours;
    var q := p + [z];
    assert forall k :: 0 <= k < |p| ==> q[k] == p[k];
    assert q[|p|] == z && z < g.Size();
    forall k | 0 < k < |q|
      ensures q[k] in g.Neighbours(q[k - 1])
    {
      if k < |p| {
        assert p[k] in g.Neighbours(p[k - 1]);
      }
    }
  }

  /** A set that holds x and is closed under neighbours holds everything reachable. */
  lemma {:induction false} PathStays(g: Graph, s: set<nat>, p: seq<nat>)
    requires g.Valid() && IsPath(g, p) && p[0] in s
    requires forall v, w :: v in s && v < g.Size() && w in g.Neighbours(v) ==> w in s
    ensures p[|p| - 1] in s
  {
    if |p| > 1 {
      var q := p[..|p| - 1];
      assert forall k :: 0 <= k < |q| ==> q[k] == p[k];
      PathStays(g, s, q);
      assert p[|p| - 1] in g.Neighbours(p[|p| - 2]);
    }
  }

  lemma ClosedHoldsReachable(g: Graph, s: set<nat>, x: nat)
    requires g.Valid() && x in s
    requires forall v, w :: v in s && v < g.Size() && w in g.Neighbours(v) ==> w in s
    ensures ReachSet(g, x) <= s
  {
    forall y | y in ReachSet(g, x)
      ensures y in s
    {
      var p :| IsPath(g, p) && p[0] == x && p[|p| - 1] == y;
      PathStays(g, s, p);
    }
  }

  // ---------- Elements ----------

  ghost function Elements(s: seq<nat>): set<nat> {
    set v | v in s
  }

  lemma SubsetCount(a: set<nat>, b: set<nat>)
    requires a <= b
    ensures |a| <= |b|
    ensures |a| == |b| ==> a == b
  {
    assert b == a + (b - a);
  }

  lemma {:induction false} ElementCount(batch: seq<nat>)
    requires NoRepeats(batch)
    ensures |Elements(batch)| == |batch|
  {
    if batch != [] {
      var n := |batch| - 1;
      ElementCount(batch[..n]);
      assert batch == batch[..n] + [batch[n]];
      assert Elements(batch) == Elements(batch[..n]) + {batch[n]};
    }
  }
}
