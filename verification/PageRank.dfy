/** Personalized PageRank over `memory_edges`, in exact arithmetic. */
module PageRank {
  import opened Prelude
  import opened Sorting
  import opened Sums

  type Scores = map<I64, real>
  type OutList = seq<(I64, real)>

  const CUTOFF := 0.000_000_001

  /** The walk: weighted out-lists as fetched, a cap per list, the teleport share and its target. */
  datatype Net = Net(graph: map<I64, OutList>, cap: nat, alpha: real, teleport: Scores) {
    function Out(u: I64): OutList {
      if u in graph then graph[u][..Min(cap, |graph[u]|)] else []
    }
  }

  function Get(m: Scores, v: I64): real {
    if v in m then m[v] else 0.0
  }

  ghost function Mass(m: Scores): real {
    SumOver(m.Keys, (v: I64) => Get(m, v))
  }

  // ---------- One step, per node ----------

  function WeightSum(l: OutList): real {
    if l == [] then 0.0 else WeightSum(l[..|l| - 1]) + l[|l| - 1].1
  }

  /** The divisor of an out-list's weights. */
  function Divisor(l: OutList): (w: real)
    ensures w >= CUTOFF
  {
    if WeightSum(l) >= CUTOFF then WeightSum(l) else CUTOFF
  }

  /** The part of a unit that an out-list sends to v; a target listed twice gets both parts. */
  function ShareTo(l: OutList, w: real, v: I64): real
    requires w > 0.0
  {
    if l == [] then 0.0
    else ShareTo(l[..|l| - 1], w, v) + if l[|l| - 1].0 == v then l[|l| - 1].1 / w else 0.0
  }

  function Push(net: Net, score: real): real {
    Times(1.0 - net.alpha, score)
  }

  /** What node u with this score sends to v. */
  function Sent(net: Net, u: I64, score: real, v: I64): real {
    if score < CUTOFF then 0.0
    else if net.Out(u) == [] then Times(Push(net, score), Get(net.teleport, v))
    else Times(Push(net, score), ShareTo(net.Out(u), Divisor(net.Out(u)), v))
  }

  /** The edges that count are the first ones fetched, as many as the cap allows. */
  lemma FirstEdges(net: Net, u: I64)
    ensures u !in net.graph ==> net.Out(u) == []
    ensures u in net.graph ==> net.Out(u) <= net.graph[u] && |net.Out(u)| <= net.cap
    ensures u in net.graph && net.Out(u) != net.graph[u] ==> |net.Out(u)| == net.cap
  {
  }

  lemma {:induction false} NoPart(l: OutList, w: real, v: I64)
    requires w > 0.0 && forall i :: 0 <= i < |l| ==> l[i].0 != v
    ensures ShareTo(l, w, v) == 0.0
  {
    if l != [] {
      NoPart(l[..|l| - 1], w, v);
    }
  }

  /** Every edge to v adds its weight's part, wherever it stands in the list. */
  lemma {:induction false} EachEdgeCounts(l: OutList, w: real, v: I64, i: nat, t: I64)
    requires w > 0.0 && i < |l| && l[i].0 == v && t != v
    ensures ShareTo(l, w, v) == ShareTo(l[i := (t, l[i].1)], w, v) + l[i].1 / w
  {
    var n := |l| - 1;
    var without := l[i := (t, l[i].1)];
    if i == n {
      assert without[..n] == l[..n];
    } else {
      EachEdgeCounts(l[..n], w, v, i, t);
      assert without[..n] == l[..n][i := (t, l[i].1)];
    }
  }

  /** Any weight may be changed alone. */
  lemma {:induction false} WeightsAddUp(l: OutList, i: nat, weight: real)
    requires i < |l|
    ensures WeightSum(l[i := (l[i].0, weight)]) == WeightSum(l) - l[i].1 + weight
  {
    var n := |l| - 1;
    var changed := l[i := (l[i].0, weight)];
    if i == n {
      assert changed[..n] == l[..n];
    } else {
      WeightsAddUp(l[..n], i, weight);
      assert changed[..n] == l[..n][i := (l[i].0, weight)];
    }
  }

  /** A node of any weight to speak of hands each of its targets the part that the edge's weight is of all weights. */
  lemma SentByWeight(net: Net, u: I64, score: real, i: nat)
    requires score * 1_000_000_000.0 >= 1.0 && i < |net.Out(u)|
    requires forall k :: 0 <= k < |net.Out(u)| && k != i ==> net.Out(u)[k].0 != net.Out(u)[i].0
    requires WeightSum(net.Out(u)) * 1_000_000_000.0 >= 1.0
    ensures Sent(net, u, score, net.Out(u)[i].0) * WeightSum(net.Out(u)) == (1.0 - net.alpha) * score * net.Out(u)[i].1
  {
    var l, w := net.Out(u), WeightSum(net.Out(u));
    var v: I64, t: I64 := l[i].0, if l[i].0 == 0 then 1 else 0;
    EachEdgeCounts(l, w, v, i, t);
    NoPart(l[i := (t, l[i].1)], w, v);
    hide ShareTo, WeightSum;
    PartOfWhole((1.0 - net.alpha) * score, l[i].1, w);
  }

  lemma PartOfWhole(a: real, x: real, w: real)
    requires w > 0.0
    ensures a * (x / w) * w == a * x
  {
    var part := x / w;
    assert part * w == x;
    assert a * part * w == a * (part * w);
  }

  function Targets(net: Net, u: I64, score: real): set<I64> {
    if score < CUTOFF then {}
    else if net.Out(u) == [] then net.teleport.Keys
    else set i | 0 <= i < |net.Out(u)| :: net.Out(u)[i].0
  }

  /** What v receives from the nodes in `from`. */
  ghost function Received(net: Net, r: Scores, from: set<I64>, v: I64): real {
    SumOver(from, (u: I64) => Sent(net, u, Get(r, u), v))
  }

  /** The defining equation: teleport share plus what every node of r sends. */
  ghost predicate IsNext(net: Net, r: Scores, r': Scores) {
    && (forall v: I64 :: Get(r', v) == Times(net.alpha, Get(net.teleport, v)) + Received(net, r, r.Keys, v))
    && (forall v :: v in net.teleport ==> v in r')
    && (forall u, v :: u in r && v in Targets(net, u, Get(r, u)) ==> v in r')
    && (forall v :: v in r' ==> v in net.teleport || exists u :: u in r && v in Targets(net, u, Get(r, u)))
  }

  // ---------- The loops ----------

  /** Adds an amount to one entry, created at zero. */
  function Bump(m: Scores, v: I64, amount: real): Scores {
    m[v := Get(m, v) + amount]
  }

  /** `next` plus, on every node of `done`, a multiple of the teleport vector. */
  ghost predicate Spread(net: Net, factor: real, done: set<I64>, m: Scores, m': Scores) {
    && m'.Keys == m.Keys + done
    && forall v: I64 :: Get(m', v) == Get(m, v) + if v in done then Times(factor, Get(net.teleport, v)) else 0.0
  }

  lemma SpreadStep(net: Net, factor: real, done: set<I64>, m: Scores, m': Scores, v: I64)
    requires Spread(net, factor, done, m, m') && v !in done
    ensures Spread(net, factor, done + {v}, m, Bump(m', v, Times(factor, Get(net.teleport, v))))
  {
    hide Times;
  }

  method SpreadTeleport(net: Net, factor: real, m: Scores) returns (m': Scores)
    ensures Spread(net, factor, net.teleport.Keys, m, m')
  {
    hide Spread, Times;
    m' := m;
    var todo := net.teleport.Keys;
    SpreadNothing(net, factor, m);
    ghost var done: set<I64> := {};
    while todo != {}
      invariant todo <= net.teleport.Keys && done == net.teleport.Keys - todo
      invariant Spread(net, factor, done, m, m')
      decreases |todo|
    {
      var v := AnyOf(todo);
      SpreadStep(net, factor, done, m, m', v);
      m' := Bump(m', v, Times(factor, net.teleport[v]));
      todo, done := todo - {v}, done + {v};
    }
    assert done == net.teleport.Keys;
  }

  lemma SpreadNothing(net: Net, factor: real, m: Scores)
    ensures Spread(net, factor, {}, m, m)
  {
  }

  /** `m` plus the first k parts of an out-list. */
  ghost predicate Pushed(l: OutList, w: real, push: real, k: nat, m: Scores, m': Scores)
    requires w > 0.0 && k <= |l|
  {
    && (forall v: I64 :: Get(m', v) == Get(m, v) + Times(push, ShareTo(l[..k], w, v)))
    && (forall v :: v in m' <==> v in m || exists i :: 0 <= i < k && l[i].0 == v)
  }

  lemma PushedStep(l: OutList, w: real, push: real, k: nat, m: Scores, m': Scores)
    requires w > 0.0 && k < |l| && Pushed(l, w, push, k, m, m')
    ensures Pushed(l, w, push, k + 1, m, Bump(m', l[k].0, Times(push, l[k].1 / w)))
  {
    hide Times;
    var m'' := Bump(m', l[k].0, Times(push, l[k].1 / w));
    assert l[..k + 1][..k] == l[..k];
    forall v: I64
      ensures Get(m'', v) == Get(m, v) + Times(push, ShareTo(l[..k + 1], w, v))
    {
      Distribute(push, ShareTo(l[..k], w, v), if l[k].0 == v then l[k].1 / w else 0.0);
      TimesZero(push);
    }
  }

  lemma TimesZero(c: real)
    ensures Times(c, 0.0) == 0.0
  {
  }

  method PushAlong(l: OutList, w: real, push: real, m: Scores) returns (m': Scores)
    requires w > 0.0
    ensures Pushed(l, w, push, |l|, m, m')
  {
    m' := m;
    TimesZero(push);
    for k := 0 to |l|
      invariant Pushed(l, w, push, k, m, m')
    {
      PushedStep(l, w, push, k, m, m');
      m' := Bump(m', l[k].0, Times(push, l[k].1 / w));
    }
  }

  /** The inner body of an iteration: node u hands its score on. */
  method PushNode(net: Net, u: I64, score: real, m: Scores) returns (m': Scores)
    ensures forall v: I64 :: Get(m', v) == Get(m, v) + Sent(net, u, score, v)
    ensures m'.Keys == m.Keys + Targets(net, u, score)
  {
    hide Times;
    if score < CUTOFF {
      return m;
    }
    var l := net.Out(u);
    if l == [] {
      m' := SpreadTeleport(net, Push(net, score), m);
      TimesZero(Push(net, score));
    } else {
      m' := PushAlong(l, Divisor(l), Push(net, score), m);
      assert l[..|l|] == l;
    }
  }

  /** The state of an iteration after the nodes of `done` have been processed. */
  ghost predicate Partial(net: Net, r: Scores, done: set<I64>, m: Scores) {
    && (forall v: I64 :: Get(m, v) == Times(net.alpha, Get(net.teleport, v)) + Received(net, r, done, v))
    && (forall v :: v in net.teleport ==> v in m)
    && (forall u, v :: u in done && v in Targets(net, u, Get(r, u)) ==> v in m)
    && (forall v :: v in m ==> v in net.teleport || exists u :: u in done && v in Targets(net, u, Get(r, u)))
  }

  lemma PartialStart(net: Net, r: Scores, m: Scores)
    requires Spread(net, net.alpha, net.teleport.Keys, map[], m)
    ensures Partial(net, r, {}, m)
  {
    hide Times;
    TimesZero(net.alpha);
  }

  lemma PartialStep(net: Net, r: Scores, done: set<I64>, m: Scores, u: I64, m': Scores)
    requires Partial(net, r, done, m) && u !in done
    requires forall v: I64 :: Get(m', v) == Get(m, v) + Sent(net, u, Get(r, u), v)
    requires m'.Keys == m.Keys + Targets(net, u, Get(r, u))
    ensures Partial(net, r, done + {u}, m')
  {
    hide Times, Sent, Targets;
    forall v: I64
      ensures Get(m', v) == Times(net.alpha, Get(net.teleport, v)) + Received(net, r, done + {u}, v)
    {
      SumTake(done + {u}, (x: I64) => Sent(net, x, Get(r, x), v), u);
      assert done + {u} - {u} == done;
    }
    forall v | v in m'
      ensures v in net.teleport || exists x :: x in done + {u} && v in Targets(net, x, Get(r, x))
    {
      if v in m && v !in net.teleport {
        var x: I64 :| x in done && v in Targets(net, x, Get(r, x));
        assert x in done + {u};
      } else if v !in m {
        assert u in done + {u};
      }
    }
  }

  method Iterate(net: Net, r: Scores) returns (r': Scores)
    ensures IsNext(net, r, r')
  {
    hide Times, Sent, Targets, Received, Partial, IsNext, Spread;
    r' := SpreadTeleport(net, net.alpha, map[]);
    PartialStart(net, r, r');
    var todo := r.Keys;
    ghost var done: set<I64> := {};
    while todo != {}
      invariant todo <= r.Keys && done == r.Keys - todo
      invariant Partial(net, r, done, r')
      decreases |todo|
    {
      var u := AnyOf(todo);
      ghost var before := r';
      r' := PushNode(net, u, r[u], r');
      PartialStep(net, r, done, before, u, r');
      todo, done := todo - {u}, done + {u};
    }
    assert done == r.Keys;
    PartialAll(net, r, r');
  }

  lemma PartialAll(net: Net, r: Scores, m: Scores)
    requires Partial(net, r, r.Keys, m)
    ensures IsNext(net, r, m)
  {
    hide Times, Sent, Targets, Received;
  }

  // ---------- Mass ----------

  /** The whole of what an out-list hands on, per unit. */
  function Ratio(l: OutList): real {
    WeightSum(l) / Divisor(l)
  }

  /** What node u hands on in total. */
  ghost function Flow(net: Net, u: I64, score: real): real {
    if score < CUTOFF then 0.0
    else if net.Out(u) == [] then Times(Push(net, score), Mass(net.teleport))
    else Times(Push(net, score), Ratio(net.Out(u)))
  }

  /** Over any set holding all targets, the shares of an out-list add up to its ratio. */
  lemma {:induction false} SharesAddUp(l: OutList, w: real, keys: set<I64>)
    requires w > 0.0 && forall i :: 0 <= i < |l| ==> l[i].0 in keys
    ensures SumOver(keys, (v: I64) => ShareTo(l, w, v)) == WeightSum(l) / w
  {
    if l == [] {
      SumZero(keys, (v: I64) => ShareTo(l, w, v));
    } else {
      var k := |l| - 1;
      var rest, x, part := l[..k], l[k].0, l[k].1 / w;
      SharesAddUp(rest, w, keys);
      var one := (v: I64) => if v == x then part else 0.0;
      SumAdd(keys, (v: I64) => ShareTo(rest, w, v), one, (v: I64) => ShareTo(l, w, v));
      SumTake(keys, one, x);
      SumZero(keys - {x}, one);
      Fractions(WeightSum(rest), l[k].1, w);
    }
  }

  lemma Fractions(a: real, b: real, w: real)
    requires w > 0.0
    ensures (a + b) / w == a / w + b / w
  {
  }

  /** A node hands on exactly its flow. */
  lemma SentAddsUp(net: Net, u: I64, score: real, keys: set<I64>)
    requires Targets(net, u, score) <= keys
    ensures SumOver(keys, (v: I64) => Sent(net, u, score, v)) == Flow(net, u, score)
  {
    hide Times;
    var sent := (v: I64) => Sent(net, u, score, v);
    var l := net.Out(u);
    if score < CUTOFF {
      SumZero(keys, sent);
    } else if l == [] {
      var get := (v: I64) => Get(net.teleport, v);
      SumScale(keys, Push(net, score), get, sent);
      SumWiden(net.teleport.Keys, keys, get);
    } else {
      var shares := (v: I64) => ShareTo(l, Divisor(l), v);
      SumScale(keys, Push(net, score), shares, sent);
      forall i | 0 <= i < |l|
        ensures l[i].0 in keys
      {
        assert l[i].0 in Targets(net, u, score);
      }
      SharesAddUp(l, Divisor(l), keys);
    }
  }

  ghost function TotalFlow(net: Net, r: Scores): real {
    SumOver(r.Keys, (u: I64) => Flow(net, u, Get(r, u)))
  }

  /** The mass of the next vector: the teleport share plus every node's flow. */
  lemma MassOfNext(net: Net, r: Scores, r': Scores)
    requires IsNext(net, r, r')
    ensures Mass(r') == Times(net.alpha, Mass(net.teleport)) + TotalFlow(net, r)
  {
    hide Times, Sent, Targets, Flow;
    var keys := r'.Keys;
    var p := (u: I64, v: I64) => Sent(net, u, Get(r, u), v);
    var seeds := (v: I64) => Times(net.alpha, Get(net.teleport, v));
    var get := (v: I64) => Get(net.teleport, v);
    SumAdd(keys, seeds, (v: I64) => ColSum(p, r.Keys, v), (v: I64) => Get(r', v)) by {
      forall v | v in keys
        ensures Get(r', v) == seeds(v) + ColSum(p, r.Keys, v)
      {
        SumSame(r.Keys, (u: I64) => p(u, v), (u: I64) => Sent(net, u, Get(r, u), v));
      }
    }
    SumScale(keys, net.alpha, get, seeds);
    SumWiden(net.teleport.Keys, keys, get);
    SumSwap(p, r.Keys, keys);
    forall u | u in r.Keys
      ensures RowSum(p, u, keys) == Flow(net, u, Get(r, u))
    {
      SumSame(keys, (v: I64) => p(u, v), (v: I64) => Sent(net, u, Get(r, u), v));
      SentAddsUp(net, u, Get(r, u), keys);
    }
    SumSame(r.Keys, (u: I64) => RowSum(p, u, keys), (u: I64) => Flow(net, u, Get(r, u)));
  }

  // ---------- Main results ----------

  /** Weights are positive and every non-empty fetched list weighs at least the cutoff. */
  ghost predicate WellWeighted(net: Net) {
    forall u: I64 :: net.Out(u) != [] ==>
      WeightSum(net.Out(u)) >= CUTOFF && forall i :: 0 <= i < |net.Out(u)| ==> net.Out(u)[i].1 > 0.0
  }

  ghost predicate NonNegative(m: Scores) {
    forall v :: v in m ==> m[v] >= 0.0
  }

  function LowPart(score: real): real {
    if score < CUTOFF then score else 0.0
  }

  /** The mass sitting on nodes below the cutoff. */
  ghost function LowMass(r: Scores): real {
    SumOver(r.Keys, (u: I64) => LowPart(Get(r, u)))
  }

  lemma FlowIsShare(net: Net, u: I64, score: real)
    requires WellWeighted(net) && Mass(net.teleport) == 1.0
    ensures Flow(net, u, score) == Times(1.0 - net.alpha, score - LowPart(score))
  {
    hide SumOver, WeightSum;
    var l := net.Out(u);
    if score >= CUTOFF && l != [] {
      assert Ratio(l) == 1.0;
    }
  }

  /** Each iteration keeps alpha for the seeds and passes on the rest, less what sits below the cutoff. */
  lemma MassLaw(net: Net, r: Scores, r': Scores)
    requires IsNext(net, r, r') && WellWeighted(net) && Mass(net.teleport) == 1.0
    ensures Mass(r') == net.alpha + Times(1.0 - net.alpha, Mass(r) - LowMass(r))
  {
    hide Times, SumOver, WellWeighted, IsNext;
    MassOfNext(net, r, r');
    TotalFlowIs(net, r);
    TimesOne(net.alpha);
  }

  lemma TimesOne(c: real)
    ensures Times(c, 1.0) == c
  {
  }

  lemma TotalFlowIs(net: Net, r: Scores)
    requires WellWeighted(net) && Mass(net.teleport) == 1.0
    ensures TotalFlow(net, r) == Times(1.0 - net.alpha, Mass(r) - LowMass(r))
  {
    hide Times, Flow, LowPart, WellWeighted;
    var get, low := (u: I64) => Get(r, u), (u: I64) => LowPart(Get(r, u));
    var high := (u: I64) => Get(r, u) - LowPart(Get(r, u));
    SumAdd(r.Keys, high, low, get);
    forall u | u in r.Keys
      ensures Flow(net, u, Get(r, u)) == Times(1.0 - net.alpha, high(u))
    {
      FlowIsShare(net, u, Get(r, u));
    }
    SumScale(r.Keys, 1.0 - net.alpha, high, (u: I64) => Flow(net, u, Get(r, u)));
  }

  lemma {:induction false} SharesNonNegative(l: OutList, w: real, v: I64)
    requires w > 0.0 && forall i :: 0 <= i < |l| ==> l[i].1 > 0.0
    ensures ShareTo(l, w, v) >= 0.0
  {
    if l != [] {
      SharesNonNegative(l[..|l| - 1], w, v);
      PartNonNegative(l[|l| - 1].1, w);
    }
  }

  lemma PartNonNegative(a: real, w: real)
    requires a >= 0.0 && w > 0.0
    ensures a / w >= 0.0
  {
  }

  lemma TimesNonNegative(a: real, b: real)
    requires a >= 0.0 && b >= 0.0
    ensures Times(a, b) >= 0.0
  {
  }

  lemma SentNonNegative(net: Net, u: I64, score: real, v: I64)
    requires WellWeighted(net) && 0.0 <= net.alpha <= 1.0 && NonNegative(net.teleport)
    ensures Sent(net, u, score, v) >= 0.0
  {
    hide Times;
    if score >= CUTOFF {
      TimesNonNegative(1.0 - net.alpha, score);
      var l := net.Out(u);
      if l == [] {
        TimesNonNegative(Push(net, score), Get(net.teleport, v));
      } else {
        SharesNonNegative(l, Divisor(l), v);
        TimesNonNegative(Push(net, score), ShareTo(l, Divisor(l), v));
      }
    }
  }

  /** Scores never become negative. */
  lemma StaysNonNegative(net: Net, r: Scores, r': Scores)
    requires IsNext(net, r, r') && WellWeighted(net) && 0.0 <= net.alpha <= 1.0 && NonNegative(net.teleport)
    ensures NonNegative(r')
  {
    hide Times, Sent, WellWeighted;
    forall v | v in r'
      ensures r'[v] >= 0.0
    {
      TimesNonNegative(net.alpha, Get(net.teleport, v));
      forall u: I64
        ensures Sent(net, u, Get(r, u), v) >= 0.0
      {
        SentNonNegative(net, u, Get(r, u), v);
      }
      SumNonNegative(r.Keys, (u: I64) => Sent(net, u, Get(r, u), v));
      assert Get(r', v) == r'[v];
    }
  }

  /** The vectors of a run, starting from the teleport vector. */
  ghost predicate IsRun(net: Net, run: seq<Scores>) {
    |run| > 0 && run[0] == net.teleport && forall k :: 0 < k < |run| ==> IsNext(net, run[k - 1], run[k])
  }

  /**
   Through a whole run scores stay non-negative and mass never exceeds 1; it is 1
   exactly while nothing has been cut off, or when all of it goes back to the seeds.
   */
  lemma {:induction false} RunLaw(net: Net, run: seq<Scores>, k: nat)
    requires IsRun(net, run) && k < |run|
    requires WellWeighted(net) && 0.0 <= net.alpha <= 1.0
    requires NonNegative(net.teleport) && Mass(net.teleport) == 1.0
    ensures NonNegative(run[k]) && 0.0 <= Mass(run[k]) <= 1.0
    ensures Mass(run[k]) == 1.0 <==> net.alpha == 1.0 || forall j :: 0 <= j < k ==> LowMass(run[j]) == 0.0
  {
    hide IsNext, WellWeighted, SumOver, LowPart, Mass, LowMass, NonNegative, Times;
    if k == 0 {
      LowIsPart(run[0]);
    } else {
      RunLaw(net, run, k - 1);
      StaysNonNegative(net, run[k - 1], run[k]);
      MassLaw(net, run[k - 1], run[k]);
      LowIsPart(run[k - 1]);
      Convex(net.alpha, 1.0 - net.alpha, Mass(run[k - 1]) - LowMass(run[k - 1]), Mass(run[k]));
    }
  }

  lemma PartOfRest(c: real, x: real)
    requires c >= 0.0 && 0.0 <= x <= 1.0
    ensures 0.0 <= c * x <= c
  {
    assert c * (1.0 - x) >= 0.0;
  }

  lemma Convex(alpha: real, c: real, x: real, y: real)
    requires 0.0 <= alpha <= 1.0 && c == 1.0 - alpha && 0.0 <= x <= 1.0 && y == alpha + Times(c, x)
    ensures 0.0 <= y <= 1.0
    ensures y == 1.0 <==> alpha == 1.0 || x == 1.0
  {
    PartOfRest(c, x);
    assert Times(c, 1.0 - x) == c - Times(c, x);
    if c > 0.0 && x < 1.0 {
      assert c * (1.0 - x) > 0.0;
    }
  }

  lemma LowIsPart(r: Scores)
    requires NonNegative(r)
    ensures 0.0 <= LowMass(r) <= Mass(r)
  {
    var get, low := (u: I64) => Get(r, u), (u: I64) => LowPart(Get(r, u));
    var high := (u: I64) => Get(r, u) - LowPart(Get(r, u));
    SumAdd(r.Keys, high, low, get);
    SumNonNegative(r.Keys, high);
    SumNonNegative(r.Keys, low);
  }

  // ---------- The whole search ----------

  method Total(m: Scores) returns (total: real)
    ensures total == Mass(m)
  {
    total := 0.0;
    var todo := m.Keys;
    ghost var get := (v: I64) => Get(m, v);
    while todo != {}
      invariant todo <= m.Keys
      invariant total + SumOver(todo, get) == Mass(m)
      decreases |todo|
    {
      var v := AnyOf(todo);
      SumTake(todo, get, v);
      total := total + m[v];
      todo := todo - {v};
    }
  }

  /** Seeds scaled to mass 1, or a uniform vector when they do not add up to anything. */
  method Normalize(seeds: Scores) returns (teleport: Scores)
    requires seeds != map[]
    ensures teleport.Keys == seeds.Keys && Mass(teleport) == 1.0
    ensures Mass(seeds) > 0.0 ==> forall v :: v in seeds ==> teleport[v] == seeds[v] / Mass(seeds)
    ensures Mass(seeds) <= 0.0 ==> forall v :: v in seeds ==> teleport[v] == 1.0 / |seeds| as real
    ensures NonNegative(seeds) ==> NonNegative(teleport)
  {
    var total := Total(seeds);
    if total > 0.0 {
      teleport := map v | v in seeds :: seeds[v] / total;
      ScaledMass(seeds, teleport, total);
    } else {
      var n := |seeds| as real;
      teleport := map v | v in seeds :: 1.0 / n;
      UniformMass(teleport.Keys, teleport, 1.0 / n);
    }
  }

  lemma ScaledMass(seeds: Scores, teleport: Scores, total: real)
    requires total > 0.0 && Mass(seeds) == total && teleport.Keys == seeds.Keys
    requires forall v :: v in seeds ==> teleport[v] == seeds[v] / total
    ensures Mass(teleport) == 1.0
    ensures NonNegative(seeds) ==> NonNegative(teleport)
  {
    forall v | v in seeds
      ensures Get(teleport, v) == Times(1.0 / total, Get(seeds, v))
    {
      Reciprocal(seeds[v], total);
    }
    SumScale(seeds.Keys, 1.0 / total, (v: I64) => Get(seeds, v), (v: I64) => Get(teleport, v));
    Reciprocal(total, total);
    if NonNegative(seeds) {
      forall v | v in teleport
        ensures teleport[v] >= 0.0
      {
        PartNonNegative(seeds[v], total);
      }
    }
  }

  lemma Reciprocal(a: real, w: real)
    requires w > 0.0
    ensures a / w == Times(1.0 / w, a)
    ensures w / w == 1.0
  {
  }

  lemma {:induction false} UniformMass(keys: set<I64>, m: Scores, share: real)
    requires keys <= m.Keys && forall v :: v in m ==> m[v] == share
    ensures SumOver(keys, (v: I64) => Get(m, v)) == |keys| as real * share
    decreases |keys|
  {
    if keys != {} {
      var v := Pick(keys);
      SumTake(keys, (v: I64) => Get(m, v), v);
      UniformMass(keys - {v}, m, share);
    }
  }

  predicate Higher(a: (I64, real), b: (I64, real)) {
    a.1 >= b.1
  }

  /** The entries of the best scores, best first, each node once. */
  ghost predicate IsTop(m: Scores, limit: nat, out: seq<(I64, real)>) {
    && |out| == Min(limit, |m|)
    && (forall i :: 0 <= i < |out| ==> out[i].0 in m && out[i].1 == m[out[i].0])
    && (forall i, j :: 0 <= i < j < |out| ==> out[i].0 != out[j].0 && out[i].1 >= out[j].1)
    && (forall v, i :: v in m && 0 <= i < |out| && (forall j :: 0 <= j < |out| ==> out[j].0 != v) ==> m[v] <= out[i].1)
  }

  /** The entries of a map in some order. */
  ghost predicate AreEntries(m: Scores, pairs: seq<(I64, real)>) {
    && |pairs| == |m|
    && (forall i :: 0 <= i < |pairs| ==> pairs[i].0 in m && pairs[i].1 == m[pairs[i].0])
    && (forall i, j :: 0 <= i < j < |pairs| ==> pairs[i].0 != pairs[j].0)
    && (forall v :: v in m ==> (v, m[v]) in pairs)
  }

  method Entries(m: Scores) returns (pairs: seq<(I64, real)>)
    ensures AreEntries(m, pairs)
  {
    pairs := [];
    var todo := m.Keys;
    while todo != {}
      invariant todo <= m.Keys && |pairs| + |todo| == |m.Keys|
      invariant forall i :: 0 <= i < |pairs| ==> pairs[i].0 in m && pairs[i].0 !in todo && pairs[i].1 == m[pairs[i].0]
      invariant forall i, j :: 0 <= i < j < |pairs| ==> pairs[i].0 != pairs[j].0
      invariant forall v :: v in m && v !in todo ==> (v, m[v]) in pairs
      decreases |todo|
    {
      var v := AnyOf(todo);
      pairs, todo := pairs + [(v, m[v])], todo - {v};
    }
  }

  lemma SortedEntries(m: Scores, pairs: seq<(I64, real)>, sorted: seq<(I64, real)>)
    requires AreEntries(m, pairs) && Permutation(sorted, pairs)
    ensures AreEntries(m, sorted)
  {
    PermutationFacts(sorted, pairs);
    PermutationNoRepeats(sorted, pairs);
    forall i | 0 <= i < |sorted|
      ensures sorted[i].0 in m && sorted[i].1 == m[sorted[i].0]
    {
      assert sorted[i] in pairs;
    }
    forall i, j | 0 <= i < j < |sorted|
      ensures sorted[i].0 != sorted[j].0
    {
      assert sorted[i] != sorted[j];
    }
  }

  lemma TopOfSorted(m: Scores, sorted: seq<(I64, real)>, limit: nat)
    requires AreEntries(m, sorted) && Sorted(sorted, Higher)
    ensures IsTop(m, limit, sorted[..Min(limit, |sorted|)])
  {
    var out := sorted[..Min(limit, |sorted|)];
    forall i, j | 0 <= i < j < |out|
      ensures out[i].0 != out[j].0 && out[i].1 >= out[j].1
    {
      assert Higher(sorted[i], sorted[j]);
    }
    forall v, i | v in m && 0 <= i < |out| && (forall j :: 0 <= j < |out| ==> out[j].0 != v)
      ensures m[v] <= out[i].1
    {
      assert (v, m[v]) in sorted;
      var j :| 0 <= j < |sorted| && sorted[j] == (v, m[v]);
      assert sorted[j].0 == v && forall k :: 0 <= k < |out| ==> out[k] == sorted[k];
      assert j >= |out|;
      assert Higher(sorted[i], sorted[j]);
    }
  }

  method TopScores(m: Scores, limit: nat) returns (out: seq<(I64, real)>)
    ensures IsTop(m, limit, out)
  {
    var pairs := Entries(m);
    var sorted := Sort(pairs, Higher);
    SortedEntries(m, pairs, sorted);
    TopOfSorted(m, sorted, limit);
    out := sorted[..Min(limit, |sorted|)];
  }

  /** `run` is the run whose last vector is returned, best scores first. */
  method PersonalizedPageRank(graph: map<I64, OutList>, seeds: Scores, alpha: real, iters: nat, cap: nat, limit: nat)
    returns (out: seq<(I64, real)>, ghost net: Net, ghost run: seq<Scores>)
    ensures seeds == map[] || iters == 0 ==> out == []
    ensures seeds != map[] && iters > 0 ==>
      && net.graph == graph && net.cap == cap && net.alpha == alpha && net.teleport.Keys == seeds.Keys
      && Mass(net.teleport) == 1.0 && (NonNegative(seeds) ==> NonNegative(net.teleport))
      && (Mass(seeds) > 0.0 ==> forall v :: v in seeds ==> net.teleport[v] == seeds[v] / Mass(seeds))
      && (Mass(seeds) <= 0.0 ==> forall v :: v in seeds ==> net.teleport[v] == 1.0 / |seeds| as real)
      && IsRun(net, run) && |run| == iters + 1 && IsTop(run[iters], limit, out)
  {
    hide IsNext, SumOver;
    net, run := Net(graph, cap, alpha, map[]), [];
    if seeds == map[] || iters == 0 {
      return [], net, run;
    }
    var teleport := Normalize(seeds);
    var walk := Net(graph, cap, alpha, teleport);
    net := walk;
    var r := teleport;
    run := [r];
    for i := 0 to iters
      invariant IsRun(net, run) && |run| == i + 1 && run[i] == r
    {
      r := Iterate(walk, r);
      run := run + [r];
    }
    out := TopScores(r, limit);
  }
}
