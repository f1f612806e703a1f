/**
 Late-interaction scoring in exact arithmetic: the unrolled dot product, int8
 quantization, and a bound on what quantization does to a max-sim score.
 */
module Quantization {
  import opened Sums

  function Abs(x: real): (r: real)
    ensures r >= 0.0 && r >= x && r >= -x
  {
    if x >= 0.0 then x else -x
  }

  // ---------- Dot products ----------

  function Dot(a: seq<real>, b: seq<real>): real
    requires |a| == |b|
  {
    if a == [] then 0.0
    else
      var n := |a| - 1;
      Dot(a[..n], b[..n]) + Times(a[n], b[n])
  }

  lemma DotStep(a: seq<real>, b: seq<real>, k: nat)
    requires |a| == |b| && k < |a|
    ensures Dot(a[..k + 1], b[..k + 1]) == Dot(a[..k], b[..k]) + Times(a[k], b[k])
  {
    assert a[..k + 1][..k] == a[..k] && b[..k + 1][..k] == b[..k];
  }

  lemma DotFourSteps(a: seq<real>, b: seq<real>, k: nat)
    requires |a| == |b| && k + 4 <= |a|
    ensures Dot(a[..k + 4], b[..k + 4]) == Dot(a[..k], b[..k])
      + Times(a[k], b[k]) + Times(a[k + 1], b[k + 1]) + Times(a[k + 2], b[k + 2]) + Times(a[k + 3], b[k + 3])
  {
    hide Dot, Times;
    DotStep(a, b, k);
    DotStep(a, b, k + 1);
    DotStep(a, b, k + 2);
    DotStep(a, b, k + 3);
  }

  /** Four accumulators and a tail: the same sum of products. */
  method DotUnrolled(a: seq<real>, b: seq<real>) returns (d: real)
    requires |a| == |b|
    ensures d == Dot(a, b)
  {
    assert a[..0] == [] && b[..0] == [] && Dot([], []) == 0.0;
    hide Dot, Times;
    var n := |a|;
    var acc0, acc1, acc2, acc3 := 0.0, 0.0, 0.0, 0.0;
    var i := 0;
    while i + 4 <= n
      invariant i <= n
      invariant acc0 + acc1 + acc2 + acc3 == Dot(a[..i], b[..i])
    {
      DotFourSteps(a, b, i);
      acc0 := acc0 + Times(a[i], b[i]);
      acc1 := acc1 + Times(a[i + 1], b[i + 1]);
      acc2 := acc2 + Times(a[i + 2], b[i + 2]);
      acc3 := acc3 + Times(a[i + 3], b[i + 3]);
      i := i + 4;
    }
    while i < n
      invariant i <= n
      invariant acc0 + acc1 + acc2 + acc3 == Dot(a[..i], b[..i])
    {
      DotStep(a, b, i);
      acc0 := acc0 + Times(a[i], b[i]);
      i := i + 1;
    }
    assert a[..n] == a && b[..n] == b;
    d := (acc0 + acc1) + (acc2 + acc3);
  }

  function DotI8(a: seq<int>, b: seq<int>): int
    requires |a| == |b|
  {
    if a == [] then 0
    else
      var n := |a| - 1;
      DotI8(a[..n], b[..n]) + a[n] * b[n]
  }

  // ---------- Quantization ----------

  function MaxAbs(v: seq<real>): (m: real)
    ensures m >= 0.0
    ensures forall i :: 0 <= i < |v| ==> Abs(v[i]) <= m
    ensures m == 0.0 || exists i :: 0 <= i < |v| && Abs(v[i]) == m
  {
    if v == [] then 0.0
    else
      var n := |v| - 1;
      var rest := MaxAbs(v[..n]);
      if Abs(v[n]) > rest then Abs(v[n]) else rest
  }

  /** Nearest integer, halves away from zero. */
  function Round(x: real): (r: int)
    ensures Abs(r as real - x) <= 0.5
  {
    if x >= 0.0 then (x + 0.5).Floor else -((-x + 0.5).Floor)
  }

  function Clamp(x: int): int {
    if x < -127 then -127 else if x > 127 then 127 else x
  }

  datatype Quantized = Quantized(values: seq<int>, scale: real)

  function QuantI8(v: seq<real>): (q: Quantized)
    ensures |q.values| == |v| && q.scale > 0.0
  {
    var m := MaxAbs(v);
    if m == 0.0 then Quantized(seq(|v|, _ => 0), 1.0)
    else
      var scale := m / 127.0;
      Quantized(seq(|v|, i requires 0 <= i < |v| => Clamp(Round(v[i] / scale))), scale)
  }

  function DequantI8(q: Quantized): (v: seq<real>)
    ensures |v| == |q.values|
    ensures forall i :: 0 <= i < |v| ==> v[i] == Times(q.values[i] as real, q.scale)
  {
    seq(|q.values|, i requires 0 <= i < |q.values| => Times(q.values[i] as real, q.scale))
  }

  lemma CancelRight(y: real, c: real, s: real)
    requires s > 0.0 && y * s <= c * s
    ensures y <= c
  {
    assert y > c ==> (y - c) * s > 0.0;
  }

  lemma DivideBack(x: real, s: real)
    requires s > 0.0
    ensures Times(x / s, s) == x
  {
  }

  lemma ScaledRange(x: real, m: real, scale: real)
    requires scale > 0.0 && m == 127.0 * scale && Abs(x) <= m
    ensures -127.0 <= x / scale <= 127.0
  {
    DivideBack(x, scale);
    CancelRight(x / scale, 127.0, scale);
    CancelRight(-127.0, x / scale, scale);
  }

  lemma RoundInRange(x: real)
    requires -127.0 <= x <= 127.0
    ensures -127 <= Round(x) <= 127
  {
  }

  /** One component: int8 range, at most half a scale off, and never beyond the largest component. */
  lemma ComponentError(v: seq<real>, i: nat)
    requires i < |v|
    ensures var q := QuantI8(v);
      && -127 <= q.values[i] <= 127
      && Abs(DequantI8(q)[i]) <= MaxAbs(v)
      && Abs(DequantI8(q)[i] - v[i]) <= MaxAbs(v) / 254.0
      && (MaxAbs(v) > 0.0 ==> Abs(DequantI8(q)[i] - v[i]) <= q.scale / 2.0)
  {
    var q := QuantI8(v);
    var m := MaxAbs(v);
    if m > 0.0 {
      NonzeroComponent(v[i], m, m / 127.0);
      assert q.values[i] == Clamp(Round(v[i] / (m / 127.0)));
    } else {
      assert q.values[i] == 0 && DequantI8(q)[i] == Times(0.0, 1.0) == 0.0;
    }
  }

  lemma NonzeroComponent(x: real, m: real, scale: real)
    requires scale > 0.0 && m == 127.0 * scale && Abs(x) <= m
    ensures var k := Clamp(Round(x / scale));
      && -127 <= k <= 127
      && Abs(Times(k as real, scale)) <= m
      && Abs(Times(k as real, scale) - x) <= scale / 2.0
  {
    ScaledRange(x, m, scale);
    var y := x / scale;
    RoundInRange(y);
    DivideBack(x, scale);
    ScaleError(Round(y) as real, y, scale);
    ScaleBound(Round(y) as real, scale);
    hide Times, Round;
  }

  lemma ScaleError(k: real, y: real, scale: real)
    requires scale > 0.0 && Abs(k - y) <= 0.5
    ensures Abs(Times(k, scale) - Times(y, scale)) <= scale / 2.0
  {
    AbsProduct(k - y, scale, 0.5, scale);
    assert Times(k - y, scale) == Times(k, scale) - Times(y, scale);
    assert Times(0.5, scale) == scale / 2.0;
    hide Times;
  }

  lemma ProductAtMost(x: real, c: real, s: real)
    requires s >= 0.0 && x <= c
    ensures Times(x, s) <= Times(c, s)
    ensures Times(s, x) <= Times(s, c)
  {
    assert (c - x) * s >= 0.0;
  }

  lemma ScaleBound(k: real, scale: real)
    requires scale > 0.0 && -127.0 <= k <= 127.0
    ensures Abs(Times(k, scale)) <= 127.0 * scale
  {
    ProductAtMost(k, 127.0, scale);
    ProductAtMost(-127.0, k, scale);
  }

  // ---------- One dot product ----------

  lemma {:induction false} ScaledDot(a: Quantized, b: Quantized)
    requires |a.values| == |b.values|
    ensures RawScore(a, b) == Dot(DequantI8(a), DequantI8(b))
    decreases |a.values|
  {
    if a.values != [] {
      var n := |a.values| - 1;
      var a', b' := a.(values := a.values[..n]), b.(values := b.values[..n]);
      ScaledDot(a', b');
      assert DequantI8(a)[..n] == DequantI8(a') && DequantI8(b)[..n] == DequantI8(b');
      hide Times;
      Regroup(DotI8(a'.values, b'.values), a.values[n], b.values[n], a.scale, b.scale);
    }
  }

  lemma Regroup(d: int, x: int, y: int, s: real, t: real)
    ensures Times(Times((d + x * y) as real, s), t) ==
      Times(Times(d as real, s), t) + Times(Times(x as real, s), Times(y as real, t))
  {
    assert (d + x * y) as real == d as real + x as real * y as real;
  }

  /** A product of two perturbed factors. */
  lemma ProductError(a: real, a': real, b: real, b': real, ma: real, mb: real)
    requires Abs(a) <= ma && Abs(b') <= mb && Abs(a' - a) <= ma / 254.0 && Abs(b' - b) <= mb / 254.0
    ensures Abs(Times(a', b') - Times(a, b)) <= Times(ma, mb) / 127.0
  {
    Telescope(a, a', b, b');
    AbsProduct(a' - a, b', ma / 254.0, mb);
    AbsProduct(a, b' - b, ma, mb / 254.0);
    HalfAndHalf(ma, mb);
    hide Times;
  }

  lemma Telescope(a: real, a': real, b: real, b': real)
    ensures Times(a', b') - Times(a, b) == Times(a' - a, b') + Times(a, b' - b)
  {
  }

  lemma HalfAndHalf(ma: real, mb: real)
    ensures Times(ma / 254.0, mb) + Times(ma, mb / 254.0) == Times(ma, mb) / 127.0
  {
    assert (ma / 254.0) * mb == ma * mb / 254.0;
    assert ma * (mb / 254.0) == ma * mb / 254.0;
  }

  lemma AbsProduct(x: real, y: real, mx: real, my: real)
    requires Abs(x) <= mx && Abs(y) <= my
    ensures Abs(Times(x, y)) <= Times(mx, my)
  {
    AbsOfProduct(x, y);
    hide Times;
    ProductAtMost(Abs(x), mx, Abs(y));
    ProductAtMost(Abs(y), my, mx);
  }

  lemma AbsOfProduct(x: real, y: real)
    ensures Abs(Times(x, y)) == Times(Abs(x), Abs(y))
  {
    assert (-x) * y == -(x * y) && x * (-y) == -(x * y) && (-x) * (-y) == x * y;
    if x >= 0.0 && y >= 0.0 {
      assert x * y >= 0.0;
    } else if x < 0.0 && y < 0.0 {
      assert (-x) * (-y) >= 0.0;
    } else if x >= 0.0 {
      assert x * (-y) >= 0.0;
    } else {
      assert (-x) * y >= 0.0;
    }
  }

  ghost predicate Bounded(v: seq<real>, m: real) {
    m >= 0.0 && forall i :: 0 <= i < |v| ==> Abs(v[i]) <= m
  }

  lemma {:induction false} DotError(a: seq<real>, a': seq<real>, b: seq<real>, b': seq<real>, e: real)
    requires |a| == |a'| == |b| == |b'|
    requires forall i :: 0 <= i < |a| ==> Abs(Times(a'[i], b'[i]) - Times(a[i], b[i])) <= e
    ensures Abs(Dot(a', b') - Dot(a, b)) <= Times(|a| as real, e)
  {
    hide Times;
    if a == [] {
      NoneOf(e);
    } else {
      var n := |a| - 1;
      var p, p' := Times(a[n], b[n]), Times(a'[n], b'[n]);
      var r, r' := Dot(a[..n], b[..n]), Dot(a'[..n], b'[..n]);
      DotError(a[..n], a'[..n], b[..n], b'[..n], e);
      assert Dot(a, b) == r + p && Dot(a', b') == r' + p';
      OneMore(n, e);
    }
  }

  lemma NoneOf(x: real)
    ensures Times(0 as real, x) == 0.0
  {
  }

  lemma OneMore(n: nat, x: real)
    ensures Times((n + 1) as real, x) == Times(n as real, x) + x
  {
  }

  function RawScore(q: Quantized, d: Quantized): real
    requires |q.values| == |d.values|
  {
    Times(Times(DotI8(q.values, d.values) as real, q.scale), d.scale)
  }

  /** Quantizing both vectors moves their dot product by at most n Mq Md / 127. */
  lemma PairError(q: seq<real>, d: seq<real>, mq: real, md: real)
    requires |q| == |d| && Bounded(q, mq) && Bounded(d, md)
    ensures Abs(RawScore(QuantI8(q), QuantI8(d)) - Dot(q, d)) <= Times(|q| as real, Times(mq, md) / 127.0)
  {
    hide Times, Abs, MaxAbs, QuantI8, DequantI8, Dot, RawScore, Bounded;
    var q', d' := DequantI8(QuantI8(q)), DequantI8(QuantI8(d));
    ScaledDot(QuantI8(q), QuantI8(d));
    forall i | 0 <= i < |q|
      ensures Abs(Times(q'[i], d'[i]) - Times(q[i], d[i])) <= Times(mq, md) / 127.0
    {
      ComponentPair(q, d, mq, md, i);
    }
    DotError(q, q', d, d', Times(mq, md) / 127.0);
  }

  lemma ComponentPair(q: seq<real>, d: seq<real>, mq: real, md: real, i: nat)
    requires |q| == |d| && Bounded(q, mq) && Bounded(d, md) && i < |q|
    ensures Abs(Times(DequantI8(QuantI8(q))[i], DequantI8(QuantI8(d))[i]) - Times(q[i], d[i])) <= Times(mq, md) / 127.0
  {
    hide Times, Abs, MaxAbs, QuantI8, DequantI8;
    TightBound(q, mq);
    TightBound(d, md);
    ComponentError(q, i);
    ComponentError(d, i);
    ProductError(q[i], DequantI8(QuantI8(q))[i], d[i], DequantI8(QuantI8(d))[i], mq, md);
  }

  lemma TightBound(v: seq<real>, m: real)
    requires Bounded(v, m)
    ensures MaxAbs(v) <= m
  {
  }

  // ---------- Max-sim ----------

  /** The largest dot product of q with a document vector; the fold starts below everything. */
  function Best(q: seq<real>, docs: seq<seq<real>>): (m: real)
    requires docs != [] && forall i :: 0 <= i < |docs| ==> |docs[i]| == |q|
    ensures exists i :: 0 <= i < |docs| && m == Dot(q, docs[i])
    ensures forall i :: 0 <= i < |docs| ==> Dot(q, docs[i]) <= m
  {
    hide Dot;
    var n := |docs| - 1;
    var last := Dot(q, docs[n]);
    if n == 0 then last
    else
      var m := Best(q, docs[..n]);
      if last > m then last else m
  }

  function BestI8(q: Quantized, docs: seq<Quantized>): (m: real)
    requires docs != [] && forall i :: 0 <= i < |docs| ==> |docs[i].values| == |q.values|
    ensures exists i :: 0 <= i < |docs| && m == RawScore(q, docs[i])
    ensures forall i :: 0 <= i < |docs| ==> RawScore(q, docs[i]) <= m
  {
    hide RawScore;
    var n := |docs| - 1;
    var last := RawScore(q, docs[n]);
    if n == 0 then last
    else
      var m := BestI8(q, docs[..n]);
      if last > m then last else m
  }

  ghost predicate Uniform(vecs: seq<seq<real>>, n: nat) {
    forall i :: 0 <= i < |vecs| ==> |vecs[i]| == n
  }

  ghost predicate UniformI8(vecs: seq<Quantized>, n: nat) {
    forall i :: 0 <= i < |vecs| ==> |vecs[i].values| == n
  }

  function MaxSim(queries: seq<seq<real>>, docs: seq<seq<real>>, ghost n: nat): real
    requires Uniform(queries, n) && Uniform(docs, n)
  {
    if queries == [] || docs == [] then 0.0
    else
      var k := |queries| - 1;
      MaxSim(queries[..k], docs, n) + Best(queries[k], docs)
  }

  function MaxSimI8(queries: seq<Quantized>, docs: seq<Quantized>, ghost n: nat): real
    requires UniformI8(queries, n) && UniformI8(docs, n)
  {
    if queries == [] || docs == [] then 0.0
    else
      var k := |queries| - 1;
      MaxSimI8(queries[..k], docs, n) + BestI8(queries[k], docs)
  }

  function QuantAll(vecs: seq<seq<real>>): (q: seq<Quantized>)
    ensures |q| == |vecs| && forall i :: 0 <= i < |vecs| ==> q[i] == QuantI8(vecs[i]) && |q[i].values| == |vecs[i]|
  {
    seq(|vecs|, i requires 0 <= i < |vecs| => QuantI8(vecs[i]))
  }

  /** Every document's two scores differ by at most e. */
  ghost predicate ScoresClose(q: seq<real>, docs: seq<seq<real>>, qq: Quantized, dd: seq<Quantized>, e: real) {
    && Uniform(docs, |q|) && |dd| == |docs| && UniformI8(dd, |qq.values|)
    && forall i :: 0 <= i < |docs| ==> Dot(q, docs[i]) - e <= RawScore(qq, dd[i]) <= Dot(q, docs[i]) + e
  }

  lemma CloseAt(q: seq<real>, docs: seq<seq<real>>, qq: Quantized, dd: seq<Quantized>, e: real, i: nat)
    requires ScoresClose(q, docs, qq, dd, e) && i < |docs|
    ensures |docs[i]| == |q| && i < |dd| && |dd[i].values| == |qq.values|
    ensures Dot(q, docs[i]) - e <= RawScore(qq, dd[i]) <= Dot(q, docs[i]) + e
  {
  }

  lemma BestNotAbove(q: seq<real>, docs: seq<seq<real>>, qq: Quantized, dd: seq<Quantized>, e: real)
    requires docs != [] && Uniform(docs, |q|) && |dd| == |docs| && UniformI8(dd, |qq.values|)
    requires ScoresClose(q, docs, qq, dd, e)
    ensures Best(q, docs) <= BestI8(qq, dd) + e
  {
    hide Dot, RawScore, Best, BestI8, ScoresClose;
    var a := WhereBest(q, docs);
    BestI8IsMost(qq, dd, a);
    CloseAt(q, docs, qq, dd, e, a);
  }

  lemma BestI8NotAbove(q: seq<real>, docs: seq<seq<real>>, qq: Quantized, dd: seq<Quantized>, e: real)
    requires docs != [] && Uniform(docs, |q|) && |dd| == |docs| && UniformI8(dd, |qq.values|)
    requires ScoresClose(q, docs, qq, dd, e)
    ensures BestI8(qq, dd) <= Best(q, docs) + e
  {
    hide Dot, RawScore, Best, BestI8, ScoresClose;
    var b := WhereBestI8(qq, dd);
    BestIsMost(q, docs, b);
    CloseAt(q, docs, qq, dd, e, b);
  }

  /** The largest of perturbed values is perturbed no more than they are. */
  lemma BestClose(q: seq<real>, docs: seq<seq<real>>, qq: Quantized, dd: seq<Quantized>, e: real)
    requires docs != [] && Uniform(docs, |q|) && |dd| == |docs| && UniformI8(dd, |qq.values|)
    requires ScoresClose(q, docs, qq, dd, e)
    ensures Abs(BestI8(qq, dd) - Best(q, docs)) <= e
  {
    hide Dot, RawScore, Best, BestI8, ScoresClose;
    BestNotAbove(q, docs, qq, dd, e);
    BestI8NotAbove(q, docs, qq, dd, e);
  }

  lemma WhereBest(q: seq<real>, docs: seq<seq<real>>) returns (a: nat)
    requires docs != [] && Uniform(docs, |q|)
    ensures a < |docs| && Best(q, docs) == Dot(q, docs[a])
  {
    hide Dot, Best;
    a :| 0 <= a < |docs| && Best(q, docs) == Dot(q, docs[a]);
  }

  lemma WhereBestI8(q: Quantized, docs: seq<Quantized>) returns (a: nat)
    requires docs != [] && UniformI8(docs, |q.values|)
    ensures a < |docs| && BestI8(q, docs) == RawScore(q, docs[a])
  {
    hide RawScore, BestI8;
    a :| 0 <= a < |docs| && BestI8(q, docs) == RawScore(q, docs[a]);
  }

  lemma BestIsMost(q: seq<real>, docs: seq<seq<real>>, i: nat)
    requires Uniform(docs, |q|) && i < |docs|
    ensures Dot(q, docs[i]) <= Best(q, docs)
  {
    hide Dot, Best;
  }

  lemma BestI8IsMost(q: Quantized, docs: seq<Quantized>, i: nat)
    requires UniformI8(docs, |q.values|) && i < |docs|
    ensures RawScore(q, docs[i]) <= BestI8(q, docs)
  {
    hide RawScore, BestI8;
  }

  lemma BestError(q: seq<real>, docs: seq<seq<real>>, mq: real, md: real, qq: Quantized, dd: seq<Quantized>)
    requires docs != [] && Uniform(docs, |q|) && Bounded(q, mq)
    requires forall i :: 0 <= i < |docs| ==> Bounded(docs[i], md)
    requires qq == QuantI8(q) && dd == QuantAll(docs) && UniformI8(dd, |q|)
    ensures Abs(BestI8(qq, dd) - Best(q, docs)) <= Times(|q| as real, Times(mq, md) / 127.0)
  {
    hide Times, QuantI8, QuantAll, Dot, RawScore, Best, BestI8, Bounded, Abs, ScoresClose;
    var e := Times(|q| as real, Times(mq, md) / 127.0);
    AllClose(q, docs, mq, md, qq, dd, e);
    BestClose(q, docs, qq, dd, e);
  }

  lemma OneClose(q: seq<real>, d: seq<real>, mq: real, md: real, e: real)
    requires |q| == |d| && Bounded(q, mq) && Bounded(d, md) && e == Times(|q| as real, Times(mq, md) / 127.0)
    ensures Dot(q, d) - e <= RawScore(QuantI8(q), QuantI8(d)) <= Dot(q, d) + e
  {
    hide Times, QuantI8, Dot, RawScore, Bounded;
    PairError(q, d, mq, md);
  }

  lemma AllClose(q: seq<real>, docs: seq<seq<real>>, mq: real, md: real, qq: Quantized, dd: seq<Quantized>, e: real)
    requires Uniform(docs, |q|) && Bounded(q, mq) && forall i :: 0 <= i < |docs| ==> Bounded(docs[i], md)
    requires qq == QuantI8(q) && dd == QuantAll(docs) && UniformI8(dd, |q|)
    requires e == Times(|q| as real, Times(mq, md) / 127.0)
    ensures ScoresClose(q, docs, qq, dd, e)
  {
    hide Times, QuantI8, QuantAll, Dot, RawScore, Bounded;
    forall i | 0 <= i < |docs|
      ensures Dot(q, docs[i]) - e <= RawScore(qq, dd[i]) <= Dot(q, docs[i]) + e
    {
      OneClose(q, docs[i], mq, md, e);
    }
  }

  /** int8 max-sim differs from exact max-sim by at most |Q| n Mq Md / 127. */
  lemma {:induction false} MaxSimError(queries: seq<seq<real>>, docs: seq<seq<real>>, n: nat, mq: real, md: real)
    requires Uniform(queries, n) && Uniform(docs, n) && mq >= 0.0 && md >= 0.0
    requires forall i :: 0 <= i < |queries| ==> Bounded(queries[i], mq)
    requires forall i :: 0 <= i < |docs| ==> Bounded(docs[i], md)
    ensures UniformI8(QuantAll(queries), n) && UniformI8(QuantAll(docs), n)
    ensures Abs(MaxSimI8(QuantAll(queries), QuantAll(docs), n) - MaxSim(queries, docs, n)) <=
      |queries| as real * (n as real * (mq * md / 127.0))
  {
    hide MaxSim, MaxSimI8, QuantAll, QuantI8, Abs, Bounded;
    MaxSimErrorTimes(queries, docs, QuantAll(queries), QuantAll(docs), n, mq, md);
  }

  lemma {:induction false} MaxSimErrorTimes(queries: seq<seq<real>>, docs: seq<seq<real>>, qq: seq<Quantized>,
                                            dd: seq<Quantized>, n: nat, mq: real, md: real)
    requires Uniform(queries, n) && Uniform(docs, n) && UniformI8(qq, n) && UniformI8(dd, n)
    requires qq == QuantAll(queries) && dd == QuantAll(docs) && mq >= 0.0 && md >= 0.0
    requires forall i :: 0 <= i < |queries| ==> Bounded(queries[i], mq)
    requires forall i :: 0 <= i < |docs| ==> Bounded(docs[i], md)
    ensures Abs(MaxSimI8(qq, dd, n) - MaxSim(queries, docs, n)) <=
      Times(|queries| as real, Times(n as real, Times(mq, md) / 127.0))
    decreases |queries|
  {
    hide Times, Best, BestI8, QuantI8, QuantAll, Bounded, Abs, MaxSim, MaxSimI8;
    var bound := Times(n as real, Times(mq, md) / 127.0);
    if queries == [] || docs == [] {
      NothingToScore(queries, docs, qq, dd, n);
      NonNegativeBound(|queries|, n, mq, md);
    } else {
      var k := |queries| - 1;
      FrontQuantized(queries, qq, k);
      MaxSimErrorTimes(queries[..k], docs, qq[..k], dd, n, mq, md);
      BestError(queries[k], docs, mq, md, qq[k], dd);
      MaxSimStep(queries, docs, n, k);
      MaxSimI8Step(qq, dd, n, k);
      SumOneMore(MaxSim(queries[..k], docs, n), MaxSimI8(qq[..k], dd, n), Best(queries[k], docs), BestI8(qq[k], dd),
        k, bound);
    }
  }

  lemma NothingToScore(queries: seq<seq<real>>, docs: seq<seq<real>>, qq: seq<Quantized>, dd: seq<Quantized>, n: nat)
    requires Uniform(queries, n) && Uniform(docs, n) && UniformI8(qq, n) && UniformI8(dd, n)
    requires (queries == [] || docs == []) && |qq| == |queries| && |dd| == |docs|
    ensures Abs(MaxSimI8(qq, dd, n) - MaxSim(queries, docs, n)) == 0.0
  {
  }

  lemma FrontQuantized(queries: seq<seq<real>>, qq: seq<Quantized>, k: nat)
    requires qq == QuantAll(queries) && |queries| == k + 1
    ensures qq[..k] == QuantAll(queries[..k]) && qq[k] == QuantI8(queries[k])
  {
    hide QuantI8;
  }

  lemma SumOneMore(a: real, a': real, b: real, b': real, k: nat, e: real)
    requires Abs(a' - a) <= Times(k as real, e) && Abs(b' - b) <= e
    ensures Abs((a' + b') - (a + b)) <= Times((k + 1) as real, e)
  {
    OneMore(k, e);
    hide Times;
  }

  lemma MaxSimStep(queries: seq<seq<real>>, docs: seq<seq<real>>, n: nat, k: nat)
    requires Uniform(queries, n) && Uniform(docs, n) && |queries| == k + 1 && docs != []
    ensures MaxSim(queries, docs, n) == MaxSim(queries[..k], docs, n) + Best(queries[k], docs)
  {
    hide Best;
  }

  lemma MaxSimI8Step(queries: seq<Quantized>, docs: seq<Quantized>, n: nat, k: nat)
    requires UniformI8(queries, n) && UniformI8(docs, n) && |queries| == k + 1 && docs != []
    ensures MaxSimI8(queries, docs, n) == MaxSimI8(queries[..k], docs, n) + BestI8(queries[k], docs)
  {
    hide BestI8;
  }

  lemma NonNegativeBound(k: nat, n: nat, mq: real, md: real)
    requires mq >= 0.0 && md >= 0.0
    ensures Times(k as real, Times(n as real, Times(mq, md) / 127.0)) >= 0.0
  {
    var x := Times(mq, md) / 127.0;
    assert x >= 0.0;
    var y := Times(n as real, x);
    assert y >= 0.0;
  }

  // ---------- What the scores are sums of ----------

  /** One coordinate, and one part of the vectors after the other. */
  lemma {:induction false} DotParts(a: seq<real>, b: seq<real>, c: seq<real>, d: seq<real>)
    requires |a| == |b| && |c| == |d|
    ensures Dot(a + c, b + d) == Dot(a, b) + Dot(c, d)
    decreases |c|
  {
    hide Times;
    if c == [] {
      assert a + c == a && b + d == b;
    } else {
      var n := |c| - 1;
      assert (a + c)[..|a| + n] == a + c[..n] && (b + d)[..|a| + n] == b + d[..n];
      DotParts(a, b, c[..n], d[..n]);
    }
  }

  lemma DotOfOne(x: real, y: real)
    ensures Dot([x], [y]) == x * y
  {
    assert [x][..0] == [] && [y][..0] == [];
  }

  /** Halves round away from zero. */
  lemma HalvesRoundAway(k: nat)
    ensures Round(k as real + 0.5) == k + 1 && Round(-(k as real + 0.5)) == -(k + 1) as int
  {
  }

  /** The scale makes the largest component 127, and a vector of zeros keeps scale 1. */
  lemma LargestFills(v: seq<real>, i: nat)
    requires i < |v| && forall k :: 0 <= k < |v| ==> Abs(v[k]) <= Abs(v[i])
    ensures var q := QuantI8(v);
      && (v[i] > 0.0 ==> q.values[i] == 127 && q.scale * 127.0 == v[i])
      && (v[i] < 0.0 ==> q.values[i] == -127 && q.scale * 127.0 == -v[i])
      && (v[i] == 0.0 ==> q.values[i] == 0 && q.scale == 1.0)
  {
    var m := MaxAbs(v);
    assert m == Abs(v[i]);
    if m > 0.0 {
      var x := v[i] / (m / 127.0);
      DivideBack(v[i], m / 127.0);
      assert x == if v[i] > 0.0 then 127.0 else -127.0 by {
        CancelSame(x, if v[i] > 0.0 then 127.0 else -127.0, m / 127.0);
      }
      assert QuantI8(v).values[i] == Clamp(Round(x));
    }
  }

  lemma CancelSame(x: real, y: real, s: real)
    requires s > 0.0 && Times(x, s) == Times(y, s)
    ensures x == y
  {
    CancelRight(x, y, s);
    CancelRight(y, x, s);
  }

  /** No queries or no documents score nothing, and one query vector scores its best product. */
  lemma MaxSimOfFew(p: seq<seq<real>>, docs: seq<seq<real>>, n: nat)
    requires Uniform(p, n) && Uniform(docs, n)
    ensures MaxSim([], docs, n) == 0.0 && MaxSim(p, [], n) == 0.0
    ensures |p| == 1 && docs != [] ==> MaxSim(p, docs, n) == Best(p[0], docs)
  {
    hide Best;
    assert |p| == 1 ==> p[..0] == [];
  }

  lemma UniformJoins(p: seq<seq<real>>, q: seq<seq<real>>, n: nat)
    requires Uniform(p, n) && Uniform(q, n)
    ensures Uniform(p + q, n)
  {
  }

  lemma UniformStarts(q: seq<seq<real>>, k: nat, n: nat)
    requires Uniform(q, n) && k <= |q|
    ensures Uniform(q[..k], n)
  {
  }

  /** Query vectors add up. */
  lemma {:induction false} MaxSimParts(p: seq<seq<real>>, q: seq<seq<real>>, docs: seq<seq<real>>, n: nat)
    requires Uniform(p, n) && Uniform(q, n) && Uniform(docs, n)
    ensures Uniform(p + q, n) && MaxSim(p + q, docs, n) == MaxSim(p, docs, n) + MaxSim(q, docs, n)
    decreases |q|
  {
    hide Best, Uniform;
    UniformJoins(p, q, n);
    if q == [] {
      assert p + q == p;
    } else {
      var k := |q| - 1;
      UniformStarts(q, k, n);
      UniformJoins(p, q[..k], n);
      assert (p + q)[..|p| + k] == p + q[..k];
      MaxSimParts(p, q[..k], docs, n);
    }
  }

  /** No queries or no documents score nothing, and one query vector scores its best product. */
  lemma MaxSimI8OfFew(p: seq<Quantized>, docs: seq<Quantized>, n: nat)
    requires UniformI8(p, n) && UniformI8(docs, n)
    ensures MaxSimI8([], docs, n) == 0.0 && MaxSimI8(p, [], n) == 0.0
    ensures |p| == 1 && docs != [] ==> MaxSimI8(p, docs, n) == BestI8(p[0], docs)
  {
    hide BestI8;
    assert |p| == 1 ==> p[..0] == [];
  }

  lemma UniformBoth(p: seq<Quantized>, q: seq<Quantized>, n: nat)
    requires UniformI8(p, n) && UniformI8(q, n)
    ensures UniformI8(p + q, n)
  {
  }

  lemma UniformFront(q: seq<Quantized>, k: nat, n: nat)
    requires UniformI8(q, n) && k <= |q|
    ensures UniformI8(q[..k], n)
  {
  }

  /** Query vectors add up. */
  lemma {:induction false} MaxSimI8Parts(p: seq<Quantized>, q: seq<Quantized>, docs: seq<Quantized>, n: nat)
    requires UniformI8(p, n) && UniformI8(q, n) && UniformI8(docs, n)
    ensures UniformI8(p + q, n) && MaxSimI8(p + q, docs, n) == MaxSimI8(p, docs, n) + MaxSimI8(q, docs, n)
    decreases |q|
  {
    hide BestI8, UniformI8;
    UniformBoth(p, q, n);
    if q == [] {
      assert p + q == p;
    } else {
      var k := |q| - 1;
      UniformFront(q, k, n);
      UniformBoth(p, q[..k], n);
      assert (p + q)[..|p| + k] == p + q[..k];
      MaxSimI8Parts(p, q[..k], docs, n);
    }
  }
}
