/**
 The coarse phase of the search cascade: sign bits packed into bytes, the byte-wise
 Hamming distance, and the sweep that keeps the closest rows.
 */
module Hamming {
  import opened Prelude
  import opened Sorting

  type U64 = x: nat | x < 0x1_0000_0000_0000_0000

  // ---------- Bits, most significant first ----------

  function Mask(k: nat): bv8
    requires k < 8
  {
    0x80 >> k
  }

  predicate Bit(b: bv8, k: nat)
    requires k < 8
  {
    b & Mask(k) != 0
  }

  lemma Masks()
    ensures Mask(0) == 0x80 && Mask(1) == 0x40 && Mask(2) == 0x20 && Mask(3) == 0x10
    ensures Mask(4) == 0x08 && Mask(5) == 0x04 && Mask(6) == 0x02 && Mask(7) == 0x01
  {
  }

  lemma SetBit(b: bv8, j: nat, k: nat)
    requires j < 8 && k < 8
    ensures Bit(b | Mask(j), k) <==> j == k || Bit(b, k)
  {
    Masks();
  }

  lemma XorMask(x: bv8, y: bv8, m: bv8)
    requires m == 0x80 || m == 0x40 || m == 0x20 || m == 0x10 || m == 0x08 || m == 0x04 || m == 0x02 || m == 0x01
    ensures (x ^ y) & m != 0 <==> (x & m != 0) != (y & m != 0)
  {
  }

  lemma XorBit(x: bv8, y: bv8, k: nat)
    requires k < 8
    ensures One(Bit(x ^ y, k)) == Unequal(x, y, k)
  {
    Masks();
    hide Mask;
    XorMask(x, y, Mask(k));
  }

  function Unequal(x: bv8, y: bv8, k: nat): nat
    requires k < 8
  {
    One(Bit(x, k) != Bit(y, k))
  }

  lemma ZeroBit(k: nat)
    requires k < 8
    ensures !Bit(0, k)
  {
  }

  function One(b: bool): nat {
    if b then 1 else 0
  }

  function CountOnes(b: bv8): nat {
    One(Bit(b, 0)) + One(Bit(b, 1)) + One(Bit(b, 2)) + One(Bit(b, 3)) + One(Bit(b, 4)) + One(Bit(b, 5))
    + One(Bit(b, 6)) + One(Bit(b, 7))
  }

  predicate BitAt(bits: seq<bv8>, p: nat)
    requires p < 8 * |bits|
  {
    Bit(bits[p / 8], p % 8)
  }

  // ---------- Packing ----------

  function BytesPerRow(dim: nat): nat {
    (dim + 7) / 8
  }

  /** One bit per coordinate, set when it is positive; the bits left over are clear. */
  ghost predicate SignBits(v: seq<real>, bits: seq<bv8>) {
    && |bits| == BytesPerRow(|v|)
    && forall p :: 0 <= p < 8 * |bits| ==> (BitAt(bits, p) <==> p < |v| && v[p] > 0.0)
  }

  ghost predicate PackedTo(v: seq<real>, bits: seq<bv8>, n: nat) {
    && |bits| == BytesPerRow(|v|)
    && forall p :: 0 <= p < 8 * |bits| ==> (BitAt(bits, p) <==> p < |v| && p < n && v[p] > 0.0)
  }

  lemma SetBitAt(bits: seq<bv8>, i: nat, p: nat)
    requires i < 8 * |bits| && p < 8 * |bits|
    ensures BitAt(bits[i / 8 := bits[i / 8] | Mask(i % 8)], p) <==> i == p || BitAt(bits, p)
  {
    if i / 8 == p / 8 {
      SetBit(bits[i / 8], i % 8, p % 8);
    }
  }

  method Binarize(v: seq<real>) returns (bits: seq<bv8>)
    ensures SignBits(v, bits)
  {
    var out := new bv8[BytesPerRow(|v|)](_ => 0);
    forall p | 0 <= p < 8 * out.Length
      ensures !BitAt(out[..], p)
    {
      ZeroBit(p % 8);
    }
    hide PackedTo, BitAt, Mask, SignBits;
    NothingPacked(v, out[..]);
    for i := 0 to |v|
      invariant out.Length == BytesPerRow(|v|) && PackedTo(v, out[..], i)
    {
      ghost var before := out[..];
      if v[i] > 0.0 {
        out[i / 8] := out[i / 8] | Mask(i % 8);
        assert out[..] == before[i / 8 := before[i / 8] | Mask(i % 8)];
      }
      PackedStep(v, before, out[..], i);
    }
    bits := out[..];
    AllPacked(v, bits);
  }

  lemma NothingPacked(v: seq<real>, bits: seq<bv8>)
    requires |bits| == BytesPerRow(|v|) && forall p :: 0 <= p < 8 * |bits| ==> !BitAt(bits, p)
    ensures PackedTo(v, bits, 0)
  {
    hide BitAt;
  }

  lemma PackedStep(v: seq<real>, before: seq<bv8>, after: seq<bv8>, i: nat)
    requires PackedTo(v, before, i) && i < |v|
    requires after == if v[i] > 0.0 then before[i / 8 := before[i / 8] | Mask(i % 8)] else before
    ensures PackedTo(v, after, i + 1)
  {
    hide BitAt, Mask;
    if v[i] > 0.0 {
      forall p | 0 <= p < 8 * |before|
        ensures BitAt(after, p) <==> i == p || BitAt(before, p)
      {
        SetBitAt(before, i, p);
      }
    }
  }

  lemma AllPacked(v: seq<real>, bits: seq<bv8>)
    requires PackedTo(v, bits, |v|)
    ensures SignBits(v, bits)
  {
    hide BitAt;
  }

  // ---------- Distance ----------

  /** Byte by byte, up to the shorter of the two. */
  function HammingU8(a: seq<bv8>, b: seq<bv8>): nat {
    if a == [] || b == [] then 0
    else CountOnes(a[0] ^ b[0]) + HammingU8(a[1..], b[1..])
  }

  /** How many of the first n bit positions differ. */
  ghost function Differing(a: seq<bv8>, b: seq<bv8>, n: nat): nat
    requires n <= 8 * |a| && |a| == |b|
  {
    if n == 0 then 0 else Differing(a, b, n - 1) + One(BitAt(a, n - 1) != BitAt(b, n - 1))
  }

  /** How many coordinates have a different sign test. */
  function SignDifferences(v: seq<real>, w: seq<real>): (d: nat)
    requires |v| == |w|
    ensures d <= |v|
  {
    if v == [] then 0
    else
      var n := |v| - 1;
      SignDifferences(v[..n], w[..n]) + One((v[n] > 0.0) != (w[n] > 0.0))
  }

  /** That many coordinates are positive in one vector and not in the other; zero is not positive. */
  lemma {:induction false} DifferencesCounted(v: seq<real>, w: seq<real>)
    requires |v| == |w|
    ensures SignDifferences(v, w) == |set i: nat | i < |v| && ((v[i] > 0.0 && w[i] <= 0.0) || (v[i] <= 0.0 &&
      w[i] > 0.0))|
  {
    if v != [] {
      var n := |v| - 1;
      DifferencesCounted(v[..n], w[..n]);
      var init := set i: nat | i < |v[..n]| &&
        ((v[..n][i] > 0.0 && w[..n][i] <= 0.0) || (v[..n][i] <= 0.0 && w[..n][i] > 0.0));
      var all := set i: nat | i < |v| && ((v[i] > 0.0 && w[i] <= 0.0) || (v[i] <= 0.0 && w[i] > 0.0));
      assert all == if (v[n] > 0.0) != (w[n] > 0.0) then init + {n} else init;
    }
  }

  lemma HighBit(b: bv8)
    requires b & 0x80 != 0 && b & 0x40 == 0 && b & 0x20 == 0 && b & 0x10 == 0
    requires b & 0x08 == 0 && b & 0x04 == 0 && b & 0x02 == 0 && b & 0x01 == 0
    ensures b == 0x80
  {
  }

  /** The first coordinate takes the highest bit of the first byte. */
  lemma FirstIsHighest(x: real, bits: seq<bv8>)
    requires x > 0.0 && SignBits([x], bits)
    ensures bits == [0x80]
  {
    Masks();
    hide Mask;
    var b := bits[0];
    assert BitAt(bits, 0);
    assert !BitAt(bits, 1) && !BitAt(bits, 2) && !BitAt(bits, 3) && !BitAt(bits, 4);
    assert !BitAt(bits, 5) && !BitAt(bits, 6) && !BitAt(bits, 7);
    HighBit(b);
  }

  function AllUnequal(x: bv8, y: bv8): nat {
    Unequal(x, y, 0) + Unequal(x, y, 1) + Unequal(x, y, 2) + Unequal(x, y, 3) + Unequal(x, y, 4)
    + Unequal(x, y, 5) + Unequal(x, y, 6) + Unequal(x, y, 7)
  }

  lemma OnesOfXor(x: bv8, y: bv8)
    ensures CountOnes(x ^ y) == AllUnequal(x, y)
  {
    hide Bit, One, Unequal;
    XorBit(x, y, 0);
    XorBit(x, y, 1);
    XorBit(x, y, 2);
    XorBit(x, y, 3);
    XorBit(x, y, 4);
    XorBit(x, y, 5);
    XorBit(x, y, 6);
    XorBit(x, y, 7);
  }

  lemma DifferingStep(a: seq<bv8>, b: seq<bv8>, m: nat, k: nat, p: nat)
    requires |a| == |b| && m < |a| && k < 8 && p == 8 * m + k
    ensures Differing(a, b, p + 1) == Differing(a, b, p) + Unequal(a[m], b[m], k)
  {
    assert p / 8 == m && p % 8 == k;
  }

  lemma DifferingByte(a: seq<bv8>, b: seq<bv8>, m: nat, p: nat)
    requires |a| == |b| && m < |a| && p == 8 * m
    ensures Differing(a, b, p + 8) == Differing(a, b, p) + CountOnes(a[m] ^ b[m])
  {
    hide Bit, Differing, CountOnes, Unequal;
    OnesOfXor(a[m], b[m]);
    DifferingStep(a, b, m, 0, p);
    DifferingStep(a, b, m, 1, p + 1);
    DifferingStep(a, b, m, 2, p + 2);
    DifferingStep(a, b, m, 3, p + 3);
    DifferingStep(a, b, m, 4, p + 4);
    DifferingStep(a, b, m, 5, p + 5);
    DifferingStep(a, b, m, 6, p + 6);
    DifferingStep(a, b, m, 7, p + 7);
  }

  lemma HammingStep(a: seq<bv8>, b: seq<bv8>, j: nat)
    requires |a| == |b| && j < |a|
    ensures HammingU8(a[j..], b[j..]) == CountOnes(a[j] ^ b[j]) + HammingU8(a[j + 1..], b[j + 1..])
  {
    hide CountOnes;
    assert a[j..][1..] == a[j + 1..] && b[j..][1..] == b[j + 1..];
  }

  lemma {:induction false} HammingIsDiffering(a: seq<bv8>, b: seq<bv8>, m: nat)
    requires |a| == |b| && m <= |a|
    ensures HammingU8(a, b) == Differing(a, b, 8 * m) + HammingU8(a[m..], b[m..])
  {
    hide CountOnes, Differing, HammingU8;
    if m == 0 {
      assert a[0..] == a && b[0..] == b;
      DifferingNone(a, b);
    } else {
      HammingIsDiffering(a, b, m - 1);
      DifferingByte(a, b, m - 1, 8 * (m - 1));
      HammingStep(a, b, m - 1);
      assert 8 * (m - 1) + 8 == 8 * m;
    }
  }

  lemma DifferingNone(a: seq<bv8>, b: seq<bv8>)
    requires |a| == |b|
    ensures Differing(a, b, 0) == 0
  {
  }

  lemma {:induction false} DifferingIsSigns(v: seq<real>, w: seq<real>, a: seq<bv8>, b: seq<bv8>, n: nat)
    requires |v| == |w| && SignBits(v, a) && SignBits(w, b) && n <= 8 * |a|
    ensures Differing(a, b, n) == SignDifferences(v[..Min(n, |v|)], w[..Min(n, |v|)])
  {
    hide BitAt;
    if n > 0 {
      DifferingIsSigns(v, w, a, b, n - 1);
      if n <= |v| {
        assert v[..n][..n - 1] == v[..n - 1] && w[..n][..n - 1] == w[..n - 1];
      }
    }
  }

  /** The distance of packed sign bits counts the coordinates whose signs differ. */
  lemma HammingCountsSigns(v: seq<real>, w: seq<real>, a: seq<bv8>, b: seq<bv8>)
    requires |v| == |w| && SignBits(v, a) && SignBits(w, b)
    ensures HammingU8(a, b) == SignDifferences(v, w)
  {
    hide BitAt, Differing, SignDifferences;
    HammingIsDiffering(a, b, |a|);
    assert HammingU8(a[|a|..], b[|a|..]) == 0;
    DifferingIsSigns(v, w, a, b, 8 * |a|);
    assert v[..|v|] == v && w[..|v|] == w;
  }

  // ---------- The sweep ----------

  datatype Score = Score(distance: nat, id: U64)

  predicate Before(x: Score, y: Score) {
    x.distance < y.distance || (x.distance == y.distance && x.id <= y.id)
  }

  function RowOf(bits: seq<bv8>, i: nat, bpr: nat): (row: seq<bv8>)
    requires (i + 1) * bpr <= |bits|
    ensures |row| == bpr
  {
    assert i * bpr + bpr == (i + 1) * bpr;
    bits[i * bpr..(i + 1) * bpr]
  }

  lemma RowFits(i: nat, n: nat, bpr: nat)
    requires i < n
    ensures (i + 1) * bpr <= n * bpr
  {
    Grows(i + 1, n - i - 1, bpr);
  }

  lemma Grows(a: nat, b: nat, c: nat)
    ensures a * c <= (a + b) * c
  {
    assert b * c >= 0;
    assert (a + b) * c == a * c + b * c;
  }

  ghost predicate Scored(query: seq<bv8>, ids: seq<U64>, bits: seq<bv8>, bpr: nat, scores: seq<Score>)
    requires |bits| == |ids| * bpr
  {
    && |scores| == |ids|
    && forall i :: 0 <= i < |ids| ==> RowScore(query, ids, bits, bpr, i, scores[i])
  }

  ghost predicate RowScore(query: seq<bv8>, ids: seq<U64>, bits: seq<bv8>, bpr: nat, i: nat, s: Score)
    requires |bits| == |ids| * bpr && i < |ids|
  {
    RowFits(i, |ids|, bpr);
    s == Score(HammingU8(query, RowOf(bits, i, bpr)), ids[i])
  }

  lemma BeforeIsTotal()
    ensures TotalPreorder(Before)
  {
  }

  lemma FirstIsLeast(s: seq<Score>, x: Score)
    requires Sorted(s, Before) && x in s
    ensures Before(s[0], x)
  {
    var i :| 0 <= i < |s| && s[i] == x;
  }

  ghost predicate SplitAt(r: seq<Score>, dropped: seq<Score>, all: seq<Score>) {
    Permutation(r + dropped, all) && forall x, y :: x in r && y in dropped ==> Before(x, y)
  }

  lemma FirstOfAll(r: seq<Score>, dropped: seq<Score>, full: seq<Score>)
    requires SplitAt(r, dropped, full) && Sorted(r, Before) && Sorted(full, Before) && r != []
    ensures full != [] && full[0] == r[0]
  {
    PermutationFacts(r + dropped, full);
    assert (r + dropped)[0] == r[0] && r[0] in full;
    FirstIsLeast(full, r[0]);
    assert full[0] in r + dropped;
    if full[0] in r {
      FirstIsLeast(r, full[0]);
    } else {
      assert full[0] in dropped && r[0] in r;
    }
  }

  /** Selecting and then sorting the selection gives the front of the fully sorted scores. */
  lemma {:induction false} SelectionIsPrefix(r: seq<Score>, dropped: seq<Score>, full: seq<Score>)
    requires SplitAt(r, dropped, full) && Sorted(r, Before) && Sorted(full, Before)
    ensures |full| == |r| + |dropped| && r == full[..|r|]
    decreases |r|
  {
    hide Before, SplitAt;
    SplitSize(r, dropped, full);
    if r != [] {
      FirstOfAll(r, dropped, full);
      TailSplits(r, dropped, full);
      SelectionIsPrefix(r[1..], dropped, full[1..]);
      assert r == [r[0]] + r[1..] && full == [full[0]] + full[1..];
    }
  }

  lemma SplitSize(r: seq<Score>, dropped: seq<Score>, full: seq<Score>)
    requires SplitAt(r, dropped, full)
    ensures |full| == |r| + |dropped|
  {
    PermutationFacts(r + dropped, full);
  }

  lemma TailSplits(r: seq<Score>, dropped: seq<Score>, full: seq<Score>)
    requires SplitAt(r, dropped, full) && r != [] && full != [] && full[0] == r[0]
    ensures SplitAt(r[1..], dropped, full[1..])
  {
    hide Before;
    TailPermutation(r + dropped, full);
    assert (r + dropped)[1..] == r[1..] + dropped;
    forall x | x in r[1..]
      ensures x in r
    {
    }
  }

  lemma TailPermutation(a: seq<Score>, b: seq<Score>)
    requires Permutation(a, b) && a != [] && b != [] && a[0] == b[0]
    ensures Permutation(a[1..], b[1..])
  {
    assert a == [a[0]] + a[1..] && b == [b[0]] + b[1..];
    assert multiset(a[1..]) == multiset(a) - multiset{a[0]};
    assert multiset(b[1..]) == multiset(b) - multiset{a[0]};
  }

  method ScoreRows(query: seq<bv8>, ids: seq<U64>, bits: seq<bv8>, bpr: nat) returns (all: seq<Score>)
    requires |bits| == |ids| * bpr
    ensures Scored(query, ids, bits, bpr, all)
  {
    all := [];
    for i := 0 to |ids|
      invariant |all| == i
      invariant forall j :: 0 <= j < i ==> RowScore(query, ids, bits, bpr, j, all[j])
    {
      RowFits(i, |ids|, bpr);
      all := all + [Score(HammingU8(query, RowOf(bits, i, bpr)), ids[i])];
    }
  }

  lemma ScoredLength(query: seq<bv8>, ids: seq<U64>, bits: seq<bv8>, bpr: nat, scores: seq<Score>)
    requires |bits| == |ids| * bpr && Scored(query, ids, bits, bpr, scores)
    ensures |scores| == |ids|
  {
  }

  lemma InTop(r: seq<Score>, top: seq<(U64, nat)>, s: Score)
    requires |top| == |r| && forall i :: 0 <= i < |r| ==> top[i] == (r[i].id, r[i].distance)
    ensures s in r ==> (s.id, s.distance) in top
  {
    if s in r {
      var k :| 0 <= k < |r| && r[k] == s;
      assert top[k] in top;
    }
  }

  lemma TopInOrder(r: seq<Score>, dropped: seq<Score>, all: seq<Score>, top: seq<(U64, nat)>)
    requires SplitAt(r, dropped, all) && Sorted(r, Before) && |top| == |r|
    requires forall i :: 0 <= i < |r| ==> top[i] == (r[i].id, r[i].distance)
    ensures forall i, j :: 0 <= i < j < |top| ==>
      top[i].1 < top[j].1 || (top[i].1 == top[j].1 && top[i].0 <= top[j].0)
    ensures forall s :: s in all && (s.id, s.distance) !in top ==>
      forall i :: 0 <= i < |top| ==> top[i].1 < s.distance || (top[i].1 == s.distance && top[i].0 <= s.id)
  {
    PermutationFacts(r + dropped, all);
    forall i, j | 0 <= i < j < |top|
      ensures top[i].1 < top[j].1 || (top[i].1 == top[j].1 && top[i].0 <= top[j].0)
    {
      assert Before(r[i], r[j]);
    }
    forall s, i | s in all && (s.id, s.distance) !in top && 0 <= i < |top|
      ensures top[i].1 < s.distance || (top[i].1 == s.distance && top[i].0 <= s.id)
    {
      assert s in r + dropped;
      InTop(r, top, s);
      assert r[i] in r && Before(r[i], s);
    }
  }

  /** The k closest rows in order, as (id, distance); ties go to the smaller id. */
  method HammingTopK(query: seq<bv8>, ids: seq<U64>, bits: seq<bv8>, bpr: nat, kRough: nat)
    returns (top: seq<(U64, nat)>, ghost scores: seq<Score>)
    requires |bits| == |ids| * bpr
    ensures Scored(query, ids, bits, bpr, scores)
    ensures |top| == Min(kRough, |ids|)
    ensures forall full: seq<Score> :: Sorted(full, Before) && Permutation(full, scores) ==>
      |full| == |ids| && forall i :: 0 <= i < |top| ==> top[i] == (full[i].id, full[i].distance)
    ensures forall i, j :: 0 <= i < j < |top| ==>
      top[i].1 < top[j].1 || (top[i].1 == top[j].1 && top[i].0 <= top[j].0)
    ensures forall s :: s in scores && (s.id, s.distance) !in top ==>
      forall i :: 0 <= i < |top| ==> top[i].1 < s.distance || (top[i].1 == s.distance && top[i].0 <= s.id)
  {
    hide Scored, HammingU8;
    var all := ScoreRows(query, ids, bits, bpr);
    ScoredLength(query, ids, bits, bpr, all);
    scores := all;
    var k := Min(kRough, |all|);
    BeforeIsTotal();
    var selected, dropped := SelectFirst(all, k, Before);
    var r := Sort(selected, Before);
    top := seq(|r|, i requires 0 <= i < |r| => (r[i].id, r[i].distance));
    PermutationFacts(r, selected);
    SplitStays(selected, r, dropped, all);
    TopInOrder(r, dropped, all, top);
    forall full: seq<Score> | Sorted(full, Before) && Permutation(full, scores)
      ensures |full| == |ids| && forall i :: 0 <= i < |top| ==> top[i] == (full[i].id, full[i].distance)
    {
      PermutationFacts(full, scores);
      SelectionIsPrefix(r, dropped, full);
    }
  }

  lemma SplitStays(selected: seq<Score>, r: seq<Score>, dropped: seq<Score>, all: seq<Score>)
    requires SplitAt(selected, dropped, all) && Permutation(r, selected)
    ensures SplitAt(r, dropped, all)
  {
    PermutationFacts(r, selected);
    assert multiset(r + dropped) == multiset(r) + multiset(dropped) == multiset(selected + dropped);
  }

  /** Over packed vectors the sweep orders by differing signs. */
  lemma SweepCountsSigns(q: seq<real>, vectors: seq<seq<real>>, query: seq<bv8>, ids: seq<U64>, bits: seq<bv8>,
                         bpr: nat, scores: seq<Score>, i: nat)
    requires |bits| == |ids| * bpr && |vectors| == |ids| && i < |ids| && (i + 1) * bpr <= |bits|
    requires SignBits(q, query) && |vectors[i]| == |q| && SignBits(vectors[i], RowOf(bits, i, bpr))
    requires Scored(query, ids, bits, bpr, scores)
    ensures scores[i] == Score(SignDifferences(q, vectors[i]), ids[i])
  {
    hide SignBits, HammingU8, SignDifferences;
    HammingCountsSigns(q, vectors[i], query, RowOf(bits, i, bpr));
    assert RowScore(query, ids, bits, bpr, i, scores[i]);
  }
}
