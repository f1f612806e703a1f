/**
 The contracts of the host language's sort and select-nth. Neither promises an
 order among equal keys, so nothing proved from these contracts depends on ties.
 */
module Sorting {
  ghost predicate TotalPreorder<T(!new)>(le: (T, T) -> bool) {
    && (forall x, y :: le(x, y) || le(y, x))
    && (forall x, y, z :: le(x, y) && le(y, z) ==> le(x, z))
  }

  ghost predicate Sorted<T>(s: seq<T>, le: (T, T) -> bool) {
    forall i, j :: 0 <= i < j < |s| ==> le(s[i], s[j])
  }

  /** `s` holds the elements that `r` holds, each as often. */
  ghost predicate Permutation<T>(r: seq<T>, s: seq<T>) {
    multiset(r) == multiset(s)
  }

  ghost predicate NoRepeats<T>(s: seq<T>) {
    forall i, j :: 0 <= i < j < |s| ==> s[i] != s[j]
  }

  lemma PermutationFacts<T>(r: seq<T>, s: seq<T>)
    requires Permutation(r, s)
    ensures |r| == |s|
    ensures forall x :: x in r <==> x in s
  {
    assert |r| == |multiset(r)| == |multiset(s)| == |s|;
    forall x
      ensures x in r <==> x in s
    {
      assert x in r <==> x in multiset(r);
      assert x in s <==> x in multiset(s);
    }
  }

  function Without<T>(s: seq<T>, k: nat): seq<T>
    requires k < |s|
  {
    s[..k] + s[k + 1..]
  }

  lemma WithoutLength<T>(s: seq<T>, k: nat)
    requires k < |s|
    ensures |Without(s, k)| == |s| - 1
  {
  }

  lemma WithoutCounts<T>(s: seq<T>, k: nat)
    requires k < |s|
    ensures multiset(s) == multiset(Without(s, k)) + multiset{s[k]}
  {
    assert s == s[..k] + [s[k]] + s[k + 1..];
  }

  /** Taking one element out of both keeps a permutation. */
  lemma WithoutPermutes<T>(r: seq<T>, s: seq<T>, i: nat, j: nat)
    requires Permutation(r, s) && i < |r| && j < |s| && r[i] == s[j]
    ensures Permutation(Without(r, i), Without(s, j))
  {
    hide Without;
    WithoutCounts(r, i);
    WithoutCounts(s, j);
    assert multiset(Without(r, i)) == multiset(r) - multiset{r[i]};
    assert multiset(Without(s, j)) == multiset(s) - multiset{r[i]};
  }

  lemma NoRepeatsCounts<T>(s: seq<T>)
    requires NoRepeats(s)
    ensures forall x :: multiset(s)[x] <= 1
  {
    if s != [] {
      var n := |s| - 1;
      assert s == s[..n] + [s[n]];
      NoRepeatsCounts(s[..n]);
      assert s[n] !in multiset(s[..n]);
    }
  }

  lemma CountsNoRepeats<T>(s: seq<T>)
    requires forall x :: multiset(s)[x] <= 1
    ensures NoRepeats(s)
  {
    forall i, j | 0 <= i < j < |s|
      ensures s[i] != s[j]
    {
      var l, r := s[..j], s[j..];
      assert s == l + r;
      assert multiset(s) == multiset(l) + multiset(r);
      assert l[i] in multiset(l) && r[0] in multiset(r);
      assert s[i] == l[i] && s[j] == r[0];
      assert multiset(s)[s[j]] <= 1;
    }
  }

  /** Sorting neither creates nor removes repetitions. */
  lemma PermutationNoRepeats<T>(r: seq<T>, s: seq<T>)
    requires Permutation(r, s) && NoRepeats(s)
    ensures NoRepeats(r)
  {
    NoRepeatsCounts(s);
    CountsNoRepeats(r);
  }

  /** Keys distinct before reordering are distinct after it. */
  lemma KeysStayDistinct<T, K>(r: seq<T>, s: seq<T>, key: T -> K)
    requires Permutation(r, s)
    requires forall i, j :: 0 <= i < j < |s| ==> key(s[i]) != key(s[j])
    ensures forall i, j :: 0 <= i < j < |r| ==> key(r[i]) != key(r[j])
  {
    PermutationFacts(r, s);
    PermutationNoRepeats(r, s);
    forall i, j | 0 <= i < j < |r|
      ensures key(r[i]) != key(r[j])
    {
      assert r[i] != r[j] && r[i] in s && r[j] in s;
      var a :| 0 <= a < |s| && s[a] == r[i];
      var b :| 0 <= b < |s| && s[b] == r[j];
    }
  }

  /** An element that fits between two sorted pieces. */
  lemma InsertedIsSorted<T(!new)>(s: seq<T>, x: T, k: nat, le: (T, T) -> bool)
    requires TotalPreorder(le) && Sorted(s, le) && k <= |s|
    requires forall i :: 0 <= i < k ==> le(s[i], x)
    requires k < |s| ==> le(x, s[k]) || !le(s[k], x)
    ensures Sorted(s[..k] + [x] + s[k..], le)
  {
    var r := s[..k] + [x] + s[k..];
    forall i, j | 0 <= i < j < |r|
      ensures le(r[i], r[j])
    {
      FitsBetween(s, x, k, le, i, j);
    }
  }

  lemma FitsBetween<T(!new)>(s: seq<T>, x: T, k: nat, le: (T, T) -> bool, i: nat, j: nat)
    requires TotalPreorder(le) && Sorted(s, le) && k <= |s| && i < j <= |s|
    requires forall a :: 0 <= a < k ==> le(s[a], x)
    requires k < |s| ==> le(x, s[k]) || !le(s[k], x)
    ensures le((s[..k] + [x] + s[k..])[i], (s[..k] + [x] + s[k..])[j])
  {
    var r := s[..k] + [x] + s[k..];
    assert r[i] == if i < k then s[i] else if i == k then x else s[i - 1];
    assert r[j] == if j < k then s[j] else if j == k then x else s[j - 1];
    if i == k {
      assert le(x, s[k]);
      assert j - 1 == k || le(s[k], s[j - 1]);
    }
  }

  method InsertSorted<T(!new)>(s: seq<T>, x: T, le: (T, T) -> bool) returns (r: seq<T>)
    requires TotalPreorder(le) && Sorted(s, le)
    ensures Sorted(r, le)
    ensures multiset(r) == multiset(s) + multiset{x}
  {
    var k := 0;
    while k < |s| && le(s[k], x)
      invariant 0 <= k <= |s|
      invariant forall i :: 0 <= i < k ==> le(s[i], x)
    {
      k := k + 1;
    }
    r := s[..k] + [x] + s[k..];
    InsertedIsSorted(s, x, k, le);
    assert s == s[..k] + s[k..];
  }

  /** Any sort: sorted, and the same elements. */
  method Sort<T(!new)>(s: seq<T>, le: (T, T) -> bool) returns (r: seq<T>)
    requires TotalPreorder(le)
    ensures Sorted(r, le)
    ensures Permutation(r, s)
  {
    r := [];
    for i := 0 to |s|
      invariant Sorted(r, le)
      invariant multiset(r) == multiset(s[..i])
    {
      r := InsertSorted(r, s[i], le);
      assert s[..i + 1] == s[..i] + [s[i]];
    }
    assert s[..|s|] == s;
  }

  /** `select_nth_unstable(k - 1)` then `truncate(k)`: k elements, none after any of the dropped ones. */
  method SelectFirst<T(!new)>(s: seq<T>, k: nat, le: (T, T) -> bool) returns (r: seq<T>, ghost dropped: seq<T>)
    requires TotalPreorder(le)
    requires k <= |s|
    ensures |r| == k
    ensures Permutation(r + dropped, s)
    ensures forall x, y :: x in r && y in dropped ==> le(x, y)
  {
    var t := Sort(s, le);
    PermutationFacts(t, s);
    r, dropped := t[..k], t[k..];
    assert t == r + dropped;
  }
}
