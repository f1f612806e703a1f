/** What reciprocal ranks mean for the order of the fused hits. */
module FusionOrder {
  import opened Prelude
  import opened Fusion

  // ---------- One rank ----------

  /** Rank i, counted from 0, is worth one part in 61 + i. */
  lemma RankShare(i: nat)
    ensures RankScore(i) * (61 + i) as real == 1.0 && RankScore(i) == 1.0 / (61 + i) as real
    ensures RankScore(i) > 0.0
  {
    var x, n := RankScore(i), (61 + i) as real;
    assert n == 60.0 + (i + 1) as real;
    assert x * n == 1.0;
    assert x * n > 0.0 * n;
    LargerFactor(x, 0.0, n);
  }

  lemma LargerFactor(x: real, y: real, n: real)
    requires n > 0.0 && x * n > y * n
    ensures x > y
  {
    assert x <= y ==> (y - x) * n >= 0.0;
  }

  lemma RanksFall(i: nat, j: nat)
    requires i < j
    ensures RankScore(i) > RankScore(j)
  {
    RankShare(i);
    RankShare(j);
    hide RankScore;
    var x, y := RankScore(i), RankScore(j);
    var m, n := (61 + i) as real, (61 + j) as real;
    assert y * (n - m) > 0.0;
    assert y * n == y * m + y * (n - m);
    LargerFactor(x, y, m);
  }

  // ---------- One list ----------

  /** Every occurrence of an id counts, each for its own rank. */
  lemma {:induction false} EachOccurrenceCounts(hits: seq<Hit>, id: I64, i: nat, other: Hit)
    requires i < |hits| && hits[i].id == id && other.id != id
    ensures ListScore(hits, id) == ListScore(hits[i := other], id) + RankScore(i)
  {
    hide RankScore;
    var n := |hits| - 1;
    var without := hits[i := other];
    if i == n {
      assert without[..n] == hits[..n];
    } else {
      EachOccurrenceCounts(hits[..n], id, i, other);
      assert without[..n] == hits[..n][i := other];
    }
  }

  ghost predicate NoRepeatedIds(hits: seq<Hit>) {
    forall i, j :: 0 <= i < j < |hits| ==> hits[i].id != hits[j].id
  }

  /** The id is at this rank, or, without one, not in the list. */
  ghost predicate RankedAt(hits: seq<Hit>, id: I64, rank: Option<nat>) {
    if rank.Some? then rank.value < |hits| && hits[rank.value].id == id else id !in Ids(hits)
  }

  /** What a rank is worth. */
  function Worth(rank: Option<nat>): real {
    if rank.None? then 0.0 else 1.0 / (61 + rank.value) as real
  }

  lemma RankedScore(hits: seq<Hit>, id: I64, rank: Option<nat>)
    requires NoRepeatedIds(hits) && RankedAt(hits, id, rank)
    ensures ListScore(hits, id) == Worth(rank)
  {
    hide ListScore, RankScore;
    if rank.None? {
      AbsentScore(hits, id);
    } else {
      var i := rank.value;
      var otherId: I64 := if id == 0 then 1 else 0;
      var without := hits[i := hits[i].(id := otherId)];
      EachOccurrenceCounts(hits, id, i, hits[i].(id := otherId));
      assert id !in Ids(without);
      AbsentScore(without, id);
      RankShare(i);
    }
  }

  // ---------- Both lists ----------

  /**
   Without repeats the fused score is 1 / (61 + i) for rank i in one list and 1 / (61 + j)
   for rank j in the other.
   */
  lemma FusedByRanks(lex: seq<Hit>, vec: seq<Hit>, id: I64, i: Option<nat>, j: Option<nat>)
    requires NoRepeatedIds(lex) && NoRepeatedIds(vec) && RankedAt(lex, id, i) && RankedAt(vec, id, j)
    ensures Fused(lex, vec, id) == Worth(i) + Worth(j)
  {
    RankedScore(lex, id, i);
    RankedScore(vec, id, j);
  }

  /** A place in the answer and what its score tells. */
  lemma AnswerScores(lex: seq<Hit>, vec: seq<Hit>, limit: nat, out: seq<Hit>, q: nat)
    requires IsFusion(lex, vec, limit, out) && q < |out|
    ensures out[q].score == Fused(lex, vec, out[q].id)
    ensures forall p :: 0 <= p < |out| && out[p].score > out[q].score ==> p < q
    ensures forall id :: id in Ids(lex) + Ids(vec) && id !in Ids(out) ==> Fused(lex, vec, id) <= out[q].score
  {
    hide Fused, Ids;
    assert IsScored(lex, vec, out[q]);
  }

  /** An id of a higher fused score comes before one of a lower score that is in the answer. */
  lemma HigherComesFirst(lex: seq<Hit>, vec: seq<Hit>, limit: nat, out: seq<Hit>, a: I64, b: I64, q: nat)
    returns (p: nat)
    requires IsFusion(lex, vec, limit, out) && q < |out| && out[q].id == b
    requires a in Ids(lex) + Ids(vec) && Fused(lex, vec, a) > Fused(lex, vec, b)
    ensures p < q && out[p].id == a
  {
    hide Fused, IsFusion;
    AnswerScores(lex, vec, limit, out, q);
    assert a in Ids(out);
    p :| 0 <= p < |out| && out[p].id == a;
    AnswerScores(lex, vec, limit, out, p);
  }

  /** `ahead` is a better rank than `behind`; no rank is the worst. */
  ghost predicate Better(ahead: Option<nat>, behind: Option<nat>) {
    ahead.Some? && (behind.None? || ahead.value < behind.value)
  }

  lemma BetterIsWorthMore(ahead: Option<nat>, behind: Option<nat>)
    requires Better(ahead, behind)
    ensures Worth(ahead) > Worth(behind) >= 0.0
  {
    hide RankScore;
    RankShare(ahead.value);
    if behind.Some? {
      RankShare(behind.value);
      RanksFall(ahead.value, behind.value);
    }
  }

  /** A hit ahead of another in both lists comes before it in the answer, if that one is in the answer at all. */
  lemma AheadInBoth(lex: seq<Hit>, vec: seq<Hit>, limit: nat, out: seq<Hit>, a: I64, b: I64,
                    ai: Option<nat>, aj: Option<nat>, bi: Option<nat>, bj: Option<nat>, q: nat) returns (p: nat)
    requires IsFusion(lex, vec, limit, out) && q < |out| && out[q].id == b
    requires NoRepeatedIds(lex) && NoRepeatedIds(vec)
    requires RankedAt(lex, a, ai) && RankedAt(vec, a, aj) && RankedAt(lex, b, bi) && RankedAt(vec, b, bj)
    requires Better(ai, bi) && Better(aj, bj)
    ensures p < q && out[p].id == a
  {
    hide IsFusion, Fused, Worth;
    FusedByRanks(lex, vec, a, ai, aj);
    FusedByRanks(lex, vec, b, bi, bj);
    BetterIsWorthMore(ai, bi);
    BetterIsWorthMore(aj, bj);
    p := HigherComesFirst(lex, vec, limit, out, a, b, q);
  }

  /**
   A hit in both lists comes before one in only one of them that is ranked no better there than the
   first one is in either list, and before every such hit if it is among the first 61 of both.
   */
  lemma BothBeatOne(lex: seq<Hit>, vec: seq<Hit>, limit: nat, out: seq<Hit>, a: I64, b: I64,
                    i: nat, j: nat, r: nat, inLex: bool, q: nat) returns (p: nat)
    requires IsFusion(lex, vec, limit, out) && q < |out| && out[q].id == b
    requires NoRepeatedIds(lex) && NoRepeatedIds(vec)
    requires RankedAt(lex, a, Some(i)) && RankedAt(vec, a, Some(j))
    requires RankedAt(lex, b, if inLex then Some(r) else None) && RankedAt(vec, b, if inLex then None else Some(r))
    requires i <= r || j <= r || (i <= 60 && j <= 60)
    ensures p < q && out[p].id == a
  {
    hide IsFusion, Fused, Worth;
    FusedByRanks(lex, vec, a, Some(i), Some(j));
    FusedByRanks(lex, vec, b, if inLex then Some(r) else None, if inLex then None else Some(r));
    TwoBeatOne(i, j, r);
    NoRankNoWorth();
    p := HigherComesFirst(lex, vec, limit, out, a, b, q);
  }

  lemma NoRankNoWorth()
    ensures Worth(None) == 0.0
  {
  }

  lemma TwoBeatOne(i: nat, j: nat, r: nat)
    requires i <= r || j <= r || (i <= 60 && j <= 60)
    ensures Worth(Some(i)) + Worth(Some(j)) > Worth(Some(r))
  {
    hide RankScore;
    RankShare(i);
    RankShare(j);
    RankShare(r);
    RankShare(0);
    RankShare(60);
    if i < r { RanksFall(i, r); }
    if j < r { RanksFall(j, r); }
    if i < 60 { RanksFall(i, 60); }
    if j < 60 { RanksFall(j, 60); }
    if r > 0 { RanksFall(0, r); }
  }

  /** Beyond that a tie is possible: the 62nd of both lists scores what the first of one does. */
  lemma TieAtSixtyTwo()
    ensures Worth(Some(61)) + Worth(Some(61)) == Worth(Some(0))
  {
  }
}
