/** Ranking of scored movie ids, as `sort_values('score', ascending=False)`
    leaves them. The sort is not stable, so the order among equal scores is
    not fixed: a ranking is specified as a relation, and `SortDesc` shows that
    every score table has at least one ranking. */
module Ranking {

  /** No id occurs twice. */
  predicate Distinct(ids: seq<int>) {
    forall i, j :: 0 <= i < j < |ids| ==> ids[i] != ids[j]
  }

  /** Every id has a score, and scores never increase along `ids`. */
  predicate Descending(scores: map<int, real>, ids: seq<int>) {
    && (forall i :: 0 <= i < |ids| ==> ids[i] in scores)
    && (forall i, j :: 0 <= i < j < |ids| ==> scores[ids[i]] >= scores[ids[j]])
  }

  /** `ranked` lists every scored id exactly once, by non-increasing score;
      ties may come in any order. */
  predicate IsRanking(scores: map<int, real>, ranked: seq<int>) {
    && Distinct(ranked)
    && Descending(scores, ranked)
    && (forall k :: k in scores ==> k in ranked)
  }

  /** Puts `k` into a descending list after every id that scores at least as high. */
  function Insert(scores: map<int, real>, ranked: seq<int>, k: int): (r: seq<int>)
    requires k in scores && k !in ranked
    requires Distinct(ranked) && Descending(scores, ranked)
    ensures |r| == |ranked| + 1
    ensures forall x :: x in r <==> x == k || x in ranked
    ensures Distinct(r) && Descending(scores, r)
  {
    if |ranked| == 0 then [k]
    else if scores[ranked[0]] >= scores[k] then
      var rest := ranked[1..];
      assert forall i :: 0 <= i < |rest| ==> rest[i] == ranked[i + 1];
      var tail := Insert(scores, rest, k);
      HeadDominates(scores, ranked, k, tail);
      [ranked[0]] + tail
    else
      [k] + ranked
  }

  lemma HeadDominates(scores: map<int, real>, ranked: seq<int>, k: int, tail: seq<int>)
    requires |ranked| > 0 && k in scores && k !in ranked
    requires Distinct(ranked) && Descending(scores, ranked)
    requires scores[ranked[0]] >= scores[k]
    requires forall x :: x in tail ==> x == k || x in ranked[1..]
    ensures forall i :: 0 <= i < |tail| ==> tail[i] in scores && scores[ranked[0]] >= scores[tail[i]]
    ensures ranked[0] !in tail
  {
    forall i | 0 <= i < |tail|
      ensures tail[i] in scores && scores[ranked[0]] >= scores[tail[i]] && tail[i] != ranked[0]
    {
      if tail[i] != k {
        assert tail[i] in ranked[1..];
        var j :| 0 <= j < |ranked[1..]| && ranked[1..][j] == tail[i];
        assert ranked[j + 1] == tail[i];
      }
    }
  }

  /** Any score table can be ranked. */
  method SortDesc(scores: map<int, real>) returns (ranked: seq<int>)
    ensures IsRanking(scores, ranked)
  {
    ranked := [];
    var pending := scores.Keys;
    while pending != {}
      invariant pending <= scores.Keys
      invariant forall k :: k in scores ==> (k in ranked <==> k !in pending)
      invariant Distinct(ranked) && Descending(scores, ranked)
      decreases |pending|
    {
      assert (forall y :: y !in pending) ==> pending == {};
      var next :| next in pending;
      ranked := Insert(scores, ranked, next);
      pending := pending - {next};
    }
  }

  /** A ranking is empty exactly when there is nothing to rank. */
  lemma EmptyRanking(scores: map<int, real>, ranked: seq<int>)
    requires IsRanking(scores, ranked)
    ensures |ranked| == 0 <==> |scores| == 0
  {
    if |ranked| > 0 {
      assert ranked[0] in scores;
    }
    if |scores| > 0 {
      assert (forall y :: y !in scores.Keys) ==> scores.Keys == {};
      var k :| k in scores;
      assert k in ranked;
    }
  }

  /** The top-ranked id scores at least as high as every scored id. */
  lemma FirstIsMaximal(scores: map<int, real>, ranked: seq<int>, k: int)
    requires IsRanking(scores, ranked) && k in scores
    ensures |ranked| > 0 && scores[ranked[0]] >= scores[k]
  {
    var j :| 0 <= j < |ranked| && ranked[j] == k;
    if j > 0 {
      assert scores[ranked[0]] >= scores[ranked[j]];
    }
  }
}
