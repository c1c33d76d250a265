/** Top-k selection over the similarity scores: the contract of
    `torch.topk(sims, k=top_k, largest=True)`, whose result is sorted by
    default. Scores are abstract integers; only their order matters. */
module Ranking {
  import opened Wrappers

  /** `r` is a valid answer to a top-`k` query over `scores`: `k` distinct
      positions, in range, by non-increasing score, and no position left
      out scores above one that was taken. Nothing is said about the order
      of equal scores. */
  predicate IsTopK(scores: seq<int>, k: nat, r: seq<nat>)
    ensures IsTopK(scores, k, r) ==> k <= |scores|
  {
    DistinctFits(|scores|, r);
    && |r| == k
    && (forall a :: 0 <= a < |r| ==> r[a] < |scores|)
    && (forall a, b :: 0 <= a < b < |r| ==> r[a] != r[b])
    && (forall a, b :: 0 <= a < b < |r| ==> scores[r[a]] >= scores[r[b]])
    && (forall j, a :: 0 <= j < |scores| && j !in r && 0 <= a < |r| ==> scores[j] <= scores[r[a]])
  }

  /** The highest-scoring position below `n` that is not in `taken`, the
      lowest such position among equal scores; `None` when every position
      below `n` is taken. */
  function BestUntaken(scores: seq<int>, taken: seq<nat>, n: nat): (b: Option<nat>)
    requires n <= |scores|
    ensures b.None? <==> forall j :: 0 <= j < n ==> j in taken
    ensures b.Some? ==> b.value < n && b.value !in taken
    ensures b.Some? ==> forall j :: 0 <= j < n && j !in taken ==> scores[j] <= scores[b.value]
  {
    if n == 0 then None
    else
      var b := BestUntaken(scores, taken, n - 1);
      if n - 1 in taken then b
      else if b.None? || scores[n - 1] > scores[b.value] then Some(n - 1)
      else b
  }

  /** `s` with every occurrence of `x` removed. */
  function Without(s: seq<nat>, x: nat): (r: seq<nat>)
    ensures x in s ==> |r| < |s|
    ensures |r| <= |s|
    ensures forall y :: y in s && y != x ==> y in r
  {
    if |s| == 0 then []
    else if s[0] == x then Without(s[1..], x)
    else [s[0]] + Without(s[1..], x)
  }

  /** Fewer than `n` taken positions leave one of `0..n` free. */
  lemma {:induction false} FreePosition(n: nat, taken: seq<nat>)
    requires |taken| < n
    ensures exists j :: 0 <= j < n && j !in taken
  {
    if n - 1 in taken {
      var rest := Without(taken, n - 1);
      FreePosition(n - 1, rest);
      var j :| 0 <= j < n - 1 && j !in rest;
      assert j !in taken;
    }
  }

  /** A reference top-`k` selection: repeatedly take the best position not
      yet taken. */
  function TopK(scores: seq<int>, k: nat): (r: seq<nat>)
    requires k <= |scores|
    ensures IsTopK(scores, k, r)
  {
    if k == 0 then []
    else
      var prev := TopK(scores, k - 1);
      FreePosition(|scores|, prev);
      var b := BestUntaken(scores, prev, |scores|);
      var r := prev + [b.value];
      assert forall j :: j in r <==> j in prev || j == b.value;
      r
  }

  /** The scores at the selected positions: the `values` half of
      `torch.topk`'s answer. */
  function ScoresAt(scores: seq<int>, idx: seq<nat>): (values: seq<int>)
    requires forall a :: 0 <= a < |idx| ==> idx[a] < |scores|
    ensures |values| == |idx|
    ensures forall a :: 0 <= a < |idx| ==> values[a] == scores[idx[a]]
  {
    seq(|idx|, a requires 0 <= a < |idx| => scores[idx[a]])
  }

  /** A place scoring strictly above every other is ranked first. */
  lemma StrictBestRanksFirst(scores: seq<int>, k: nat, r: seq<nat>, j: nat)
    requires IsTopK(scores, k, r) && k >= 1
    requires j < |scores|
    requires forall i :: 0 <= i < |scores| && i != j ==> scores[i] < scores[j]
    ensures r[0] == j
  {
    if j !in r {
      assert scores[j] <= scores[r[0]];
    }
  }

  function SetOf(s: seq<nat>): set<nat>
  {
    set x | x in s
  }

  lemma {:induction false} SetOfSize(s: seq<nat>)
    ensures |SetOf(s)| <= |s|
    ensures (forall a, b :: 0 <= a < b < |s| ==> s[a] != s[b]) ==> |SetOf(s)| == |s|
  {
    if |s| > 0 {
      var t := s[1..];
      SetOfSize(t);
      assert SetOf(s) == {s[0]} + SetOf(t);
      if forall a, b :: 0 <= a < b < |s| ==> s[a] != s[b] {
        assert s[0] !in SetOf(t);
      }
    }
  }

  lemma SubsetSize(x: set<nat>, y: set<nat>)
    requires x <= y
    ensures |x| <= |y|
  {
    assert y == x + (y - x);
  }

  /** The positions `0..n`. */
  function Range(n: nat): (r: set<nat>)
    ensures forall j: nat :: j in r <==> j < n
    ensures |r| == n
  {
    if n == 0 then {} else Range(n - 1) + {n - 1}
  }

  /** Distinct positions below `n` are at most `n` many: `torch.topk`
      cannot select more places than there are. */
  lemma DistinctFits(n: nat, r: seq<nat>)
    ensures ((forall a :: 0 <= a < |r| ==> r[a] < n) &&
             (forall a, b :: 0 <= a < b < |r| ==> r[a] != r[b]))
            ==> |r| <= n
  {
    if (forall a :: 0 <= a < |r| ==> r[a] < n) && (forall a, b :: 0 <= a < b < |r| ==> r[a] != r[b]) {
      SetOfSize(r);
      assert SetOf(r) <= Range(n);
      SubsetSize(SetOf(r), Range(n));
    }
  }

  /** Position `a` of one valid selection scores no higher than position
      `a` of another: otherwise the first `a + 1` picks of the former would
      all sit among the first `a` picks of the latter. */
  lemma ScoreBoundAt(scores: seq<int>, k: nat, r1: seq<nat>, r2: seq<nat>, a: nat)
    requires IsTopK(scores, k, r1) && IsTopK(scores, k, r2)
    requires a < k
    ensures scores[r1[a]] <= scores[r2[a]]
  {
    if scores[r1[a]] > scores[r2[a]] {
      var taken1 := r1[..a + 1];
      var before2 := r2[..a];
      forall b | 0 <= b <= a ensures r1[b] in before2 {
        assert scores[r1[b]] >= scores[r1[a]];
        var c :| 0 <= c < |r2| && r2[c] == r1[b];
        assert before2[c] == r1[b];
      }
      assert SetOf(taken1) <= SetOf(before2);
      assert forall b, c :: 0 <= b < c < |taken1| ==> taken1[b] != taken1[c];
      SetOfSize(taken1);
      SetOfSize(before2);
      SubsetSize(SetOf(taken1), SetOf(before2));
    }
  }

  /** Whatever order `torch.topk` gives equal scores, the selected scores
      are the same sequence: the ranking is determined up to ties. */
  lemma TopKScoresUnique(scores: seq<int>, k: nat, r1: seq<nat>, r2: seq<nat>)
    requires IsTopK(scores, k, r1) && IsTopK(scores, k, r2)
    ensures ScoresAt(scores, r1) == ScoresAt(scores, r2)
  {
    forall a | 0 <= a < k ensures scores[r1[a]] == scores[r2[a]] {
      ScoreBoundAt(scores, k, r1, r2, a);
      ScoreBoundAt(scores, k, r2, r1, a);
    }
  }
}
