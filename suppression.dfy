/**
 * Greedy non-maximum suppression over candidate indices: rank the candidates
 * by score, keep the best remaining one, drop every remaining candidate that
 * overlaps it too much, and repeat until nothing remains.
 */
module Suppression {
  import opened Boxes

  /** Every index in s addresses one of n candidates. */
  predicate ValidIndices(s: seq<nat>, n: nat)
  {
    forall a :: 0 <= a < |s| ==> s[a] < n
  }

  predicate Distinct(s: seq<nat>)
  {
    forall a, b :: 0 <= a < b < |s| ==> s[a] != s[b]
  }

  /** The indices in s point at scores in non-increasing order. */
  predicate Descending(s: seq<nat>, scores: seq<real>)
    requires ValidIndices(s, |scores|)
  {
    forall a, b :: 0 <= a < b < |s| ==> scores[s[a]] >= scores[s[b]]
  }

  /**
   * order lists every candidate index exactly once, best score first. Equal
   * scores may come in any order: numpy's argsort is not stable.
   */
  predicate IsRanking(order: seq<nat>, scores: seq<real>)
  {
    && |order| == |scores|
    && ValidIndices(order, |scores|)
    && (forall k: nat :: k < |scores| ==> k in order)
    && Distinct(order)
    && Descending(order, scores)
  }

  /**
   * The candidates of rest that stay after head is kept: those whose IoU
   * with head is strictly below thr, in their original order.
   */
  function Survivors(boxes: seq<Box>, head: nat, rest: seq<nat>, thr: real): (s: seq<nat>)
    requires head < |boxes| && ValidIndices(rest, |boxes|)
    ensures |s| <= |rest| && ValidIndices(s, |boxes|)
    ensures forall j :: j in s <==> j in rest && Retained(boxes[head], boxes[j], thr)
    decreases |rest|
  {
    if rest == [] then []
    else if Retained(boxes[head], boxes[rest[0]], thr) then [rest[0]] + Survivors(boxes, head, rest[1..], thr)
    else Survivors(boxes, head, rest[1..], thr)
  }

  /** What the suppression loop keeps when it starts from the ranking idxs. */
  function Greedy(boxes: seq<Box>, idxs: seq<nat>, thr: real): (keep: seq<nat>)
    requires ValidIndices(idxs, |boxes|)
    ensures |keep| <= |idxs| && ValidIndices(keep, |boxes|)
    ensures forall j :: j in keep ==> j in idxs
    decreases |idxs|
  {
    if idxs == [] then []
    else [idxs[0]] + Greedy(boxes, Survivors(boxes, idxs[0], idxs[1..], thr), thr)
  }

  lemma TailOrdered(s: seq<nat>, scores: seq<real>)
    requires s != [] && ValidIndices(s, |scores|)
    ensures ValidIndices(s[1..], |scores|)
    ensures Distinct(s) ==> Distinct(s[1..]) && s[0] !in s[1..]
    ensures Descending(s, scores) ==> forall x :: x in s[1..] ==> scores[x] <= scores[s[0]]
    ensures Descending(s, scores) ==> Descending(s[1..], scores)
  {
    assert forall a :: 0 <= a < |s[1..]| ==> s[1..][a] == s[a + 1];
  }

  lemma ConsOrdered(h: nat, tail: seq<nat>, scores: seq<real>)
    requires h < |scores| && ValidIndices(tail, |scores|)
    ensures ValidIndices([h] + tail, |scores|)
    ensures Distinct(tail) && h !in tail ==> Distinct([h] + tail)
    ensures Descending(tail, scores) && (forall x :: x in tail ==> scores[x] <= scores[h])
      ==> Descending([h] + tail, scores)
  {
    var s := [h] + tail;
    assert forall a :: 0 < a < |s| ==> s[a] == tail[a - 1];
    if Distinct(tail) && h !in tail {
      forall a, b | 0 <= a < b < |s| ensures s[a] != s[b] {
        if a == 0 {
          assert s[b] in tail;
        }
      }
    }
    if Descending(tail, scores) && (forall x :: x in tail ==> scores[x] <= scores[h]) {
      forall a, b | 0 <= a < b < |s| ensures scores[s[a]] >= scores[s[b]] {
        if a == 0 {
          assert s[b] in tail;
        }
      }
    }
  }

  /** Filtering keeps distinctness and score order. */
  lemma {:induction false} SurvivorsOrdered(boxes: seq<Box>, scores: seq<real>, head: nat, rest: seq<nat>, thr: real)
    requires head < |boxes| && |boxes| == |scores| && ValidIndices(rest, |boxes|)
    ensures Distinct(rest) ==> Distinct(Survivors(boxes, head, rest, thr))
    ensures Descending(rest, scores) ==> Descending(Survivors(boxes, head, rest, thr), scores)
    decreases |rest|
  {
    if rest != [] {
      var tail := Survivors(boxes, head, rest[1..], thr);
      TailOrdered(rest, scores);
      SurvivorsOrdered(boxes, scores, head, rest[1..], thr);
      if Retained(boxes[head], boxes[rest[0]], thr) {
        ConsOrdered(rest[0], tail, scores);
      }
    }
  }

  /** Greedy starts with the head of its ranking and is empty only for an empty ranking. */
  lemma {:induction false} GreedyHead(boxes: seq<Box>, idxs: seq<nat>, thr: real)
    requires ValidIndices(idxs, |boxes|)
    ensures (Greedy(boxes, idxs, thr) == []) == (idxs == [])
    ensures idxs != [] ==> Greedy(boxes, idxs, thr)[0] == idxs[0]
  {
  }

  /** Greedy keeps distinctness and score order of its ranking. */
  lemma {:induction false} GreedyOrdered(boxes: seq<Box>, scores: seq<real>, idxs: seq<nat>, thr: real)
    requires |boxes| == |scores| && ValidIndices(idxs, |boxes|)
    ensures Distinct(idxs) ==> Distinct(Greedy(boxes, idxs, thr))
    ensures Descending(idxs, scores) ==> Descending(Greedy(boxes, idxs, thr), scores)
    decreases |idxs|
  {
    if idxs != [] {
      var h := idxs[0];
      var surv := Survivors(boxes, h, idxs[1..], thr);
      var tail := Greedy(boxes, surv, thr);
      TailOrdered(idxs, scores);
      SurvivorsOrdered(boxes, scores, h, idxs[1..], thr);
      GreedyOrdered(boxes, scores, surv, thr);
      assert forall x :: x in tail ==> x in idxs[1..];
      ConsOrdered(h, tail, scores);
    }
  }

  /** Each candidate of s passed the overlap test against every candidate before it. */
  predicate PairwiseRetained(boxes: seq<Box>, s: seq<nat>, thr: real)
    requires ValidIndices(s, |boxes|)
  {
    forall a, b :: 0 <= a < b < |s| ==> Retained(boxes[s[a]], boxes[s[b]], thr)
  }

  lemma ConsRetained(boxes: seq<Box>, h: nat, tail: seq<nat>, thr: real)
    requires h < |boxes| && ValidIndices(tail, |boxes|)
    requires PairwiseRetained(boxes, tail, thr)
    requires forall x :: x in tail ==> Retained(boxes[h], boxes[x], thr)
    ensures ValidIndices([h] + tail, |boxes|) && PairwiseRetained(boxes, [h] + tail, thr)
  {
    var s := [h] + tail;
    assert forall a :: 0 < a < |s| ==> s[a] == tail[a - 1];
    forall a, b | 0 <= a < b < |s| ensures Retained(boxes[s[a]], boxes[s[b]], thr) {
      if a == 0 {
        assert s[b] in tail;
      }
    }
  }

  /** Every kept candidate passed the overlap test against each candidate kept before it. */
  lemma {:induction false} GreedyRetainsPairs(boxes: seq<Box>, idxs: seq<nat>, thr: real)
    requires ValidIndices(idxs, |boxes|)
    ensures PairwiseRetained(boxes, Greedy(boxes, idxs, thr), thr)
    decreases |idxs|
  {
    if idxs != [] {
      var h := idxs[0];
      var surv := Survivors(boxes, h, idxs[1..], thr);
      var tail := Greedy(boxes, surv, thr);
      GreedyRetainsPairs(boxes, surv, thr);
      assert forall x :: x in tail ==> x in surv;
      ConsRetained(boxes, h, tail, thr);
    }
  }

  /**
   * Every candidate of a descending ranking that Greedy drops overlaps, beyond
   * the threshold, some kept candidate whose score is at least its own.
   */
  lemma {:induction false} GreedySuppressed(boxes: seq<Box>, scores: seq<real>, idxs: seq<nat>, thr: real, j: nat)
    requires |boxes| == |scores| && ValidIndices(idxs, |boxes|) && Descending(idxs, scores)
    requires j in idxs && j !in Greedy(boxes, idxs, thr)
    ensures exists k :: k in Greedy(boxes, idxs, thr) && scores[k] >= scores[j] && !Retained(boxes[k], boxes[j], thr)
    decreases |idxs|
  {
    var h := idxs[0];
    var surv := Survivors(boxes, h, idxs[1..], thr);
    var keep := Greedy(boxes, idxs, thr);
    assert keep == [h] + Greedy(boxes, surv, thr);
    assert j != h && j in idxs[1..];
    var c :| 0 <= c < |idxs[1..]| && idxs[1..][c] == j;
    assert idxs[c + 1] == j;
    assert scores[h] >= scores[j];
    if j in surv {
      SurvivorsOrdered(boxes, scores, h, idxs[1..], thr);
      assert Descending(idxs[1..], scores) by {
        forall a, b | 0 <= a < b < |idxs[1..]| ensures scores[idxs[1..][a]] >= scores[idxs[1..][b]] {
          assert idxs[1..][a] == idxs[a + 1] && idxs[1..][b] == idxs[b + 1];
        }
      }
      GreedySuppressed(boxes, scores, surv, thr, j);
      var k :| k in Greedy(boxes, surv, thr) && scores[k] >= scores[j] && !Retained(boxes[k], boxes[j], thr);
      assert k in keep;
    } else {
      assert h in keep;
      assert !Retained(boxes[h], boxes[j], thr);
    }
  }

  /** A ranking whose candidates do not overlap one another is kept whole. */
  lemma {:induction false} GreedyKeepsNonOverlapping(boxes: seq<Box>, s: seq<nat>, thr: real)
    requires ValidIndices(s, |boxes|) && PairwiseRetained(boxes, s, thr)
    ensures Greedy(boxes, s, thr) == s
    decreases |s|
  {
    if s != [] {
      TailRetained(boxes, s, thr);
      SurvivorsAll(boxes, s[0], s[1..], thr);
      GreedyKeepsNonOverlapping(boxes, s[1..], thr);
    }
  }

  lemma TailRetained(boxes: seq<Box>, s: seq<nat>, thr: real)
    requires s != [] && ValidIndices(s, |boxes|) && PairwiseRetained(boxes, s, thr)
    ensures ValidIndices(s[1..], |boxes|) && PairwiseRetained(boxes, s[1..], thr)
    ensures forall k :: 0 <= k < |s[1..]| ==> Retained(boxes[s[0]], boxes[s[1..][k]], thr)
  {
    var t := s[1..];
    assert forall a :: 0 <= a < |t| ==> t[a] == s[a + 1];
    forall k | 0 <= k < |t| ensures Retained(boxes[s[0]], boxes[t[k]], thr) {
      assert t[k] == s[k + 1];
    }
  }

  lemma {:induction false} SurvivorsAll(boxes: seq<Box>, head: nat, rest: seq<nat>, thr: real)
    requires head < |boxes| && ValidIndices(rest, |boxes|)
    requires forall k :: 0 <= k < |rest| ==> Retained(boxes[head], boxes[rest[k]], thr)
    ensures Survivors(boxes, head, rest, thr) == rest
    decreases |rest|
  {
    if rest != [] {
      SurvivorsAll(boxes, head, rest[1..], thr);
    }
  }

  /** No two distinct kept candidates overlap at or beyond the threshold, in either order. */
  predicate KeptApart(boxes: seq<Box>, keep: seq<nat>, thr: real)
    requires ValidIndices(keep, |boxes|)
  {
    forall a, b :: 0 <= a < |keep| && 0 <= b < |keep| && a != b ==> Retained(boxes[keep[a]], boxes[keep[b]], thr)
  }

  /** Every candidate left out of keep overlaps, beyond the threshold, a kept one scoring at least as high. */
  predicate DropsExplained(boxes: seq<Box>, scores: seq<real>, keep: seq<nat>, thr: real)
    requires |boxes| == |scores| && ValidIndices(keep, |boxes|)
  {
    forall j :: 0 <= j < |scores| && j !in keep ==>
      exists k :: k in keep && scores[k] >= scores[j] && !Retained(boxes[k], boxes[j], thr)
  }

  /**
   * Suppression is idempotent: running it again on what it kept, in any
   * score order the ranking may choose, keeps all of it.
   */
  lemma {:induction false} NmsIdempotent(boxes: seq<Box>, keep: seq<nat>, again: seq<nat>, thr: real)
    requires ValidIndices(keep, |boxes|) && KeptApart(boxes, keep, thr)
    requires ValidIndices(again, |boxes|) && Distinct(again) && forall k :: k in again <==> k in keep
    ensures Greedy(boxes, again, thr) == again
  {
    forall a, b | 0 <= a < b < |again| ensures Retained(boxes[again[a]], boxes[again[b]], thr) {
      assert again[a] in keep && again[b] in keep;
      var p :| 0 <= p < |keep| && keep[p] == again[a];
      var q :| 0 <= q < |keep| && keep[q] == again[b];
    }
    GreedyKeepsNonOverlapping(boxes, again, thr);
  }

  /** Inserting index i at position p turns a ranking of the first i indices into one of the first i + 1. */
  lemma InsertKeepsRanking(order: seq<nat>, scores: seq<real>, i: nat, p: nat)
    requires i < |scores| && p <= |order| && |order| == i
    requires forall k: nat :: k in order <==> k < i
    requires ValidIndices(order, |scores|) && Distinct(order) && Descending(order, scores)
    requires forall q :: 0 <= q < p ==> scores[order[q]] >= scores[i]
    requires p < |order| ==> scores[order[p]] < scores[i]
    ensures var t := order[..p] + [i] + order[p..];
      && |t| == i + 1
      && (forall k: nat :: k in t <==> k < i + 1)
      && ValidIndices(t, |scores|) && Distinct(t) && Descending(t, scores)
  {
    var t := order[..p] + [i] + order[p..];
    InsertMembers(order, i, p);
    InsertDistinct(order, i, p);
    InsertDescending(order, scores, i, p);
  }

  lemma InsertMembers(order: seq<nat>, i: nat, p: nat)
    requires p <= |order|
    ensures forall k :: k in order[..p] + [i] + order[p..] <==> k in order || k == i
  {
    assert order == order[..p] + order[p..];
  }

  lemma InsertDistinct(order: seq<nat>, i: nat, p: nat)
    requires p <= |order| && Distinct(order) && i !in order
    ensures Distinct(order[..p] + [i] + order[p..])
  {
    var t := order[..p] + [i] + order[p..];
    forall a, b | 0 <= a < b < |t| ensures t[a] != t[b] {
      if a == p {
        assert t[b] == order[b - 1];
      } else if b == p {
        assert t[a] == order[a];
      } else {
        var a' := if a < p then a else a - 1;
        var b' := if b < p then b else b - 1;
        assert t[a] == order[a'] && t[b] == order[b'];
      }
    }
  }

  lemma InsertDescending(order: seq<nat>, scores: seq<real>, i: nat, p: nat)
    requires i < |scores| && p <= |order|
    requires ValidIndices(order, |scores|) && Descending(order, scores)
    requires forall q :: 0 <= q < p ==> scores[order[q]] >= scores[i]
    requires p < |order| ==> scores[order[p]] < scores[i]
    ensures ValidIndices(order[..p] + [i] + order[p..], |scores|)
    ensures Descending(order[..p] + [i] + order[p..], scores)
  {
    var t := order[..p] + [i] + order[p..];
    assert forall a :: 0 <= a < |t| ==> t[a] == if a < p then order[a] else if a == p then i else order[a - 1];
    forall a, b | 0 <= a < b < |t| ensures scores[t[a]] >= scores[t[b]] {
      if a == p {
        assert scores[order[p]] >= scores[order[b - 1]];
      }
    }
  }

  /**
   * The ranking `scores.argsort()[::-1]`: every index once, best score
   * first. Callers rely on nothing but this contract, so the order it
   * gives to equal scores is immaterial.
   */
  method RankByScore(scores: seq<real>) returns (order: seq<nat>)
    ensures IsRanking(order, scores)
  {
    order := [];
    for i := 0 to |scores|
      invariant |order| == i
      invariant forall k: nat :: k in order <==> k < i
      invariant ValidIndices(order, |scores|) && Distinct(order)
      invariant Descending(order, scores)
    {
      var p := 0;
      while p < |order| && scores[order[p]] >= scores[i]
        invariant p <= |order|
        invariant forall q :: 0 <= q < p ==> scores[order[q]] >= scores[i]
      {
        p := p + 1;
      }
      InsertKeepsRanking(order, scores, i, p);
      order := order[..p] + [i] + order[p..];
    }
  }

  /**
   * `nms(boxes, scores, iou_thr)`: rank the candidates, then run the
   * suppression loop. It returns the indices it keeps and, as a ghost, the
   * ranking it started from.
   */
  method Nms(boxes: seq<Box>, scores: seq<real>, iouThr: real) returns (keep: seq<nat>, ghost order: seq<nat>)
    requires |boxes| == |scores|
    ensures IsRanking(order, scores) && keep == Greedy(boxes, order, iouThr)
    ensures ValidIndices(keep, |scores|) && Distinct(keep) && |keep| <= |scores|
    ensures (keep == []) == (scores == [])
    ensures Descending(keep, scores)
    ensures keep != [] ==> forall j :: 0 <= j < |scores| ==> scores[j] <= scores[keep[0]]
    ensures KeptApart(boxes, keep, iouThr)
    ensures DropsExplained(boxes, scores, keep, iouThr)
  {
    var ranking := RankByScore(scores);
    order := ranking;
    keep := Suppress(boxes, ranking, iouThr);
    NmsProperties(boxes, scores, ranking, iouThr, keep);
  }

  /**
   * The `while idxs.size > 0` loop: keep the head of what remains, then
   * carry on with the candidates that pass the test against it.
   */
  method Suppress(boxes: seq<Box>, ranking: seq<nat>, iouThr: real) returns (keep: seq<nat>)
    requires ValidIndices(ranking, |boxes|)
    ensures keep == Greedy(boxes, ranking, iouThr)
  {
    var idxs := ranking;
    keep := [];
    while |idxs| > 0
      invariant ValidIndices(idxs, |boxes|)
      invariant Greedy(boxes, ranking, iouThr) == keep + Greedy(boxes, idxs, iouThr)
      decreases |idxs|
    {
      var i := idxs[0];
      GreedyStep(boxes, keep, idxs, iouThr);
      keep := keep + [i];
      if |idxs| == 1 {
        assert Greedy(boxes, Survivors(boxes, i, idxs[1..], iouThr), iouThr) == [];
        break;
      }
      idxs := Survivors(boxes, i, idxs[1..], iouThr);
    }
  }

  /** One turn of the loop: the head joins keep and the survivors are what remains. */
  lemma GreedyStep(boxes: seq<Box>, keep: seq<nat>, idxs: seq<nat>, thr: real)
    requires idxs != [] && ValidIndices(idxs, |boxes|)
    ensures keep + Greedy(boxes, idxs, thr)
      == (keep + [idxs[0]]) + Greedy(boxes, Survivors(boxes, idxs[0], idxs[1..], thr), thr)
  {
    assert Greedy(boxes, idxs, thr) == [idxs[0]] + Greedy(boxes, Survivors(boxes, idxs[0], idxs[1..], thr), thr);
  }

  /** Everything `nms` promises of what Greedy keeps from a full ranking. */
  lemma NmsProperties(boxes: seq<Box>, scores: seq<real>, order: seq<nat>, thr: real, keep: seq<nat>)
    requires |boxes| == |scores| && IsRanking(order, scores)
    requires keep == Greedy(boxes, order, thr)
    ensures ValidIndices(keep, |scores|) && Distinct(keep) && |keep| <= |scores|
    ensures (keep == []) == (scores == [])
    ensures Descending(keep, scores)
    ensures keep != [] ==> forall j :: 0 <= j < |scores| ==> scores[j] <= scores[keep[0]]
    ensures KeptApart(boxes, keep, thr)
    ensures DropsExplained(boxes, scores, keep, thr)
  {
    GreedyHead(boxes, order, thr);
    GreedyOrdered(boxes, scores, order, thr);
    if keep != [] {
      HeadIsBest(scores, order, keep);
    }
    GreedyKeptApart(boxes, order, thr);
    GreedyDropsExplained(boxes, scores, order, thr);
  }

  /** The head of a ranking scores at least as high as every candidate. */
  lemma HeadIsBest(scores: seq<real>, order: seq<nat>, keep: seq<nat>)
    requires IsRanking(order, scores)
    requires keep != [] && order != [] && keep[0] == order[0]
    ensures forall j :: 0 <= j < |scores| ==> scores[j] <= scores[keep[0]]
  {
    forall j | 0 <= j < |scores| ensures scores[j] <= scores[keep[0]] {
      assert j in order;
      var c :| 0 <= c < |order| && order[c] == j;
      if c > 0 {
        assert scores[order[0]] >= scores[order[c]];
      }
    }
  }

  /** Kept candidates are pairwise apart, whichever of two comes first. */
  lemma GreedyKeptApart(boxes: seq<Box>, idxs: seq<nat>, thr: real)
    requires ValidIndices(idxs, |boxes|)
    ensures KeptApart(boxes, Greedy(boxes, idxs, thr), thr)
  {
    var keep := Greedy(boxes, idxs, thr);
    GreedyRetainsPairs(boxes, idxs, thr);
    forall a, b | 0 <= a < |keep| && 0 <= b < |keep| && a != b
      ensures Retained(boxes[keep[a]], boxes[keep[b]], thr)
    {
      if b < a {
        RetainedSymmetric(boxes[keep[b]], boxes[keep[a]], thr);
      }
    }
  }

  /** Over a full ranking, every candidate Greedy leaves out was suppressed by one it kept. */
  lemma GreedyDropsExplained(boxes: seq<Box>, scores: seq<real>, order: seq<nat>, thr: real)
    requires |boxes| == |scores| && IsRanking(order, scores)
    ensures DropsExplained(boxes, scores, Greedy(boxes, order, thr), thr)
  {
    var keep := Greedy(boxes, order, thr);
    forall j | 0 <= j < |scores| && j !in keep
      ensures exists k :: k in keep && scores[k] >= scores[j] && !Retained(boxes[k], boxes[j], thr)
    {
      assert j in order;
      GreedySuppressed(boxes, scores, order, thr, j);
    }
  }

  /** With two distinct scores there is one ranking: best first. */
  lemma TwoScoreRanking(order: seq<nat>, scores: seq<real>)
    requires |scores| == 2 && scores[0] > scores[1]
    requires IsRanking(order, scores)
    ensures order == [0, 1]
  {
    assert 0 in order && 1 in order;
    assert order[0] != order[1];
    assert scores[order[0]] >= scores[order[1]];
  }

  /** Greedy on a two-candidate ranking keeps the second exactly when it passes the test against the first. */
  lemma GreedyOfPair(boxes: seq<Box>, thr: real)
    requires |boxes| == 2
    ensures Greedy(boxes, [0, 1], thr) == if Retained(boxes[0], boxes[1], thr) then [0, 1] else [0]
  {
    var one: seq<nat> := [1];
    assert [0, 1][1..] == one;
    assert Greedy(boxes, one, thr) == [1] by {
      assert Survivors(boxes, 1, one[1..], thr) == [];
    }
    if Retained(boxes[0], boxes[1], thr) {
      assert Survivors(boxes, 0, one, thr) == one;
    } else {
      assert Survivors(boxes, 0, one, thr) == [];
    }
  }

  /**
   * Two candidates scored 0.9 and 0.5, under any ranking: when they overlap
   * with IoU about 0.9 only the first survives; when they do not overlap at
   * all both survive, best first.
   */
  lemma {:induction false} TwoBoxExamples(order: seq<nat>)
    requires IsRanking(order, [0.9, 0.5])
    ensures Greedy([Box(0.0, 0.0, 10.0, 10.0), Box(0.0, 0.0, 10.0, 9.0)], order, 0.45) == [0]
    ensures Greedy([Box(0.0, 0.0, 10.0, 10.0), Box(20.0, 20.0, 30.0, 30.0)], order, 0.45) == [0, 1]
  {
    TwoScoreRanking(order, [0.9, 0.5]);
    OverlappingExample();
    DisjointExample();
    GreedyOfPair([Box(0.0, 0.0, 10.0, 10.0), Box(0.0, 0.0, 10.0, 9.0)], 0.45);
    GreedyOfPair([Box(0.0, 0.0, 10.0, 10.0), Box(20.0, 20.0, 30.0, 30.0)], 0.45);
  }
}
