/** Turning raw detector rows into scored candidate boxes. */
module Decoding {
  import opened Reals
  import opened Boxes

  /**
   * One row of detector output in canvas pixels: the box centre and size,
   * the objectness and the score of class 0. Further class columns are
   * never read.
   */
  datatype Prediction = Prediction(cx: real, cy: real, w: real, h: real, obj: real, cls: real)

  /** The combined confidence of a row. */
  function Confidence(p: Prediction): real { p.obj * p.cls }

  /** For probabilities, the combined confidence is a probability no larger than either factor. */
  lemma ConfidenceBounds(p: Prediction)
    ensures 0.0 <= p.obj && 0.0 <= p.cls ==> 0.0 <= Confidence(p)
    ensures 0.0 <= p.obj && p.cls <= 1.0 ==> Confidence(p) <= p.obj
    ensures p.obj <= 1.0 && 0.0 <= p.cls ==> Confidence(p) <= p.cls
  {
    FractionProduct(p.obj, p.cls, Confidence(p));
  }

  /** The corner form of a row's centre-form box. */
  function Corners(p: Prediction): (b: Box)
    ensures b.x2 - b.x1 == p.w && b.y2 - b.y1 == p.h
    ensures (b.x1 + b.x2) / 2.0 == p.cx && (b.y1 + b.y2) / 2.0 == p.cy
    ensures WellFormed(b) <==> p.w >= 0.0 && p.h >= 0.0
  {
    Box(p.cx - p.w / 2.0, p.cy - p.h / 2.0, p.cx + p.w / 2.0, p.cy + p.h / 2.0)
  }

  predicate StrictlyIncreasing(rows: seq<nat>)
  {
    forall a, b :: 0 <= a < b < |rows| ==> rows[a] < rows[b]
  }

  /**
   * rows lists, in input order, exactly the rows of preds whose confidence
   * reaches thr.
   */
  predicate IsSurvivorRows(preds: seq<Prediction>, thr: real, rows: seq<nat>)
  {
    && (forall a :: 0 <= a < |rows| ==> rows[a] < |preds|)
    && StrictlyIncreasing(rows)
    && (forall i :: 0 <= i < |preds| ==> (i in rows <==> Confidence(preds[i]) >= thr))
  }

  function BoxesAt(preds: seq<Prediction>, rows: seq<nat>): seq<Box>
    requires forall a :: 0 <= a < |rows| ==> rows[a] < |preds|
  {
    seq(|rows|, k requires 0 <= k < |rows| => Corners(preds[rows[k]]))
  }

  function ScoresAt(preds: seq<Prediction>, rows: seq<nat>): seq<real>
    requires forall a :: 0 <= a < |rows| ==> rows[a] < |preds|
  {
    seq(|rows|, k requires 0 <= k < |rows| => Confidence(preds[rows[k]]))
  }

  /**
   * The decoding loop: every row whose confidence is not below confThr
   * becomes a corner-form box and a score, in input order. The ghost rows
   * records which input row each output came from.
   */
  method Decode(preds: seq<Prediction>, confThr: real) returns (boxes: seq<Box>, scores: seq<real>, ghost rows: seq<nat>)
    ensures IsSurvivorRows(preds, confThr, rows)
    ensures boxes == BoxesAt(preds, rows) && scores == ScoresAt(preds, rows)
    // A corollary of the two clauses above, kept for callers that need only the bound.
    ensures forall k :: 0 <= k < |scores| ==> scores[k] >= confThr
  {
    boxes, scores, rows := [], [], [];
    for i := 0 to |preds|
      invariant |boxes| == |rows| && |scores| == |rows|
      invariant forall a :: 0 <= a < |rows| ==> rows[a] < i
      invariant StrictlyIncreasing(rows)
      invariant forall j :: 0 <= j < i ==> (j in rows <==> Confidence(preds[j]) >= confThr)
      invariant forall k :: 0 <= k < |rows| ==> boxes[k] == Corners(preds[rows[k]])
      invariant forall k :: 0 <= k < |rows| ==> scores[k] == Confidence(preds[rows[k]])
    {
      var p := preds[i];
      var conf := p.obj * p.cls;
      if conf < confThr {
        continue;
      }
      var x1 := p.cx - p.w / 2.0;
      var y1 := p.cy - p.h / 2.0;
      var x2 := p.cx + p.w / 2.0;
      var y2 := p.cy + p.h / 2.0;
      boxes := boxes + [Box(x1, y1, x2, y2)];
      scores := scores + [conf];
      rows := rows + [i];
    }
  }

  /** The survivor rows are determined by the input and the threshold alone. */
  lemma {:induction false} SurvivorRowsUnique(preds: seq<Prediction>, thr: real, r1: seq<nat>, r2: seq<nat>)
    requires IsSurvivorRows(preds, thr, r1) && IsSurvivorRows(preds, thr, r2)
    ensures r1 == r2
  {
    forall x ensures x in r1 <==> x in r2 {
      if x in r1 {
        var a :| 0 <= a < |r1| && r1[a] == x;
      }
      if x in r2 {
        var a :| 0 <= a < |r2| && r2[a] == x;
      }
    }
    SameMembersIncreasing(r1, r2);
  }

  /** Two strictly increasing sequences with the same members are equal. */
  lemma {:induction false} SameMembersIncreasing(r1: seq<nat>, r2: seq<nat>)
    requires StrictlyIncreasing(r1) && StrictlyIncreasing(r2)
    requires forall x :: x in r1 <==> x in r2
    ensures r1 == r2
    decreases |r1|
  {
    assert r1 != [] ==> r1[0] in r2;
    assert r2 != [] ==> r2[0] in r1;
    if r1 != [] {
      assert r1[0] == r2[0];
      var t1, t2 := r1[1..], r2[1..];
      forall x ensures x in t1 <==> x in t2 {
        if x in t1 {
          var a :| 0 <= a < |t1| && t1[a] == x;
          assert r1[a + 1] == x;
          assert x in r2 && x != r2[0];
          var b :| 0 <= b < |r2| && r2[b] == x;
          assert t2[b - 1] == x;
        }
        if x in t2 {
          var a :| 0 <= a < |t2| && t2[a] == x;
          assert r2[a + 1] == x;
          assert x in r1 && x != r1[0];
          var b :| 0 <= b < |r1| && r1[b] == x;
          assert t1[b - 1] == x;
        }
      }
      SameMembersIncreasing(t1, t2);
    }
  }
}
