/** The whole post-processing of one request: decode, suppress, remap, summarise. */
module Pipeline {
  import opened Reals
  import opened Boxes
  import opened Decoding
  import opened Suppression
  import opened Remapping
  import opened Letterboxing
  import opened Config

  /** The response fields of one request, less the model name it echoes back. */
  datatype Response = Response(count: nat, isBayam: bool, confidence: real, detections: seq<Detection>)

  /** `max` over the detection confidences, with 0 for no detections. */
  function MaxConfidence(dets: seq<Detection>): (m: real)
    ensures dets == [] ==> m == 0.0
    ensures forall d :: d in dets ==> d.confidence <= m
    ensures dets != [] ==> exists d :: d in dets && d.confidence == m
  {
    if dets == [] then 0.0
    else if |dets| == 1 then dets[0].confidence
    else Max(dets[0].confidence, MaxConfidence(dets[1..]))
  }

  /** The response fields `predict` derives from the detections. */
  function Summarize(dets: seq<Detection>): (r: Response)
    ensures r.detections == dets && r.count == |dets| && (r.isBayam <==> dets != [])
    ensures dets == [] ==> r.confidence == 0.0
    ensures forall d :: d in dets ==> d.confidence <= r.confidence
    ensures dets != [] ==> exists d :: d in dets && d.confidence == r.confidence
  {
    Response(|dets|, |dets| > 0, MaxConfidence(dets), dets)
  }

  /** When detections come best first, the reported confidence is that of the first one. */
  lemma {:induction false} MaxOfDescending(dets: seq<Detection>)
    requires dets != []
    requires forall a, b :: 0 <= a < b < |dets| ==> dets[a].confidence >= dets[b].confidence
    ensures MaxConfidence(dets) == dets[0].confidence
  {
    var m := MaxConfidence(dets);
    var d :| d in dets && d.confidence == m;
    var a :| 0 <= a < |dets| && dets[a] == d;
    assert dets[0] in dets;
    if a > 0 {
      assert dets[0].confidence >= dets[a].confidence;
    }
  }

  /**
   * The post-processing of one inference output: decode and threshold the
   * rows, suppress overlaps, and map each kept box back to the original
   * image. The ghost results name the survivor rows, the ranking the
   * suppression started from and the kept positions among the survivors.
   */
  method Postprocess(preds: seq<Prediction>, scale: real, padX: int, padY: int, origW: nat, origH: nat)
    returns (dets: seq<Detection>, ghost rows: seq<nat>, ghost order: seq<nat>, ghost keep: seq<nat>)
    requires scale != 0.0 && origW > 0 && origH > 0
    ensures IsSurvivorRows(preds, ConfThreshold, rows)
    ensures var boxes, scores := BoxesAt(preds, rows), ScoresAt(preds, rows);
      && IsRanking(order, scores) && keep == Greedy(boxes, order, IouThreshold)
      && |dets| == |keep|
      && forall m :: 0 <= m < |dets| ==>
           dets[m] == ToDetection(boxes[keep[m]], scores[keep[m]], scale, padX, padY, origW, origH)
    ensures (dets == []) == (rows == [])
    ensures forall m :: 0 <= m < |dets| ==>
      && dets[m].className == ClassName
      && dets[m].confidence >= ConfThreshold * 100.0
      && dets[m].bbox.x >= 0.0 && dets[m].bbox.y >= 0.0
    ensures forall a, b :: 0 <= a < b < |dets| ==> dets[a].confidence >= dets[b].confidence
  {
    var boxes, scores;
    boxes, scores, rows := Decode(preds, ConfThreshold);
    if boxes == [] {
      order, keep := [], [];
      return [], rows, order, keep;
    }
    var kept;
    kept, order := Nms(boxes, scores, IouThreshold);
    keep := kept;
    dets := [];
    for m := 0 to |kept|
      invariant |dets| == m
      invariant forall q :: 0 <= q < m ==>
        dets[q] == ToDetection(boxes[kept[q]], scores[kept[q]], scale, padX, padY, origW, origH)
    {
      var i := kept[m];
      dets := dets + [ToDetection(boxes[i], scores[i], scale, padX, padY, origW, origH)];
    }
    forall a, b | 0 <= a < b < |dets| ensures dets[a].confidence >= dets[b].confidence {
      assert scores[kept[a]] >= scores[kept[b]];
    }
  }

  /**
   * One request after inference: letterbox geometry for the original size,
   * post-processing of the detector rows, and the summary fields.
   */
  method Predict(origW: nat, origH: nat, preds: seq<Prediction>)
    returns (r: Response, ghost rows: seq<nat>, ghost order: seq<nat>, ghost keep: seq<nat>)
    requires origW > 0 && origH > 0
    ensures IsSurvivorRows(preds, ConfThreshold, rows)
    ensures var g := Letterbox(origW, origH, ImgSize);
      var boxes, scores := BoxesAt(preds, rows), ScoresAt(preds, rows);
      && IsRanking(order, scores) && keep == Greedy(boxes, order, IouThreshold)
      && |r.detections| == |keep|
      && forall m :: 0 <= m < |r.detections| ==>
           r.detections[m] == ToDetection(boxes[keep[m]], scores[keep[m]], g.scale, g.padX, g.padY, origW, origH)
    ensures r.count == |r.detections| && (r.isBayam <==> r.count > 0)
    ensures r.detections == [] ==> r.confidence == 0.0
    ensures r.detections != [] ==> r.confidence == r.detections[0].confidence
    ensures forall d :: d in r.detections ==>
      && d.className == ClassName
      && ConfThreshold * 100.0 <= d.confidence <= r.confidence
      && d.bbox.x >= 0.0 && d.bbox.y >= 0.0
    ensures r.isBayam <==> exists i :: 0 <= i < |preds| && Confidence(preds[i]) >= ConfThreshold
  {
    var g := Letterbox(origW, origH, ImgSize);
    var dets;
    dets, rows, order, keep := Postprocess(preds, g.scale, g.padX, g.padY, origW, origH);
    r := Summarize(dets);
    if dets != [] {
      MaxOfDescending(dets);
    }
    if rows != [] {
      assert rows[0] < |preds| && rows[0] in rows;
    }
  }
}
