# Spinach detector: detection post-processing, modelled in Dafny

The service takes an uploaded photo and runs it through an ONNX YOLO detector
(`yolo9` or `yolo11`). It reports the boxes it finds for its single class,
`bayam` (spinach). This project models the part of `backend/main.py` that
does arithmetic rather than plumbing:

- **letterbox geometry**: the largest scale that fits a `w x h` image into the
  640 x 640 canvas, the truncated resized size, and the centring pads;
- **decoding**: each detector row `(cx, cy, w, h, obj, cls)` gets the
  confidence `obj * cls`. Rows below `CONF_THRESHOLD = 0.25` are dropped, and
  the rest are turned into corner-form boxes, in input order;
- **greedy non-maximum suppression (NMS)**: rank the candidates by score, keep
  the best remaining one, and drop every remaining candidate whose IoU with it
  is not strictly below `IOU_THRESHOLD = 0.45`. The IoU divisor carries the
  `+1e-6` guard;
- **remapping and summary**: remove the pads, divide by the scale, normalise
  by the original size with a lower clamp at 0, and derive `count`,
  `is_bayam` and the maximum confidence.

All arithmetic is over Dafny's `real`. `int(w * scale)` of a non-negative
value is `.Floor`. `//` on non-negative integers is Dafny's `/`.

One module per component: `Reals` (min, max and small multiplication facts),
`Config` (the constants), `Letterboxing`, `Boxes` (box areas, IoU and the
suppression test), `Decoding`, `Suppression`, `Remapping` and `Pipeline`
(`postprocess` and the response fields of `predict`).

Design points:

- `iou < iou_thr` is evaluated on floats. When the guarded union is zero, the
  quotient is `inf` or `nan`, and both compare false, so that candidate is
  dropped. `Boxes.Retained` states exactly this. For well-formed boxes the
  divisor is at least `1e-6` (`Boxes.IoUBounds`), so the case only arises for
  inverted boxes.
- `scores.argsort()[::-1]` is numpy code, and numpy's default sort is not
  stable, so tied scores come out in no fixed order. `Suppression.RankByScore`
  stands in for it. Nothing else in the model relies on more than its
  contract, `IsRanking`: every index once, in non-increasing score order.
  `Suppression.Nms` returns the ranking it used as a ghost result. All lemmas
  about `Greedy` hold for an arbitrary ranking, so they cover any tie order.
- `Decoding.Decode` and `Pipeline.Postprocess` return ghost results too. They
  name the input rows that survived, the ranking, and the kept positions.
  With these, the contracts can say which input each detection came from.

Points where the code is easy to misread; the model follows the code:

- the resized size is truncated (`int(...)`), not rounded;
- a candidate is dropped when its IoU with the kept box is greater than **or
  equal to** the threshold, not only when it exceeds it;
- ties between equal scores have no fixed order;
- only column 5 (the class-0 score) is read. There is no argmax over classes
  and no class filter.

## Model

| member | source | states |
|---|---|---|
| `Letterboxing.Letterbox` | backend/main.py:27-36 | the scale fits both sides in the canvas and fills one of them exactly; the resized sides are the truncations of `w*scale`, `h*scale` and are at most `new_size`; both pads are non-negative, the pasted image ends inside the canvas, and it is centred to within one pixel |
| `Letterboxing.ScaleIsLargest` | backend/main.py:29 | no scale larger than `min(new_size/w, new_size/h)` keeps both sides inside the canvas |
| `Boxes.Intersection` | backend/main.py:67-74 | the overlap area is never negative |
| `Boxes.IoU` | backend/main.py:79 | where the guarded union is not zero, the IoU times the guarded union is the overlap area |
| `Boxes.Retained` | backend/main.py:79-80 | the suppression test `iou < iou_thr` on floats: false when the guarded union is zero (the quotient is `inf` or `nan`); when the union is positive, true exactly when the overlap is below `thr` times the guarded union |
| `Boxes.RetainedSymmetric` | backend/main.py:67-80 | intersection, guarded union and the suppression test do not depend on which box is the head |
| `Boxes.IntersectionBounded` | backend/main.py:67-77 | for well-formed boxes the overlap is no larger than either box's area |
| `Boxes.IoUBounds` | backend/main.py:67-79 | for well-formed boxes the guarded union is at least `1e-6` and the IoU lies in [0, 1) |
| `Boxes.DisjointRetained` | backend/main.py:72-80 | two well-formed boxes with no overlap never suppress each other under a positive threshold |
| `Boxes.SeparatedHorizontally` | backend/main.py:67-74 | a box lying entirely left of another has zero overlap with it |
| `Boxes.OverlappingExample` | backend/main.py:67-80 | boxes (0,0,10,10) and (0,0,10,9), whose IoU is about 0.9, fail the test at 0.45 |
| `Boxes.DisjointExample` | backend/main.py:67-80 | boxes (0,0,10,10) and (20,20,30,30) pass the test at 0.45 |
| `Decoding.ConfidenceBounds` | backend/main.py:98 | `conf = obj * cls_conf` is non-negative for non-negative factors, and for probabilities it is no larger than either factor |
| `Decoding.Corners` | backend/main.py:102-105 | the corner box has width `w` and height `h`, is centred on `(cx, cy)`, and is well-formed exactly when `w` and `h` are non-negative |
| `Decoding.Decode` | backend/main.py:91-108 | the outputs come from input rows in strictly increasing order; a row is among them exactly when `obj*cls >= CONF_THRESHOLD` (so a row at the threshold is kept); each output is that row's corner box and confidence |
| `Decoding.SurvivorRowsUnique` | backend/main.py:93-108 | the surviving rows are fully determined by the input and the threshold |
| `Decoding.SameMembersIncreasing` | backend/main.py:93-108 | two strictly increasing index lists with the same members are equal (input order fixes the decoder's output) |
| `Suppression.Survivors` | backend/main.py:66-80 | `rest[iou < iou_thr]` holds exactly the members of `rest` that pass the test against the head, and is no longer than `rest` |
| `Suppression.Greedy` | backend/main.py:60-82 | the loop's result is no longer than the ranking, and it only holds indices from the ranking |
| `Suppression.RankByScore` | backend/main.py:57 | `argsort()[::-1]` lists every index exactly once, in non-increasing score order |
| `Suppression.Nms` | backend/main.py:56-82 | ranks the candidates, then runs the loop: `keep` is what the greedy loop keeps from the ranking; its indices are distinct and valid, and there are at most as many as candidates; it is empty only for empty input; it is in non-increasing score order; its first index has the maximum score; kept boxes pairwise pass the test; every dropped index fails the test against a kept index of score at least its own |
| `Suppression.Suppress` | backend/main.py:58-82 | the `while` loop, started from any ranking, returns exactly what `Greedy` keeps from it |
| `Suppression.GreedyStep` | backend/main.py:60-80 | one turn of the loop appends the head to `keep` and continues with the candidates that pass the test against it |
| `Suppression.NmsProperties` | backend/main.py:56-82 | what the loop keeps from a full ranking is distinct, valid, no longer than the input, empty only for empty input, in non-increasing score order, led by a top score, pairwise apart, and explains every drop |
| `Suppression.SurvivorsOrdered` | backend/main.py:66-80 | filtering the remaining candidates keeps them distinct and in score order |
| `Suppression.GreedyHead` | backend/main.py:60-62 | the first kept index is the head of the ranking, and the result is empty exactly when the ranking is |
| `Suppression.GreedyOrdered` | backend/main.py:57-80 | a distinct ranking gives distinct kept indices, and a descending ranking gives descending kept indices |
| `Suppression.GreedyRetainsPairs` | backend/main.py:60-80 | each kept box passes the test against every box kept before it |
| `Suppression.GreedyKeptApart` | backend/main.py:60-80 | any two distinct kept boxes pass the test, in either order |
| `Suppression.GreedySuppressed` | backend/main.py:60-80 | over a descending ranking, each dropped index fails the test against some kept index whose score is at least its own |
| `Suppression.GreedyDropsExplained` | backend/main.py:56-82 | over a full ranking, every candidate left out was suppressed by a kept one that scores at least as high |
| `Suppression.HeadIsBest` | backend/main.py:57-62 | the first kept index has the maximum score among all candidates |
| `Suppression.GreedyKeepsNonOverlapping` | backend/main.py:60-82 | a ranking whose boxes pairwise pass the test is kept whole |
| `Suppression.NmsIdempotent` | backend/main.py:56-82 | running suppression again on its own output, in any order, keeps all of it |
| `Suppression.InsertKeepsRanking` | backend/main.py:57 | inserting the next index at its score position keeps a ranking of the indices seen so far |
| `Suppression.TwoScoreRanking` | backend/main.py:57 | with two distinct scores, the only ranking is the better one first |
| `Suppression.GreedyOfPair` | backend/main.py:60-82 | on two candidates, the second is kept exactly when it passes the test against the first |
| `Suppression.TwoBoxExamples` | backend/main.py:56-82 | for scores 0.9 and 0.5, an overlapping pair (IoU about 0.9) keeps only the first, and a disjoint pair keeps both, best first |
| `Remapping.Unletterbox` | backend/main.py:123-126 | `(v - pad) / scale` is the coordinate that the idealised map `u * scale + pad` carries to `v` |
| `Remapping.UnletterboxInverts` | backend/main.py:123-126 | removing the pad and dividing by the scale recovers a coordinate that the idealised map (scale, then shift by the pad) carried onto the canvas |
| `Remapping.Normalize` | backend/main.py:123-132 | normalised `x` is `max(0, x1 / orig_w)` with `x1` the unpadded, unscaled left edge: 0 when that edge lies at or left of the image, `x1 / orig_w` otherwise, and never negative (likewise `y`); normalised width and height are the canvas width and height divided by `scale * orig_w` and `scale * orig_h` (the pads cancel, and there is no upper clamp) |
| `Remapping.PadCancels` | backend/main.py:123-131 | the pad drops out of the difference of two remapped coordinates |
| `Remapping.NormalizeInvertsLetterbox` | backend/main.py:123-132 | a box inside the original image, carried onto the canvas by the idealised map `u * scale + pad` and normalised back, is that box as fractions of the image size (the pasted image is scaled by the truncated size instead; see the next two rows) |
| `Remapping.PastedRemapWithinOnePixel` | backend/main.py:123-126 | a point of the pasted image (scaled at lines 31-38 by the truncated size `int(size * scale) / size`) comes back from the remap at or before its original position, less than one canvas pixel (`1 / scale` original pixels) short |
| `Remapping.TruncatedSideExample` | backend/main.py:29-36 | a 1000 x 333 image gets scale 0.64, resized size 640 x 213 and pads (0, 213); the bottom edge of the pasted image, canvas row 426, remaps (lines 123-126) to 332.8125 and not 333 |
| `Remapping.ToDetection` | backend/main.py:134-143 | one detection entry: class `bayam`, confidence the score as a percentage (at least 25 exactly when the score reaches the threshold), and a normalised box whose `x` and `y` are non-negative |
| `Remapping.DecodeAndNormalizeExample` | backend/main.py:98-132 | the row (320, 320, 100, 50, 0.9, 0.9) has confidence 0.81 and corner box (270, 295, 370, 345); on an unpadded 640 x 640 image it normalises to (0.421875, 0.4609375, 0.15625, 0.078125) |
| `Pipeline.Summarize` | backend/main.py:168-173 | the response fields: the detections themselves, `count` their number, `is_bayam` whether there are any, and `confidence` 0 for none, otherwise a confidence that no detection exceeds and some detection attains |
| `Pipeline.MaxConfidence` | backend/main.py:172 | `max(..., default=0)` is 0 for no detections; otherwise it is at least every confidence and equal to one of them |
| `Pipeline.MaxOfDescending` | backend/main.py:172 | when detections come best first, the maximum confidence is the first detection's |
| `Pipeline.Postprocess` | backend/main.py:88-145 | decoding, suppression and remapping chained: each detection is the remapped kept box of a surviving row; the result is empty exactly when no row reaches the threshold; every detection is labelled `bayam`, has `x, y >= 0` and confidence at least 25, and detections come in non-increasing confidence |
| `Pipeline.Predict` | backend/main.py:160-173 | the detections are those of `postprocess` under the letterbox geometry of the original size: each is the remapped kept box of a surviving row, with the scale and pads `Letterbox(orig_w, orig_h, 640)` computes; `count` is the number of detections; `is_bayam` holds iff `count > 0`, which holds iff some row reaches the threshold; `confidence` is 0 with no detections and otherwise the first (largest) detection confidence |

## Left out

- The Flask app, routing, CORS, request parsing and JSON marshalling (`backend/main.py:1-9`, `151-157`, `177-178`). This is HTTP plumbing; the echoed `model` field of the response is left out with it.
- The `MODELS` registry and `session.run` (`backend/main.py:19-22`, `165`). Inference is an opaque foreign call. Its output is the parameter `preds` of `Pipeline.Predict`. `np.squeeze(outputs[0], axis=0)` is taken as already applied.
- Zero-width or zero-height images: `Letterboxing.Letterbox` and `Pipeline.Predict` require both sides positive, because `new_size / w` at `backend/main.py:29` raises `ZeroDivisionError` for them and the request fails.
- PIL pixel work: `image.resize`, `Image.new` and `paste` (`backend/main.py:32-38`). Only the geometry they use is modelled.
- The remap divides by `scale`, but the pasted image is scaled by `nw / w` and `nh / h`, the truncated sizes (`backend/main.py:31-32`, `123-126`). On the truncated side, remapped coordinates therefore fall short of the true ones by less than one canvas pixel. `Remapping.PastedRemapWithinOnePixel` bounds this gap and `Remapping.TruncatedSideExample` shows it. The exact round trip `Remapping.NormalizeInvertsLetterbox` holds only for the idealised map `u * scale + pad`. The detector's own localisation error is not modelled.
- `preprocess` (`backend/main.py:46-50`): a numpy divide, transpose and expand_dims with no decision in it.
- Floating point: values are reals, so there is no rounding error, `nan` input or overflow. For example, `scale * w` equals `new_size` exactly on the filled side. The zero-divisor case of the IoU is modelled by its float outcome (see `Boxes.Retained`).
- `round(..., 2)` of the confidence (`backend/main.py:136`): a detection's confidence is `score * 100` unrounded.
- Rows with fewer than six columns (an `IndexError` in the source) cannot be expressed: a `Prediction` always has its six fields. Columns after the sixth are never read by the source.
- `Suppression.RankByScore`: its own tie order is fixed, unlike numpy's. Nothing in the model depends on that order (see above).
- Pixel-coordinate output and an upper clamp of the normalised box do not exist in this version of the code, so they are not modelled.
- The frontend (`frontend/src/App.js`, `frontend/src/api.js`) and the export script (`backend/convert_to_onnx.py`) are not part of this model.
