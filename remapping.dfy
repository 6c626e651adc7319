/** Mapping kept canvas boxes back to the original image and normalising them. */
module Remapping {
  import opened Reals
  import opened Boxes
  import opened Decoding
  import opened Letterboxing
  import Config

  /** A box relative to the original image: left, top, width and height as fractions of its size. */
  datatype NormBox = NormBox(x: real, y: real, width: real, height: real)

  /** One reported detection; the confidence is a percentage. */
  datatype Detection = Detection(className: string, confidence: real, bbox: NormBox)

  /**
   * The idealised forward map of one original-image coordinate onto the
   * canvas: scale, then shift by the pad. The pasted image itself is scaled
   * by the truncated size instead (see ToPasted).
   */
  function ToCanvas(u: real, pad: int, scale: real): real
  {
    u * scale + pad as real
  }

  /** Remove the pad and undo the scale: a canvas coordinate in original-image pixels. */
  function Unletterbox(v: real, pad: int, scale: real): (u: real)
    requires scale != 0.0
    ensures ToCanvas(u, pad, scale) == v
  {
    (v - pad as real) / scale
  }

  /** Undoing the letterbox recovers the original coordinate exactly. */
  lemma UnletterboxInverts(u: real, pad: int, scale: real)
    requires scale != 0.0
    ensures Unletterbox(ToCanvas(u, pad, scale), pad, scale) == u
  {
    assert ToCanvas(u, pad, scale) - pad as real == u * scale;
  }

  /**
   * The normalised box of a canvas box: the left and top edges are clamped
   * at zero (an edge left of or above the image reads 0), the width and
   * height are not clamped at all.
   */
  function Normalize(b: Box, scale: real, padX: int, padY: int, origW: nat, origH: nat): (n: NormBox)
    requires scale != 0.0 && origW > 0 && origH > 0
    ensures n.x >= 0.0 && n.y >= 0.0
    ensures Unletterbox(b.x1, padX, scale) <= 0.0 ==> n.x == 0.0
    ensures Unletterbox(b.x1, padX, scale) >= 0.0 ==> n.x == Unletterbox(b.x1, padX, scale) / origW as real
    ensures Unletterbox(b.y1, padY, scale) <= 0.0 ==> n.y == 0.0
    ensures Unletterbox(b.y1, padY, scale) >= 0.0 ==> n.y == Unletterbox(b.y1, padY, scale) / origH as real
    ensures n.width == (b.x2 - b.x1) / (scale * origW as real)
    ensures n.height == (b.y2 - b.y1) / (scale * origH as real)
  {
    var x1 := Unletterbox(b.x1, padX, scale);
    var y1 := Unletterbox(b.y1, padY, scale);
    var x2 := Unletterbox(b.x2, padX, scale);
    var y2 := Unletterbox(b.y2, padY, scale);
    PadCancels(b.x1, b.x2, padX, scale, origW as real);
    PadCancels(b.y1, b.y2, padY, scale, origH as real);
    DivSign(x1, origW as real);
    DivSign(y1, origH as real);
    NormBox(Max(0.0, x1 / origW as real), Max(0.0, y1 / origH as real),
            (x2 - x1) / origW as real, (y2 - y1) / origH as real)
  }

  /** The pad drops out of a difference of two unletterboxed coordinates. */
  lemma PadCancels(v1: real, v2: real, pad: int, scale: real, size: real)
    requires scale != 0.0 && size > 0.0
    ensures (Unletterbox(v2, pad, scale) - Unletterbox(v1, pad, scale)) / size == (v2 - v1) / (scale * size)
  {
    var p := pad as real;
    assert (v2 - p) / scale - (v1 - p) / scale == (v2 - v1) / scale;
    assert (v2 - v1) / scale / size == (v2 - v1) / (scale * size);
  }

  /** The reported detection for a kept box and its score. */
  function ToDetection(b: Box, score: real, scale: real, padX: int, padY: int, origW: nat, origH: nat): (d: Detection)
    requires scale != 0.0 && origW > 0 && origH > 0
    ensures d.className == Config.ClassName
    ensures d.confidence / 100.0 == score
    ensures d.confidence >= Config.ConfThreshold * 100.0 <==> score >= Config.ConfThreshold
    ensures d.bbox.x >= 0.0 && d.bbox.y >= 0.0
  {
    Detection(Config.ClassName, score * 100.0, Normalize(b, scale, padX, padY, origW, origH))
  }

  /**
   * Round trip: a box inside the original image, carried onto the canvas by
   * the letterbox and normalised back, is that box as fractions of the image.
   */
  lemma {:induction false} NormalizeInvertsLetterbox(u: Box, scale: real, padX: int, padY: int, origW: nat, origH: nat)
    requires scale != 0.0 && origW > 0 && origH > 0
    requires u.x1 >= 0.0 && u.y1 >= 0.0
    ensures var canvas := Box(ToCanvas(u.x1, padX, scale), ToCanvas(u.y1, padY, scale),
                              ToCanvas(u.x2, padX, scale), ToCanvas(u.y2, padY, scale));
      Normalize(canvas, scale, padX, padY, origW, origH)
        == NormBox(u.x1 / origW as real, u.y1 / origH as real,
                   (u.x2 - u.x1) / origW as real, (u.y2 - u.y1) / origH as real)
  {
    UnletterboxInverts(u.x1, padX, scale);
    UnletterboxInverts(u.y1, padY, scale);
    UnletterboxInverts(u.x2, padX, scale);
    UnletterboxInverts(u.y2, padY, scale);
  }

  /** The worked example: one row on an unpadded 640 x 640 canvas. */
  lemma DecodeAndNormalizeExample()
    ensures var p := Prediction(320.0, 320.0, 100.0, 50.0, 0.9, 0.9);
      && Confidence(p) == 0.81
      && Corners(p) == Box(270.0, 295.0, 370.0, 345.0)
      && Normalize(Corners(p), 1.0, 0, 0, 640, 640) == NormBox(0.421875, 0.4609375, 0.15625, 0.078125)
  {
  }

  /**
   * Where the pasted image actually puts an original coordinate u on one
   * axis: that side, of length size, is resized to resized pixels (the
   * truncated size * scale) and shifted by the pad.
   */
  function ToPasted(u: real, size: nat, resized: int, pad: int): real
    requires size > 0
  {
    u * resized as real / size as real + pad as real
  }

  /**
   * Removing the pad and dividing by the untruncated scale undershoots a
   * point of the pasted image, by less than one canvas pixel.
   */
  lemma {:induction false} PastedRemapWithinOnePixel(u: real, size: nat, resized: int, pad: int, scale: real)
    requires size > 0 && scale > 0.0
    requires 0.0 <= u <= size as real
    requires resized as real <= scale * size as real < resized as real + 1.0
    ensures 0.0 <= u - Unletterbox(ToPasted(u, size, resized, pad), pad, scale)
    ensures (u - Unletterbox(ToPasted(u, size, resized, pad), pad, scale)) * scale < 1.0
  {
    var s, r := size as real, resized as real;
    var back := Unletterbox(ToPasted(u, size, resized, pad), pad, scale);
    var t, g, q := u / s, scale * s - r, u * r / s;
    assert ToPasted(u, size, resized, pad) - pad as real == q;
    assert back == q / scale;
    assert back * scale == q;
    assert t * (scale * s) == u * scale;
    assert t * r == q;
    assert (u - back) * scale == t * g;
    MulMonotone(t, g, 1.0, g);
    MulNonNegative(t, g);
  }

  /**
   * A 1000 x 333 image: the short side is resized to 213 rather than
   * 213.12 pixels, so its bottom edge, remapped, lands at 332.8125 and not 333.
   */
  lemma TruncatedSideExample()
    ensures Letterbox(1000, 333, 640) == Geometry(0.64, 640, 213, 0, 213)
    ensures Unletterbox(ToPasted(333.0, 333, 213, 213), 213, 0.64) == 332.8125
  {
    assert Min(640.0 / 1000.0, 640.0 / 333.0) == 0.64;
    assert (1000.0 * 0.64).Floor == 640;
    assert (333.0 * 0.64).Floor == 213;
  }
}
