/** The arithmetic of the aspect-preserving resize onto a square canvas. */
module Letterboxing {
  import opened Reals

  /**
   * What the letterbox records: the scale factor, the size of the resized
   * image and the offsets at which it is pasted onto the canvas.
   */
  datatype Geometry = Geometry(scale: real, nw: int, nh: int, padX: int, padY: int)

  /**
   * Geometry of fitting a w x h image into a newSize x newSize canvas: the
   * largest scale at which both sides fit, the truncated resized size, and
   * pads that centre the resized image (the odd pixel goes right or below).
   */
  function Letterbox(w: nat, h: nat, newSize: nat): (g: Geometry)
    requires w > 0 && h > 0
    ensures g.scale >= 0.0 && (newSize > 0 ==> g.scale > 0.0)
    ensures g.scale * w as real <= newSize as real && g.scale * h as real <= newSize as real
    ensures g.scale * w as real == newSize as real || g.scale * h as real == newSize as real
    ensures g.nw as real <= g.scale * w as real < g.nw as real + 1.0
    ensures g.nh as real <= g.scale * h as real < g.nh as real + 1.0
    ensures 0 <= g.nw <= newSize && 0 <= g.nh <= newSize
    ensures 0 <= g.padX && g.padX + g.nw <= newSize
    ensures 0 <= g.padY && g.padY + g.nh <= newSize
    ensures g.padX <= newSize - g.nw - g.padX <= g.padX + 1
    ensures g.padY <= newSize - g.nh - g.padY <= g.padY + 1
  {
    var n, wr, hr := newSize as real, w as real, h as real;
    var scale := Min(n / wr, n / hr);
    ScaleFits(n, wr, hr, scale);
    var nw := (wr * scale).Floor;
    var nh := (hr * scale).Floor;
    Geometry(scale, nw, nh, (newSize - nw) / 2, (newSize - nh) / 2)
  }

  /** The chosen scale fills one side exactly and does not overflow the other. */
  lemma ScaleFits(n: real, wr: real, hr: real, scale: real)
    requires n >= 0.0 && wr > 0.0 && hr > 0.0
    requires scale == Min(n / wr, n / hr)
    ensures scale >= 0.0 && (n > 0.0 ==> scale > 0.0)
    ensures scale * wr <= n && scale * hr <= n
    ensures scale * wr == n || scale * hr == n
  {
    assert n / wr * wr == n;
    assert n / hr * hr == n;
    if n / wr <= n / hr {
      assert scale * hr <= n / hr * hr;
    } else {
      assert scale * wr <= n / wr * wr;
    }
  }

  /** No scale larger than the chosen one keeps both sides inside the canvas. */
  lemma {:induction false} ScaleIsLargest(w: nat, h: nat, newSize: nat, s: real)
    requires w > 0 && h > 0
    requires s * w as real <= newSize as real && s * h as real <= newSize as real
    ensures s <= Letterbox(w, h, newSize).scale
  {
    var n, wr, hr := newSize as real, w as real, h as real;
    assert n / wr * wr == n;
    assert n / hr * hr == n;
    CancelPositive(s, n / wr, wr);
    CancelPositive(s, n / hr, hr);
  }
}
