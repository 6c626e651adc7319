/** Axis-aligned boxes in corner form and the overlap measure used by suppression. */
module Boxes {
  import opened Reals

  /** Guard added to the union so that two zero-area boxes never divide by zero. */
  const Eps: real := 0.000001

  /** A box in corner form: (x1, y1) is the top-left and (x2, y2) the bottom-right corner. */
  datatype Box = Box(x1: real, y1: real, x2: real, y2: real)

  /** Corners in the right order: non-negative width and height. */
  predicate WellFormed(b: Box) { b.x1 <= b.x2 && b.y1 <= b.y2 }

  function Area(b: Box): real { (b.x2 - b.x1) * (b.y2 - b.y1) }

  /** Width and height of the overlap of two boxes, clamped at zero. */
  function OverlapWidth(a: Box, b: Box): real { Max(0.0, Min(a.x2, b.x2) - Max(a.x1, b.x1)) }

  function OverlapHeight(a: Box, b: Box): real { Max(0.0, Min(a.y2, b.y2) - Max(a.y1, b.y1)) }

  function Intersection(a: Box, b: Box): (r: real)
    ensures r >= 0.0
  {
    MulNonNegative(OverlapWidth(a, b), OverlapHeight(a, b));
    OverlapWidth(a, b) * OverlapHeight(a, b)
  }

  /** Union area plus the guard: the divisor of the IoU. */
  function Denominator(a: Box, b: Box): real
  {
    Area(a) + Area(b) - Intersection(a, b) + Eps
  }

  /** Intersection over union, defined wherever the guarded union is not zero. */
  function IoU(a: Box, b: Box): (r: real)
    requires Denominator(a, b) != 0.0
    ensures r * Denominator(a, b) == Intersection(a, b)
  {
    Intersection(a, b) / Denominator(a, b)
  }

  /**
   * The suppression test `iou < iou_thr`, evaluated elementwise on floats: a
   * zero divisor yields inf or nan, and a comparison with either is false,
   * so such a candidate is never retained.
   */
  predicate Retained(head: Box, other: Box, thr: real)
    ensures Denominator(head, other) == 0.0 ==> !Retained(head, other, thr)
    ensures Denominator(head, other) > 0.0 ==>
      (Retained(head, other, thr) <==> Intersection(head, other) < thr * Denominator(head, other))
  {
    Denominator(head, other) != 0.0 && IoU(head, other) < thr
  }

  /** The overlap measure does not depend on which box is the head. */
  lemma RetainedSymmetric(a: Box, b: Box, thr: real)
    ensures Intersection(a, b) == Intersection(b, a)
    ensures Denominator(a, b) == Denominator(b, a)
    ensures Retained(a, b, thr) <==> Retained(b, a, thr)
  {
  }

  /** The overlap is no larger than either box. */
  lemma {:induction false} IntersectionBounded(a: Box, b: Box)
    requires WellFormed(a) && WellFormed(b)
    ensures Intersection(a, b) <= Area(a)
    ensures Intersection(a, b) <= Area(b)
  {
    MulMonotone(OverlapWidth(a, b), OverlapHeight(a, b), a.x2 - a.x1, a.y2 - a.y1);
    MulMonotone(OverlapWidth(a, b), OverlapHeight(a, b), b.x2 - b.x1, b.y2 - b.y1);
  }

  /** For well-formed boxes the guard keeps the divisor positive and the IoU in [0, 1). */
  lemma {:induction false} IoUBounds(a: Box, b: Box)
    requires WellFormed(a) && WellFormed(b)
    ensures Denominator(a, b) >= Eps
    ensures 0.0 <= IoU(a, b) < 1.0
  {
    IntersectionBounded(a, b);
    MulNonNegative(a.x2 - a.x1, a.y2 - a.y1);
    MulNonNegative(b.x2 - b.x1, b.y2 - b.y1);
    var i, d := Intersection(a, b), Denominator(a, b);
    assert 0.0 <= i < d;
    assert i / d * d == i;
  }

  /** Two well-formed boxes that do not overlap never suppress each other under a positive threshold. */
  lemma {:induction false} DisjointRetained(a: Box, b: Box, thr: real)
    requires WellFormed(a) && WellFormed(b) && thr > 0.0
    requires Intersection(a, b) == 0.0
    ensures Retained(a, b, thr) && Retained(b, a, thr)
  {
    IoUBounds(a, b);
    RetainedSymmetric(a, b, thr);
  }

  /** Two boxes with IoU 90/(100 + 1e-6), about 0.9, fail the test at threshold 0.45. */
  lemma OverlappingExample()
    ensures !Retained(Box(0.0, 0.0, 10.0, 10.0), Box(0.0, 0.0, 10.0, 9.0), 0.45)
  {
    var a, b := Box(0.0, 0.0, 10.0, 10.0), Box(0.0, 0.0, 10.0, 9.0);
    assert OverlapWidth(a, b) == 10.0 && OverlapHeight(a, b) == 9.0;
    assert Intersection(a, b) == 90.0;
    assert Area(a) == 100.0 && Area(b) == 90.0;
    assert Denominator(a, b) == 100.000001;
  }

  /** A box lying entirely left of another does not overlap it. */
  lemma SeparatedHorizontally(a: Box, b: Box)
    requires a.x2 <= b.x1
    ensures Intersection(a, b) == 0.0
  {
    assert OverlapWidth(a, b) == 0.0;
  }

  /** Two boxes that do not overlap pass the test at threshold 0.45. */
  lemma DisjointExample()
    ensures Retained(Box(0.0, 0.0, 10.0, 10.0), Box(20.0, 20.0, 30.0, 30.0), 0.45)
  {
    var a, c := Box(0.0, 0.0, 10.0, 10.0), Box(20.0, 20.0, 30.0, 30.0);
    SeparatedHorizontally(a, c);
    DisjointRetained(a, c, 0.45);
  }
}
