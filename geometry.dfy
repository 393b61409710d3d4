/** Pixel boxes and the overlap measure that non-maximum suppression uses.
    Every extent follows the inclusive-pixel convention of the detector:
    a box from start to end covers end - start + 1 pixels per axis. */
module Geometry {

  /** One detection box as the predictor reports it: columns 0..3 are
      start_x, start_y, end_x, end_y. */
  datatype Box = Box(startX: int, startY: int, endX: int, endY: int)

  /** The predictor only reports boxes whose start does not exceed their end. */
  predicate WellFormed(b: Box) {
    b.startX <= b.endX && b.startY <= b.endY
  }

  function Max(a: int, b: int): int { if a < b then b else a }

  function Min(a: int, b: int): int { if a < b then a else b }

  lemma MulMonotone(a: int, b: int, c: int, d: int)
    ensures 0 <= a <= c && 0 <= b <= d ==> a * b <= c * d
  {
    if 0 <= a <= c && 0 <= b <= d {
      assert a * b <= c * b;
      assert c * b <= c * d;
    }
  }

  /** Inclusive pixel area (end_x - start_x + 1) * (end_y - start_y + 1). */
  function Area(b: Box): (r: int)
    ensures WellFormed(b) ==> r >= 1
  {
    MulMonotone(1, 1, b.endX - b.startX + 1, b.endY - b.startY + 1);
    (b.endX - b.startX + 1) * (b.endY - b.startY + 1)
  }

  /** Number of pixels two inclusive ranges share along one axis, clamped at zero. */
  function Overlap(s1: int, e1: int, s2: int, e2: int): (w: nat)
    ensures w > 0 <==> s1 <= e2 && s2 <= e1 && s1 <= e1 && s2 <= e2
    ensures s1 <= e1 ==> w <= e1 - s1 + 1
    ensures s2 <= e2 ==> w <= e2 - s2 + 1
  {
    var d := Min(e1, e2) - Max(s1, s2) + 1;
    if d < 0 then 0 else d
  }

  /** Inclusive pixel area of the intersection of two boxes. */
  function Intersection(a: Box, b: Box): (r: nat)
    ensures r > 0 <==> Overlap(a.startX, a.endX, b.startX, b.endX) > 0 && Overlap(a.startY, a.endY, b.startY, b.endY) > 0
    ensures WellFormed(a) ==> r <= Area(a)
    ensures WellFormed(b) ==> r <= Area(b)
  {
    var w := Overlap(a.startX, a.endX, b.startX, b.endX);
    var h := Overlap(a.startY, a.endY, b.startY, b.endY);
    MulMonotone(w, h, a.endX - a.startX + 1, a.endY - a.startY + 1);
    MulMonotone(w, h, b.endX - b.startX + 1, b.endY - b.startY + 1);
    MulMonotone(1, 1, w, h);
    w * h
  }

  /** Area of the union: both areas minus the shared part. */
  function Union(a: Box, b: Box): (r: int)
    ensures WellFormed(a) && WellFormed(b) ==> r >= Area(a) && r >= Area(b) && r >= 1
  {
    Area(a) + Area(b) - Intersection(a, b)
  }

  /** A part over a positive whole is a ratio in [0, 1]. */
  lemma RatioInUnit(i: real, u: real)
    requires 0.0 <= i <= u && u > 0.0
    ensures 0.0 <= i / u <= 1.0
  {
    var r := i / u;
    assert r * u == i;
    assert (1.0 - r) * u == u - i;
  }

  /** The intersection-over-union ratio of two well-formed boxes. */
  function IoU(a: Box, b: Box): (r: real)
    requires WellFormed(a) && WellFormed(b)
    ensures 0.0 <= r <= 1.0
  {
    var i, u := Intersection(a, b) as real, Union(a, b) as real;
    RatioInUnit(i, u);
    i / u
  }

  /** Comparing a part i of a positive whole u with t * u, for a threshold
      t at most 0, above 0, and above 1. */
  lemma ScaledWhole(t: real, i: real, u: real)
    ensures u > 0.0 && i >= 0.0 && t <= 0.0 ==> i >= t * u
    ensures u > 0.0 && t > 0.0 && i >= t * u ==> i > 0.0
    ensures u > 0.0 && i <= u && t > 1.0 ==> i < t * u
  {
    if u > 0.0 && t > 1.0 {
      assert t * u - u == (t - 1.0) * u;
    }
  }

  /** The suppression test of the NMS loop, free of division: a pending box
      `other` is dropped once its overlap ratio with the picked box `kept`
      reaches the threshold t, i.e. intersection >= t * union. For
      well-formed boxes a threshold of at most 0 drops every box, one above 1
      drops none, and a positive threshold only drops a box that shares a
      pixel with the picked one. */
  predicate Suppresses(kept: Box, other: Box, t: real): (r: bool)
    ensures WellFormed(kept) && WellFormed(other) && t <= 0.0 ==> r
    ensures WellFormed(kept) && WellFormed(other) && t > 1.0 ==> !r
    ensures WellFormed(kept) && WellFormed(other) && t > 0.0 && r ==> Intersection(kept, other) > 0
  {
    ScaledWhole(t, Intersection(kept, other) as real, Union(kept, other) as real);
    Intersection(kept, other) as real >= t * Union(kept, other) as real
  }

  /** Comparing a part with t times a positive whole is comparing their
      ratio with t. */
  lemma RatioAtLeast(i: real, u: real, t: real)
    requires u > 0.0
    ensures i >= t * u <==> i / u >= t
  {
    var r := i / u;
    assert r * u == i;
    assert (r - t) * u == i - t * u;
  }

  /** The division-free test agrees with the source's ratio test: a box is
      dropped exactly when intersection / union >= t, i.e. it is kept
      exactly when the ratio is strictly below t. */
  lemma SuppressesIffIoU(a: Box, b: Box, t: real)
    requires WellFormed(a) && WellFormed(b)
    ensures Suppresses(a, b, t) <==> IoU(a, b) >= t
  {
    RatioAtLeast(Intersection(a, b) as real, Union(a, b) as real, t);
  }

  /** Overlap is a symmetric relation: it does not matter which box was picked. */
  lemma SuppressesSymmetric(a: Box, b: Box, t: real)
    ensures Suppresses(a, b, t) <==> Suppresses(b, a, t)
  {
    assert Intersection(a, b) == Intersection(b, a);
  }
}
