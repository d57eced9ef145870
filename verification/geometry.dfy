/**
 Plot geometry of the bubble chart: p5's linear re-mapping, the two axis
 mappings built on it, and the circle hit-test used for hover and click.
 Coordinates are exact reals, in canvas pixels with y growing downwards.
 */
module Geometry {

  /** A pointer position or a bubble centre, in canvas pixels. */
  datatype Point = Point(x: real, y: real)

  /* Plot margins and axis domains of the chart. */
  const LeftMargin: real := 80.0
  const RightMargin: real := 80.0
  const TopMargin: real := 60.0
  const BottomMargin: real := 80.0
  const VolumeMax: real := 160.0
  const ValueMax: real := 200.0

  /** p5's map(v, a, b, c, d) without bounds: re-maps v from the range [a, b]
      onto [c, d] by linear interpolation, and linear extrapolation outside.
      The ends of the source range go to the ends of the target range. */
  function Remap(v: real, a: real, b: real, c: real, d: real): (r: real)
    requires a != b
    ensures v == a ==> r == c
    ensures v == b ==> r == d
  {
    RatioOfSelf(b - a);
    (v - a) / (b - a) * (d - c) + c
  }

  lemma RatioOfSelf(x: real)
    requires x != 0.0
    ensures x / x == 1.0
  {
  }

  /** A fraction t of a non-negative length k lies between 0 and k. */
  lemma FractionOfLength(t: real, k: real)
    requires 0.0 <= t <= 1.0 && 0.0 <= k
    ensures 0.0 <= t * k <= k
  {
    var tk, rest := t * k, (1.0 - t) * k;
    assert 0.0 <= tk && 0.0 <= rest;
    assert tk + rest == k;
  }

  /** Multiplying by a positive number keeps the sign. */
  lemma ProductSign(x: real, y: real)
    requires 0.0 < x
    ensures 0.0 < y ==> 0.0 < x * y
    ensures y < 0.0 ==> x * y < 0.0
  {
  }

  /** Remap is affine on the whole real line: it commutes with every affine
      combination, including those outside [a, b], so nothing is clamped. */
  lemma RemapAffine(v1: real, v2: real, t: real, a: real, b: real, c: real, d: real)
    requires a != b
    ensures Remap(t * v1 + (1.0 - t) * v2, a, b, c, d)
         == t * Remap(v1, a, b, c, d) + (1.0 - t) * Remap(v2, a, b, c, d)
  {
    var k := (d - c) / (b - a);
    assert Remap(v1, a, b, c, d) == (v1 - a) * k + c;
    assert Remap(v2, a, b, c, d) == (v2 - a) * k + c;
    assert Remap(t * v1 + (1.0 - t) * v2, a, b, c, d) == (t * v1 + (1.0 - t) * v2 - a) * k + c;
    assert t * v1 + (1.0 - t) * v2 - a == t * (v1 - a) + (1.0 - t) * (v2 - a);
  }

  /** With an increasing source range, Remap is strictly increasing onto an
      increasing target range and strictly decreasing onto a decreasing one. */
  lemma RemapStrict(v1: real, v2: real, a: real, b: real, c: real, d: real)
    requires a < b && v1 < v2
    ensures c < d ==> Remap(v1, a, b, c, d) < Remap(v2, a, b, c, d)
    ensures d < c ==> Remap(v1, a, b, c, d) > Remap(v2, a, b, c, d)
  {
    RemapDifference(v1, v2, a, b, c, d);
    RatioSign(d - c, b - a);
    ProductSign(v2 - v1, (d - c) / (b - a));
  }

  /** Two remapped points differ by their distance times the slope. */
  lemma RemapDifference(v1: real, v2: real, a: real, b: real, c: real, d: real)
    requires a != b
    ensures Remap(v2, a, b, c, d) - Remap(v1, a, b, c, d) == (v2 - v1) * ((d - c) / (b - a))
  {
    var k := (d - c) / (b - a);
    assert Remap(v1, a, b, c, d) == (v1 - a) * k + c;
    assert Remap(v2, a, b, c, d) == (v2 - a) * k + c;
  }

  /** Dividing by a positive number keeps the sign. */
  lemma RatioSign(n: real, w: real)
    requires 0.0 < w
    ensures 0.0 < n ==> 0.0 < n / w
    ensures n < 0.0 ==> n / w < 0.0
  {
    assert n / w * w == n;
  }

  /** The x pixel of a volume-growth value: [0, 160] onto [80, width - 80]. */
  function VolumeToX(volume: real, width: real): (x: real)
    ensures volume == 0.0 ==> x == LeftMargin
    ensures volume == VolumeMax ==> x == width - RightMargin
  {
    Remap(volume, 0.0, VolumeMax, LeftMargin, width - RightMargin)
  }

  /** The y pixel of a value-growth value: [0, 200] onto [height - 80, 60],
      inverted so that a larger value is drawn higher on the canvas. */
  function ValueToY(value: real, height: real): (y: real)
    ensures value == 0.0 ==> y == height - BottomMargin
    ensures value == ValueMax ==> y == TopMargin
  {
    Remap(value, 0.0, ValueMax, height - BottomMargin, TopMargin)
  }

  /** When the plot area has positive width, x strictly increases with volume. */
  lemma VolumeToXIncreasing(v1: real, v2: real, width: real)
    requires width > LeftMargin + RightMargin && v1 < v2
    ensures VolumeToX(v1, width) < VolumeToX(v2, width)
  {
    RemapStrict(v1, v2, 0.0, VolumeMax, LeftMargin, width - RightMargin);
  }

  /** When the plot area has positive height, y strictly decreases with value. */
  lemma ValueToYDecreasing(v1: real, v2: real, height: real)
    requires height > TopMargin + BottomMargin && v1 < v2
    ensures ValueToY(v1, height) > ValueToY(v2, height)
  {
    RemapStrict(v1, v2, 0.0, ValueMax, height - BottomMargin, TopMargin);
  }

  /** An in-range volume is plotted between the left and right margins. */
  lemma VolumeToXInPlot(volume: real, width: real)
    ensures 0.0 <= volume <= VolumeMax && LeftMargin + RightMargin <= width ==>
              LeftMargin <= VolumeToX(volume, width) <= width - RightMargin
  {
    if 0.0 <= volume <= VolumeMax && LeftMargin + RightMargin <= width {
      var t, k := volume / VolumeMax, width - LeftMargin - RightMargin;
      assert VolumeToX(volume, width) == t * k + LeftMargin;
      FractionOfLength(t, k);
    }
  }

  /** An in-range value is plotted between the top and bottom margins. */
  lemma ValueToYInPlot(value: real, height: real)
    ensures 0.0 <= value <= ValueMax && TopMargin + BottomMargin <= height ==>
              TopMargin <= ValueToY(value, height) <= height - BottomMargin
  {
    if 0.0 <= value <= ValueMax && TopMargin + BottomMargin <= height {
      var t, k := value / ValueMax, height - BottomMargin - TopMargin;
      assert ValueToY(value, height) == height - BottomMargin - t * k;
      FractionOfLength(t, k);
    }
  }

  /** The volume axis is affine on all reals: the x of an affine
      combination of volumes, in range or not, is the same combination of
      their x's. Nothing is clamped to the plot area. */
  lemma VolumeToXAffine(v1: real, v2: real, t: real, width: real)
    ensures VolumeToX(t * v1 + (1.0 - t) * v2, width)
         == t * VolumeToX(v1, width) + (1.0 - t) * VolumeToX(v2, width)
  {
    RemapAffine(v1, v2, t, 0.0, VolumeMax, LeftMargin, width - RightMargin);
  }

  /** The value axis is affine on all reals, as the volume axis is. */
  lemma ValueToYAffine(v1: real, v2: real, t: real, height: real)
    ensures ValueToY(t * v1 + (1.0 - t) * v2, height)
         == t * ValueToY(v1, height) + (1.0 - t) * ValueToY(v2, height)
  {
    RemapAffine(v1, v2, t, 0.0, ValueMax, height - BottomMargin, TopMargin);
  }

  function SquaredDistance(p: Point, q: Point): real
  {
    (p.x - q.x) * (p.x - q.x) + (p.y - q.y) * (p.y - q.y)
  }

  /** p5's dist(p, centre) < size / 2, decided on squared distances so that no
      square root is taken. A circle of non-positive size contains nothing,
      exactly as a distance can never be below a non-positive radius. */
  predicate InCircle(p: Point, centre: Point, size: real)
    ensures InCircle(p, centre, size) ==> 0.0 < size
    ensures p == centre ==> (InCircle(p, centre, size) <==> 0.0 < size)
  {
    0.0 < size && (SquareStrictlyMonotone(0.0, size); SquaredDistance(p, centre) < size * size / 4.0)
  }

  /** Strict squares order non-negative reals. */
  lemma SquareStrictlyMonotone(u: real, w: real)
    requires 0.0 <= u < w
    ensures u * u < w * w
  {
    var uu, uw, ww := u * u, u * w, w * w;
    assert uu <= uw;
    assert uw < ww;
  }

  /** The hit-test agrees with the Euclidean test it replaces: for the
      distance d between pointer and centre, the pointer is inside exactly
      when d is strictly less than half the size. */
  lemma InCircleIffDistance(p: Point, centre: Point, size: real, d: real)
    requires 0.0 <= d && d * d == SquaredDistance(p, centre)
    ensures InCircle(p, centre, size) <==> d < size / 2.0
  {
    var h := size / 2.0;
    assert h * h == size * size / 4.0;
    if 0.0 < size {
      if d < h {
        SquareStrictlyMonotone(d, h);
      } else if h < d {
        SquareStrictlyMonotone(h, d);
      }
    }
  }

  /** A pointer exactly half a size away from the centre, in any direction,
      is not a hit. */
  lemma BoundaryIsNotAHit(p: Point, centre: Point, size: real)
    requires SquaredDistance(p, centre) == (size / 2.0) * (size / 2.0)
    ensures !InCircle(p, centre, size)
  {
    assert (size / 2.0) * (size / 2.0) == size * size / 4.0;
  }

  /** A pointer strictly nearer than half a size to the centre, in any
      direction, is a hit. */
  lemma JustInsideIsAHit(p: Point, centre: Point, size: real, eps: real)
    requires 0.0 < eps <= size / 2.0
    requires SquaredDistance(p, centre) == (size / 2.0 - eps) * (size / 2.0 - eps)
    ensures InCircle(p, centre, size)
  {
    SquareStrictlyMonotone(size / 2.0 - eps, size / 2.0);
    assert (size / 2.0) * (size / 2.0) == size * size / 4.0;
  }
}
