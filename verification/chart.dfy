/**
 Data model of the art-market chart: the canvas, the segment records in
 their fixed declaration order, and the canvas resize rule. Only the
 `active` flags of the segments change while the chart runs.
 */
module Chart {
  import opened Geometry

  /** An 8-bit colour channel. */
  type Channel = c: int | 0 <= c < 256

  datatype Color = Color(r: Channel, g: Channel, b: Channel)

  /** One category of the data set, plotted as one bubble. `volume` and
      `value` are growth percentages; `size` is the bubble's diameter. */
  datatype Segment = Segment(
    key: string,
    name: string,
    volume: real,
    value: real,
    color: Color,
    size: real,
    active: bool)

  /** The drawing surface, in whole pixels. */
  datatype Canvas = Canvas(width: int, height: int)

  /** The canvas the chart starts with. */
  const InitialCanvas: Canvas := Canvas(900, 500)

  /** Window widths below this shrink the canvas. */
  const ResizeThreshold: int := 1000

  /** Where a segment's bubble is centred on the given canvas. A segment
      whose values lie within the axis ranges is centred inside the plot
      area, whenever that area is not inverted. */
  function Centre(s: Segment, canvas: Canvas): (p: Point)
    ensures 0.0 <= s.volume <= VolumeMax && LeftMargin + RightMargin <= canvas.width as real ==>
              LeftMargin <= p.x <= canvas.width as real - RightMargin
    ensures 0.0 <= s.value <= ValueMax && TopMargin + BottomMargin <= canvas.height as real ==>
              TopMargin <= p.y <= canvas.height as real - BottomMargin
  {
    var w, h := canvas.width as real, canvas.height as real;
    VolumeToXInPlot(s.volume, w);
    ValueToYInPlot(s.value, h);
    Point(VolumeToX(s.volume, w), ValueToY(s.value, h))
  }

  /** The segments form a keyed collection: no key occurs twice. */
  predicate UniqueKeys(segs: seq<Segment>)
  {
    forall i, j :: 0 <= i < |segs| && 0 <= j < |segs| && segs[i].key == segs[j].key ==> i == j
  }

  predicate HasKey(segs: seq<Segment>, key: string)
  {
    exists i :: 0 <= i < |segs| && segs[i].key == key
  }

  /** Two collections hold the same segments in the same order, up to their
      `active` flags. */
  predicate SameButActive(segs: seq<Segment>, segs': seq<Segment>)
  {
    && |segs'| == |segs|
    && forall i :: 0 <= i < |segs| ==> segs'[i] == segs[i].(active := segs'[i].active)
  }

  /** The number of active segments. */
  function ActiveCount(segs: seq<Segment>): (n: nat)
    ensures n <= |segs|
    ensures n == 0 <==> forall i :: 0 <= i < |segs| ==> !segs[i].active
  {
    if |segs| == 0 then 0
    else (if segs[0].active then 1 else 0) + ActiveCount(segs[1..])
  }

  /** Flipping one segment's flag moves the active count by one, in the
      direction of the flip. */
  lemma {:induction false} ActiveCountFlip(segs: seq<Segment>, i: nat)
    requires i < |segs|
    ensures ActiveCount(segs[i := segs[i].(active := !segs[i].active)])
         == ActiveCount(segs) + (if segs[i].active then -1 else 1)
  {
    var segs' := segs[i := segs[i].(active := !segs[i].active)];
    if i > 0 {
      assert segs'[1..] == segs[1..][i - 1 := segs[i].(active := !segs[i].active)];
      ActiveCountFlip(segs[1..], i - 1);
    } else {
      assert segs'[1..] == segs[1..];
    }
  }

  /** The resize rule: a window narrower than the threshold makes the canvas
      100 pixels narrower than the window and 500 pixels high; any other
      window leaves the canvas exactly as it is. */
  function WindowResized(canvas: Canvas, windowWidth: int): (r: Canvas)
    ensures windowWidth < ResizeThreshold ==> r.width == windowWidth - 100 && r.height == 500
    ensures windowWidth >= ResizeThreshold ==> r == canvas
    ensures r == canvas || r.width < ResizeThreshold - 100
  {
    if windowWidth < ResizeThreshold then Canvas(windowWidth - 100, 500) else canvas
  }

  /** Resizing to the same window width twice is the same as resizing once. */
  lemma WindowResizedIdempotent(canvas: Canvas, windowWidth: int)
    ensures WindowResized(WindowResized(canvas, windowWidth), windowWidth)
         == WindowResized(canvas, windowWidth)
  {
  }

  /** Shrinking the window below the threshold and then widening it past the
      threshold keeps the shrunk canvas: the original 900 pixels do not come
      back. */
  lemma WindowResizedDoesNotRestore()
    ensures WindowResized(InitialCanvas, 950) == Canvas(850, 500)
    ensures WindowResized(WindowResized(InitialCanvas, 950), 1200) == Canvas(850, 500)
  {
  }
}
