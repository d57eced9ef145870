/**
 What one frame draws for the segments: a bubble per shown segment, then
 a label per shown segment, both in declaration order. The grid, axes and
 the cosmetic highlight ellipses are drawing calls with nothing to decide
 and are not part of the plan.
 */
module Render {
  import opened Geometry
  import opened Options
  import opened Chart
  import Interaction

  /** Hover enlarges a bubble by 5% and makes its fill more opaque. */
  const HoverScale: real := 1.05
  const HoverAlpha: int := 220
  const RestAlpha: int := 180

  /** One filled circle of the frame. */
  datatype Bubble = Bubble(
    key: string,
    centre: Point,
    diameter: real,
    color: Color,
    alpha: int,
    hovered: bool)

  /** One text label of the frame, centred horizontally on `at`. */
  datatype Label = Label(key: string, text: string, at: Point)

  /** The render plan of one frame. */
  datatype Frame = Frame(bubbles: seq<Bubble>, labels: seq<Label>)

  /** drawBubble: the bubble of one segment. Hover is decided on the base
      size, and a hovered bubble is drawn 5% larger and more opaque. */
  function DrawBubble(s: Segment, canvas: Canvas, mouse: Point): (b: Bubble)
    ensures b.key == s.key && b.color == s.color && b.centre == Centre(s, canvas)
    ensures b.hovered <==> InCircle(mouse, Centre(s, canvas), s.size)
    ensures b.hovered ==> b.diameter == s.size * HoverScale && b.alpha == HoverAlpha
    ensures !b.hovered ==> b.diameter == s.size && b.alpha == RestAlpha
  {
    var centre := Centre(s, canvas);
    var hovered := InCircle(mouse, centre, s.size);
    Bubble(s.key, centre, if hovered then s.size * HoverScale else s.size,
           s.color, if hovered then HoverAlpha else RestAlpha, hovered)
  }

  /** adjustLabelPosition: the label's y for a bubble centred at height y.
      Only the "low" segment is labelled below its bubble, 25 pixels under
      its bottom edge; "ultra" and "high" sit 15 pixels above the top edge and
      every other key 20 pixels above it. For a non-negative size the
      label's anchor lies outside the vertical span of the base-size bubble. */
  function LabelY(key: string, y: real, size: real): (r: real)
    ensures 0.0 <= size ==> (y < r <==> key == "low")
    ensures 0.0 <= size ==> r < y - size / 2.0 || y + size / 2.0 < r
    ensures key == "low" ==> r - (y + size / 2.0) == 25.0
    ensures (key == "ultra" || key == "high") ==> (y - size / 2.0) - r == 15.0
    ensures key != "low" && key != "ultra" && key != "high" ==> (y - size / 2.0) - r == 20.0
  {
    if key == "ultra" || key == "high" then y - size / 2.0 - 15.0
    else if key == "low" then y + size / 2.0 + 25.0
    else y - size / 2.0 - 20.0
  }

  /** drawLabel: the segment's name, centred on its bubble's x, at the
      height adjustLabelPosition gives for the base size (never the hovered
      size). */
  function DrawLabel(s: Segment, canvas: Canvas): (l: Label)
    ensures l.key == s.key && l.text == s.name
    ensures l.at.x == Centre(s, canvas).x
    ensures l.at.y == LabelY(s.key, Centre(s, canvas).y, s.size)
    ensures 0.0 <= s.size ==> (Centre(s, canvas).y < l.at.y <==> s.key == "low")
  {
    var centre := Centre(s, canvas);
    Label(s.key, s.name, Point(centre.x, LabelY(s.key, centre.y, s.size)))
  }

  /** drawBubbles: one bubble per shown segment; hidden segments draw
      nothing. */
  function DrawBubbles(segs: seq<Segment>, canvas: Canvas, mouse: Point): (r: seq<Bubble>)
    ensures |r| == ActiveCount(segs)
    ensures forall b :: b in r ==> exists s :: s in segs && s.active && b == DrawBubble(s, canvas, mouse)
  {
    if |segs| == 0 then []
    else
      var rest := DrawBubbles(segs[1..], canvas, mouse);
      assert forall s :: s in segs[1..] ==> s in segs;
      if segs[0].active then [DrawBubble(segs[0], canvas, mouse)] + rest else rest
  }

  /** drawLabels: one label per shown segment; hidden segments draw nothing. */
  function DrawLabels(segs: seq<Segment>, canvas: Canvas): (r: seq<Label>)
    ensures |r| == ActiveCount(segs)
    ensures forall l :: l in r ==> exists s :: s in segs && s.active && l == DrawLabel(s, canvas)
  {
    if |segs| == 0 then []
    else
      var rest := DrawLabels(segs[1..], canvas);
      assert forall s :: s in segs[1..] ==> s in segs;
      if segs[0].active then [DrawLabel(segs[0], canvas)] + rest else rest
  }

  /** Bubbles follow the collection's order: drawing a concatenation draws
      the first part's bubbles, then the second's. */
  lemma {:induction false} DrawBubblesAppend(a: seq<Segment>, b: seq<Segment>, canvas: Canvas, mouse: Point)
    ensures DrawBubbles(a + b, canvas, mouse) == DrawBubbles(a, canvas, mouse) + DrawBubbles(b, canvas, mouse)
  {
    if |a| > 0 {
      assert (a + b)[1..] == a[1..] + b;
      DrawBubblesAppend(a[1..], b, canvas, mouse);
    } else {
      assert a + b == b;
    }
  }

  /** Labels follow the collection's order, as bubbles do. */
  lemma {:induction false} DrawLabelsAppend(a: seq<Segment>, b: seq<Segment>, canvas: Canvas)
    ensures DrawLabels(a + b, canvas) == DrawLabels(a, canvas) + DrawLabels(b, canvas)
  {
    if |a| > 0 {
      assert (a + b)[1..] == a[1..] + b;
      DrawLabelsAppend(a[1..], b, canvas);
    } else {
      assert a + b == b;
    }
  }

  /** The k-th label belongs to the k-th bubble and sits on its x. */
  lemma {:induction false} BubblesAndLabelsAlign(segs: seq<Segment>, canvas: Canvas, mouse: Point)
    ensures |DrawLabels(segs, canvas)| == |DrawBubbles(segs, canvas, mouse)|
    ensures forall k :: 0 <= k < |DrawBubbles(segs, canvas, mouse)| ==>
              && DrawLabels(segs, canvas)[k].key == DrawBubbles(segs, canvas, mouse)[k].key
              && DrawLabels(segs, canvas)[k].at.x == DrawBubbles(segs, canvas, mouse)[k].centre.x
  {
    if |segs| > 0 {
      BubblesAndLabelsAlign(segs[1..], canvas, mouse);
    }
  }

  /** draw: the bubbles and labels of one frame. There are as many of each
      as there are shown segments, the k-th label names the k-th bubble's
      segment and is centred on it, and a frame with no shown segment
      draws no bubble and no label. */
  function DrawFrame(segs: seq<Segment>, canvas: Canvas, mouse: Point): (f: Frame)
    ensures |f.bubbles| == |f.labels| == ActiveCount(segs)
    ensures forall k :: 0 <= k < |f.bubbles| ==>
              f.labels[k].key == f.bubbles[k].key && f.labels[k].at.x == f.bubbles[k].centre.x
    ensures (forall i :: 0 <= i < |segs| ==> !segs[i].active) ==> f.bubbles == [] && f.labels == []
  {
    BubblesAndLabelsAlign(segs, canvas, mouse);
    Frame(DrawBubbles(segs, canvas, mouse), DrawLabels(segs, canvas))
  }

  /** The key of the first bubble drawn as hovered; nothing exactly when no
      bubble is drawn as hovered. */
  function FirstHoveredKey(bubbles: seq<Bubble>): (r: Option<string>)
    ensures r.None? <==> forall k :: 0 <= k < |bubbles| ==> !bubbles[k].hovered
    ensures r.Some? ==> exists k :: && 0 <= k < |bubbles|
                                    && bubbles[k].hovered
                                    && bubbles[k].key == r.value
                                    && forall j :: 0 <= j < k ==> !bubbles[j].hovered
  {
    if |bubbles| == 0 then None
    else if bubbles[0].hovered then Some(bubbles[0].key)
    else FirstHoveredKey(bubbles[1..])
  }

  /** Hover drawing and getHoveredSegment agree: the first bubble drawn as
      hovered is the reported segment's, and none is drawn hovered exactly
      when none is reported. Overlapping bubbles may all be drawn as hovered,
      while only the first is reported. */
  lemma {:induction false} HoverAgreesWithHoveredSegment(segs: seq<Segment>, canvas: Canvas, mouse: Point)
    ensures FirstHoveredKey(DrawBubbles(segs, canvas, mouse)) == Interaction.HoveredSegment(segs, canvas, mouse)
  {
    if |segs| > 0 {
      var rest := DrawBubbles(segs[1..], canvas, mouse);
      HoverAgreesWithHoveredSegment(segs[1..], canvas, mouse);
      if segs[0].active {
        var bubbles := DrawBubbles(segs, canvas, mouse);
        assert bubbles[0] == DrawBubble(segs[0], canvas, mouse);
        assert bubbles[1..] == rest;
      }
    }
  }
}
