# Art-market bubble chart: a Dafny model of its core

The sketch draws five segments of the art market as bubbles on a scatterplot.
Volume growth sets a bubble's x, value growth sets its y, and each segment has
its own diameter and colour. Buttons toggle a segment on and off. Clicking a
bubble hides it. This project models the decisions behind that picture, over
exact `real`s:

- **Coordinate mapping** (`Geometry`). `Remap` is p5's `map` with no bounds.
  `VolumeToX` maps volume `[0,160]` onto `[80, width-80]`. `ValueToY` maps value
  `[0,200]` onto `[height-80, 60]`, so larger values are drawn higher. The tick
  positions at `sketch.js:78` and `sketch.js:85` use the same two mappings.
- **Circle hit-test** (`Geometry.InCircle`). p5's `dist(p, c) < size/2` is
  decided on squared distances. `InCircleIffDistance` proves this agrees with
  the Euclidean test for every distance `d`.
- **First-match selection** (`Interaction.FirstHit`, `HoveredSegment`). The
  segments are an ordered `seq<Segment>` in the data object's `for…in`
  enumeration order (insertion order for non-integer keys such as `ultra` or
  `low`), and the first active
  segment under the pointer wins, not the nearest one.
- **State transitions** (`Interaction.Click`, `Interaction.Toggle`).
  `mousePressed` and the button handler are the only changes. Both change
  `active` flags only.
- **Layout** (`Render`, `Chart.WindowResized`). This covers the bubble drawn
  for each active segment (hover size and alpha), the per-key label offset,
  the frame's bubbles and labels in order, and the resize rule.

The data file `artmarket.json` is not part of this model. The segment
collection is an input to every operation. Canvas and window sizes are whole
pixels (`int`), as p5 reports them.

The button handler reads `artMarketData[segment].active` unchecked
(sketch.js:178) and would throw on an unknown key, so `Toggle` requires the key
to name a segment.

## Model

| member | source | states |
|---|---|---|
| Geometry.Remap | sketch.js:102-103 | p5 `map` without bounds; it sends the ends of the source range to the ends of the target range |
| Geometry.RemapAffine | sketch.js:102-103 | `map` commutes with every affine combination of inputs, also outside the source range: it extrapolates linearly and never clamps |
| Geometry.RemapStrict | sketch.js:102-103 | with an increasing source range, `map` is strictly increasing onto an increasing target and strictly decreasing onto a decreasing one |
| Geometry.VolumeToX | sketch.js:102 | volume 0 lands on x = 80 and volume 160 on x = width − 80 |
| Geometry.ValueToY | sketch.js:103 | value 0 lands on y = height − 80 and value 200 on y = 60 |
| Geometry.VolumeToXIncreasing | sketch.js:189 | for width > 160, a larger volume gives a strictly larger x |
| Geometry.ValueToYDecreasing | sketch.js:190 | for height > 140, a larger value gives a strictly smaller y, so it is drawn higher |
| Geometry.VolumeToXInPlot | sketch.js:78 | a volume in [0, 160] is plotted between x = 80 and x = width − 80 when width ≥ 160 |
| Geometry.ValueToYInPlot | sketch.js:85 | a value in [0, 200] is plotted between y = 60 and y = height − 80 when height ≥ 140 |
| Geometry.VolumeToXAffine | sketch.js:147 | the x of an affine combination of volumes, in range or not, is the same combination of their x's: nothing is clamped |
| Geometry.ValueToYAffine | sketch.js:148 | the y of an affine combination of values, in range or not, is the same combination of their y's: nothing is clamped |
| Geometry.InCircle | sketch.js:105-106 | the squared-distance form of `dist(p, centre) < size/2`; only a positive size contains anything, and it always contains its centre |
| Geometry.InCircleIffDistance | sketch.js:105-106 | the squared-distance test holds exactly when the pointer's distance to the centre is strictly less than half the size |
| Geometry.BoundaryIsNotAHit | sketch.js:193 | every pointer at distance exactly size/2 from the centre, in any direction, is not a hit |
| Geometry.JustInsideIsAHit | sketch.js:219 | every pointer at distance size/2 − ε from the centre, with 0 < ε ≤ size/2 and in any direction, is a hit |
| Chart.Centre | sketch.js:215-216 | a segment with volume in [0, 160] and value in [0, 200] is centred inside the plot area, whenever the plot area is not inverted (width ≥ 160, height ≥ 140) |
| Chart.ActiveCount | sketch.js:92-96 | the number of active segments is at most the collection's length, and is zero exactly when every segment is inactive |
| Chart.ActiveCountFlip | sketch.js:178 | flipping one flag moves the active count by one, in the direction of the flip |
| Chart.WindowResized | sketch.js:204-208 | a window narrower than 1000 gives a (windowWidth − 100) × 500 canvas; a wider window leaves the canvas as it is; so the result is the old canvas or narrower than 900 |
| Chart.WindowResizedIdempotent | sketch.js:205-206 | resizing twice to the same window width is the same as resizing once |
| Chart.WindowResizedDoesNotRestore | sketch.js:204-208 | from 900 × 500, a 950 window gives 850 × 500, and widening to 1200 keeps 850 × 500 instead of restoring 900 |
| Interaction.Hits | sketch.js:187-193 | only an active segment with positive size takes a pointer event; a pointer on the centre of an active segment hits it exactly when its size is positive |
| Interaction.FirstHit | sketch.js:212-224 | the result is the first position whose segment is active and under the pointer, with no earlier hit; there is no result exactly when no segment is hit |
| Interaction.HoveredSegment | sketch.js:211-225 | the reported key belongs to the first hit segment in order; nothing is reported exactly when no active bubble contains the pointer |
| Interaction.Click | sketch.js:185-201 | only `active` flags change; no flag goes from false to true; at most one segment changes, and it is the first hit; the collection changes exactly when some active bubble is under the pointer |
| Interaction.ClickDeactivatesHovered | sketch.js:186-197 | with distinct keys, when `getHoveredSegment` reports a key, a click turns that segment off (it was active) and leaves every other segment equal |
| Interaction.ClickActiveCount | sketch.js:193-197 | a click on a shown bubble lowers the active count by exactly one; any other click leaves it unchanged |
| Interaction.Toggle | sketch.js:177-178 | only `active` flags change, and a flag changes exactly when its segment has the toggled key |
| Interaction.ToggleInvolution | sketch.js:178 | toggling the same key twice restores the original collection |
| Interaction.ToggleChangesOne | sketch.js:176-178 | with distinct keys, toggling segment i's key changes segment i's flag and nothing else, and moves the active count by one in the direction of the flip |
| Interaction.ToggleUndoesClick | sketch.js:194 | with distinct keys, when a click hides the hovered segment, pressing that segment's button restores the state from before the click |
| Render.DrawBubble | sketch.js:100-114 | hover is decided on the base size; a hovered bubble has diameter size × 1.05 and alpha 220; any other bubble has diameter size and alpha 180; the bubble sits at the mapped centre in the segment's colour |
| Render.LabelY | sketch.js:161-171 | for size ≥ 0, the label is below the centre exactly for key "low", and its anchor lies outside the vertical span of the base-size bubble; "low" is 25 px under the bottom edge, "ultra" and "high" 15 px above the top edge, every other key 20 px above it |
| Render.DrawLabel | sketch.js:145-158 | the label shows the segment's name at the bubble's x, at the height `adjustLabelPosition` gives for the base size; for size ≥ 0 it is below the centre exactly for "low" |
| Render.DrawBubbles | sketch.js:91-97 | one bubble per active segment, each drawn from an active segment of the collection |
| Render.DrawLabels | sketch.js:136-142 | one label per active segment, each drawn from an active segment of the collection |
| Render.DrawBubblesAppend | sketch.js:92-96 | bubbles follow collection order: drawing a concatenation draws the first part's bubbles, then the second's |
| Render.DrawLabelsAppend | sketch.js:137-141 | labels follow collection order in the same way |
| Render.BubblesAndLabelsAlign | sketch.js:26-27 | the k-th label belongs to the k-th bubble's segment and is centred on its x |
| Render.DrawFrame | sketch.js:22-28 | a frame has as many bubbles and labels as active segments, paired in order; with every segment inactive it has no bubble and no label |
| Render.FirstHoveredKey | sketch.js:106 | an observer of the frame, not a search in the source: a result is the key of a hovered bubble with no hovered bubble before it, and there is none exactly when no bubble is drawn hovered |
| Render.HoverAgreesWithHoveredSegment | sketch.js:105-113 | the key of the first bubble drawn hovered is exactly what `getHoveredSegment` reports, and no bubble is drawn hovered exactly when it reports none; overlapping bubbles may all be drawn hovered |

## Left out

- p5 drawing primitives (`background`, `stroke`, `line`, `ellipse`, `text`, `push`/`translate`/`rotate`): side-effecting graphics calls with nothing to decide.
- The highlight ellipses of `drawBubbleHighlights` (sketch.js:126-133): purely cosmetic layers. The hit-test never consults them.
- The grid-line loops (sketch.js:36-41): they step by an accumulated float, so the number of lines drawn depends on rounding.
- The text content of axis titles and tick labels: fixed strings and calls to `text`.
- `preload`/`loadJSON` (sketch.js:5-7): file I/O. The segment collection is a parameter, so no property here depends on the values in `artmarket.json`.
- The button `classList` updates (sketch.js:179, sketch.js:195-196) and the event wiring (sketch.js:175-176): foreign browser calls.
- The global `hoveredSegment` written at sketch.js:112: it is never read and never reset, so it has no observable effect.
- `createCanvas`, `resizeCanvas` and p5's frame loop: these belong to the host runtime. Only the canvas dimensions they receive are modelled.
- Floating point: the model computes over exact reals. It does not model rounding in `map`, in `dist` (its square root), or in the factor 1.05.
- Toggle with an unknown key: the handler would throw, so `Toggle` requires the key to be present rather than inventing a no-op.
