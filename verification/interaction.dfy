/**
 Pointer and button interaction: which bubble the pointer is over, the
 canvas click that hides the first bubble under the pointer, and the
 button toggle that flips one segment's visibility. Both transitions only
 ever change `active` flags.
 */
module Interaction {
  import opened Options
  import opened Geometry
  import opened Chart

  /** A segment takes a pointer event when it is shown and the pointer lies
      strictly inside the circle of its base size. */
  predicate Hits(s: Segment, canvas: Canvas, mouse: Point)
    ensures Hits(s, canvas, mouse) ==> s.active && 0.0 < s.size
    ensures s.active && mouse == Centre(s, canvas) ==> (Hits(s, canvas, mouse) <==> 0.0 < s.size)
  {
    s.active && InCircle(mouse, Centre(s, canvas), s.size)
  }

  /** The position of the first segment, in declaration order, that the
      pointer hits. First match wins, whatever the distances to the centres. */
  function FirstHit(segs: seq<Segment>, canvas: Canvas, mouse: Point): (r: Option<nat>)
    ensures r.Some? ==> && r.value < |segs|
                        && Hits(segs[r.value], canvas, mouse)
                        && forall j :: 0 <= j < r.value ==> !Hits(segs[j], canvas, mouse)
    ensures r.None? <==> forall j :: 0 <= j < |segs| ==> !Hits(segs[j], canvas, mouse)
  {
    if |segs| == 0 then None
    else if Hits(segs[0], canvas, mouse) then Some(0)
    else match FirstHit(segs[1..], canvas, mouse)
      case None => None
      case Some(i) => Some(i + 1)
  }

  /** getHoveredSegment: the key of the first active segment whose circle
      contains the pointer, or nothing when the pointer is over no bubble. */
  function HoveredSegment(segs: seq<Segment>, canvas: Canvas, mouse: Point): (r: Option<string>)
    ensures r.None? <==> forall j :: 0 <= j < |segs| ==> !Hits(segs[j], canvas, mouse)
    ensures r.Some? ==> exists i :: && 0 <= i < |segs|
                                    && segs[i].key == r.value
                                    && Hits(segs[i], canvas, mouse)
                                    && forall j :: 0 <= j < i ==> !Hits(segs[j], canvas, mouse)
  {
    match FirstHit(segs, canvas, mouse)
    case None => None
    case Some(i) => Some(segs[i].key)
  }

  /** mousePressed: hides the first segment under the pointer and nothing
      else. Only `active` flags change; a flag only ever goes from true to
      false; at most one segment changes, and it is the first hit; the
      collection changes exactly when some shown bubble is under the pointer. */
  function Click(segs: seq<Segment>, canvas: Canvas, mouse: Point): (r: seq<Segment>)
    ensures SameButActive(segs, r)
    ensures forall i :: 0 <= i < |segs| && r[i].active ==> segs[i].active
    ensures forall i, j :: 0 <= i < |segs| && 0 <= j < |segs| && r[i] != segs[i] && r[j] != segs[j] ==> i == j
    ensures forall i :: 0 <= i < |segs| && r[i] != segs[i] ==>
              && Hits(segs[i], canvas, mouse)
              && forall j :: 0 <= j < i ==> !Hits(segs[j], canvas, mouse)
    ensures r == segs <==> forall j :: 0 <= j < |segs| ==> !Hits(segs[j], canvas, mouse)
  {
    match FirstHit(segs, canvas, mouse)
    case None => segs
    case Some(i) =>
      var r := segs[i := segs[i].(active := false)];
      assert r[i] != segs[i];
      r
  }

  /** With distinct keys, a click hides exactly the segment whose key
      getHoveredSegment reports, and leaves every other segment untouched. */
  lemma ClickDeactivatesHovered(segs: seq<Segment>, canvas: Canvas, mouse: Point)
    requires UniqueKeys(segs)
    ensures var hovered := HoveredSegment(segs, canvas, mouse);
            hovered.Some? ==>
              && (forall i :: 0 <= i < |segs| && segs[i].key == hovered.value ==>
                    segs[i].active && !Click(segs, canvas, mouse)[i].active)
              && (forall i :: 0 <= i < |segs| && segs[i].key != hovered.value ==>
                    Click(segs, canvas, mouse)[i] == segs[i])
  {
  }

  /** A click that lands on a shown bubble lowers the number of shown
      segments by exactly one; any other click leaves it as it was. */
  lemma ClickActiveCount(segs: seq<Segment>, canvas: Canvas, mouse: Point)
    ensures ActiveCount(Click(segs, canvas, mouse))
         == ActiveCount(segs) - (if HoveredSegment(segs, canvas, mouse).Some? then 1 else 0)
  {
    match FirstHit(segs, canvas, mouse)
    case None =>
    case Some(i) =>
      assert segs[i].(active := !segs[i].active) == segs[i].(active := false);
      ActiveCountFlip(segs, i);
  }

  /** The toggle button of segment `key`: flips that segment's `active` flag
      and no other. The key must name a segment, as the button handler reads
      the record without checking. */
  function Toggle(segs: seq<Segment>, key: string): (r: seq<Segment>)
    requires HasKey(segs, key)
    ensures SameButActive(segs, r)
    ensures forall i :: 0 <= i < |segs| ==> (r[i].active != segs[i].active <==> segs[i].key == key)
  {
    seq(|segs|, i requires 0 <= i < |segs| =>
      if segs[i].key == key then segs[i].(active := !segs[i].active) else segs[i])
  }

  /** Toggling the same segment twice restores the original state. */
  lemma ToggleInvolution(segs: seq<Segment>, key: string)
    requires HasKey(segs, key)
    ensures HasKey(Toggle(segs, key), key)
    ensures Toggle(Toggle(segs, key), key) == segs
  {
    var once := Toggle(segs, key);
    var i :| 0 <= i < |segs| && segs[i].key == key;
    assert once[i].key == key;
    var twice := Toggle(once, key);
    forall j | 0 <= j < |segs|
      ensures twice[j] == segs[j]
    {
      assert once[j] == segs[j].(active := once[j].active);
    }
  }

  /** With distinct keys, toggling segment i's key changes segment i alone,
      and moves the number of shown segments by one in the direction of the
      flip. */
  lemma ToggleChangesOne(segs: seq<Segment>, i: nat)
    requires UniqueKeys(segs) && i < |segs|
    ensures HasKey(segs, segs[i].key)
    ensures Toggle(segs, segs[i].key) == segs[i := segs[i].(active := !segs[i].active)]
    ensures ActiveCount(Toggle(segs, segs[i].key)) == ActiveCount(segs) + (if segs[i].active then -1 else 1)
  {
    assert Toggle(segs, segs[i].key) == segs[i := segs[i].(active := !segs[i].active)];
    ActiveCountFlip(segs, i);
  }

  /** The two paths undo each other: pressing the button of the segment a
      click has just hidden brings back the state before the click. */
  lemma ToggleUndoesClick(segs: seq<Segment>, canvas: Canvas, mouse: Point)
    requires UniqueKeys(segs)
    ensures var hovered := HoveredSegment(segs, canvas, mouse);
            hovered.Some? ==>
              && HasKey(Click(segs, canvas, mouse), hovered.value)
              && Toggle(Click(segs, canvas, mouse), hovered.value) == segs
  {
    if HoveredSegment(segs, canvas, mouse).Some? {
      var key := HoveredSegment(segs, canvas, mouse).value;
      var k := FirstHit(segs, canvas, mouse).value;
      var clicked := Click(segs, canvas, mouse);
      assert clicked[k].key == key;
      ClickDeactivatesHovered(segs, canvas, mouse);
      var back := Toggle(clicked, key);
      forall j | 0 <= j < |segs|
        ensures back[j] == segs[j]
      {
        assert clicked[j] == segs[j].(active := clicked[j].active);
      }
    }
  }
}
