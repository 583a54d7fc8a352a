/** The wipe comparison: a slider position in percent driven by pointer
    moves, the placement of the edited image centred unscaled in the
    original's frame, and the clip that shows the edited layer left of the
    slider line. */
module ComparisonSlider {
  import opened Types
  import DiffOverlay

  function Max(a: real, b: real): real
  {
    if a >= b then a else b
  }

  function Min(a: real, b: real): real
  {
    if a <= b then a else b
  }

  /** `Math.max(0, Math.min(100, offset))`. */
  function Clamp(offset: real): (r: real)
    ensures 0.0 <= r <= 100.0
    ensures 0.0 <= offset <= 100.0 ==> r == offset
    ensures offset < 0.0 ==> r == 0.0
    ensures offset > 100.0 ==> r == 100.0
  {
    Max(0.0, Min(100.0, offset))
  }

  lemma ClampIdempotent(offset: real)
    ensures Clamp(Clamp(offset)) == Clamp(offset)
  {
  }

  lemma ClampMonotone(a: real, b: real)
    requires a <= b
    ensures Clamp(a) <= Clamp(b)
  {
  }

  /** The part of the container's bounding box the handler reads. */
  datatype BoundingRect = BoundingRect(left: real, width: real)

  /** A mouse move carries `clientX`; a touch move the `clientX` of its
      first touch. */
  datatype MoveEvent = MouseMove(clientX: real) | TouchMove(firstTouchX: real)

  /** Pointer position across the container, in percent of its width. */
  function PointerOffset(x: real, rect: BoundingRect): (o: real)
    requires rect.width > 0.0
    ensures rect.left <= x <= rect.left + rect.width ==> 0.0 <= o <= 100.0
    ensures x < rect.left ==> o < 0.0
    ensures x > rect.left + rect.width ==> o > 100.0
    ensures x == rect.left ==> o == 0.0
    ensures x == rect.left + rect.width ==> o == 100.0
  {
    var t := (x - rect.left) / rect.width;
    assert t * rect.width == x - rect.left;
    assert (t - 1.0) * rect.width == x - rect.left - rect.width;
    assert x <= rect.left + rect.width ==> t <= 1.0 by {
      if x <= rect.left + rect.width && t > 1.0 {
        assert (t - 1.0) * rect.width > 0.0;
      }
    }
    assert x > rect.left + rect.width ==> t > 1.0;
    t * 100.0
  }

  /** A pointer over the container sets the position to exactly its offset. */
  lemma InsidePointerSetsOffset(x: real, rect: BoundingRect)
    requires rect.width > 0.0 && rect.left <= x <= rect.left + rect.width
    ensures Clamp(PointerOffset(x, rect)) == PointerOffset(x, rect)
  {
  }

  /** A pointer beyond an edge pins the position to that edge. */
  lemma OutsidePointerPinsToEdge(x: real, rect: BoundingRect)
    requires rect.width > 0.0
    ensures x < rect.left ==> Clamp(PointerOffset(x, rect)) == 0.0
    ensures x > rect.left + rect.width ==> Clamp(PointerOffset(x, rect)) == 100.0
  {
  }

  /** The slider's only state: where the line stands, in percent. */
  class Slider {
    var position: real

    predicate Valid()
      reads this
    {
      0.0 <= position <= 100.0
    }

    constructor ()
      ensures Valid() && position == 50.0
    {
      position := 50.0;
    }

    /** The move handler; it does nothing while the container is not
        mounted. */
    method HandleMove(e: MoveEvent, container: Option<BoundingRect>)
      requires Valid()
      requires container.Some? ==> container.value.width > 0.0
      modifies this
      ensures Valid()
      ensures container.None? ==> position == old(position)
      ensures container.Some? && e.MouseMove? ==> position == Clamp(PointerOffset(e.clientX, container.value))
      ensures container.Some? && e.TouchMove? ==> position == Clamp(PointerOffset(e.firstTouchX, container.value))
    {
      if container.None? {
        return;
      }
      var rect := container.value;
      var x := match e
        case MouseMove(clientX) => clientX
        case TouchMove(firstTouchX) => firstTouchX;
      var offset := ((x - rect.left) / rect.width) * 100.0;
      position := Max(0.0, Min(100.0, offset));
    }
  }

  /** Left, top, width and height of the edited image, in percent of the
      original's frame. */
  datatype Placement = Placement(left: real, top: real, width: real, height: real)

  /** The edited image at its own pixel size: each of its four numbers,
      taken as that share of the original's side, is the pixel offset or
      size it stands for. */
  function EditedPlacement(originalWidth: nat, originalHeight: nat, editedWidth: nat, editedHeight: nat)
    : (p: Placement)
    requires originalWidth > 0 && originalHeight > 0
    ensures p.width * originalWidth as real == 100.0 * editedWidth as real
    ensures p.height * originalHeight as real == 100.0 * editedHeight as real
    ensures 2.0 * p.left * originalWidth as real == 100.0 * (originalWidth as real - editedWidth as real)
    ensures 2.0 * p.top * originalHeight as real == 100.0 * (originalHeight as real - editedHeight as real)
  {
    var ow, oh := originalWidth as real, originalHeight as real;
    ShareOfSide(ow, editedWidth as real);
    ShareOfSide(oh, editedHeight as real);
    ShareOfSide(ow, (ow - editedWidth as real) / 2.0);
    ShareOfSide(oh, (oh - editedHeight as real) / 2.0);
    var offsetX := (ow - editedWidth as real) / 2.0;
    var offsetY := (oh - editedHeight as real) / 2.0;
    Placement(
      (offsetX / ow) * 100.0,
      (offsetY / oh) * 100.0,
      (editedWidth as real / ow) * 100.0,
      (editedHeight as real / oh) * 100.0)
  }

  lemma ShareOfSide(total: real, part: real)
    requires total > 0.0
    ensures (part / total) * 100.0 * total == 100.0 * part
  {
    var t := part / total;
    assert t * total == part;
  }

  lemma CentredSum(o: real, e: real)
    requires o > 0.0
    ensures 2.0 * (((o - e) / 2.0 / o) * 100.0) + (e / o) * 100.0 == 100.0
  {
    var a := (o - e) / 2.0 / o;
    var b := e / o;
    assert a * o == (o - e) / 2.0;
    assert b * o == e;
    assert 2.0 * (a * o) == o - e;
    assert (2.0 * a + b) * o == 2.0 * (a * o) + b * o;
    assert (2.0 * a + b - 1.0) * o == 0.0;
    assert 2.0 * a + b == 1.0;
  }

  /** The edited image is centred: its two margins are equal on each axis
      and, with the image, add up to the whole frame. */
  lemma PlacementCentred(originalWidth: nat, originalHeight: nat, editedWidth: nat, editedHeight: nat)
    requires originalWidth > 0 && originalHeight > 0
    ensures var p := EditedPlacement(originalWidth, originalHeight, editedWidth, editedHeight);
      2.0 * p.left + p.width == 100.0 && 2.0 * p.top + p.height == 100.0
  {
    CentredSum(originalWidth as real, editedWidth as real);
    CentredSum(originalHeight as real, editedHeight as real);
  }

  /** Images of the same size overlay exactly. */
  lemma EqualSizesOverlayExactly(width: nat, height: nat)
    requires width > 0 && height > 0
    ensures EditedPlacement(width, height, width, height) == Placement(0.0, 0.0, 100.0, 100.0)
  {
    var w, h := width as real, height as real;
    assert w / w == 1.0 && h / h == 1.0;
  }

  /** Converted back to pixels, the slider's placement of the edited image
      is the outline the change overlay draws when it reports a crop: both
      centre the edited image unscaled. */
  lemma PlacementMatchesCropOutline(originalWidth: nat, originalHeight: nat, editedWidth: nat, editedHeight: nat)
    requires originalWidth > 0 && originalHeight > 0
    requires DiffOverlay.IsCropped(originalWidth, originalHeight, editedWidth, editedHeight)
    ensures var p := EditedPlacement(originalWidth, originalHeight, editedWidth, editedHeight);
      var o := DiffOverlay.DetectCrop(originalWidth, originalHeight, editedWidth, editedHeight).value.outline;
      && p.left * originalWidth as real / 100.0 == o.x
      && p.top * originalHeight as real / 100.0 == o.y
      && p.width * originalWidth as real / 100.0 == o.width
      && p.height * originalHeight as real / 100.0 == o.height
  {
  }

  /** The clip-path's right inset, in percent. */
  function ClipRightInset(position: real): (inset: real)
    ensures 0.0 <= position <= 100.0 ==> 0.0 <= inset <= 100.0
  {
    100.0 - position
  }

  /** The slider line's left offset, in percent. */
  function LineLeft(position: real): (left: real)
    ensures 0.0 <= position <= 100.0 ==> 0.0 <= left <= 100.0
  {
    position
  }

  /** The clip leaves the edited layer visible at horizontal percentage p. */
  predicate EditedVisibleAt(position: real, p: real)
  {
    0.0 <= p < 100.0 - ClipRightInset(position)
  }

  /** The clip edge and the line coincide, so across the frame the edited
      layer shows exactly to the left of the line. */
  lemma ClipMeetsLine(position: real, p: real)
    requires 0.0 <= p <= 100.0
    ensures ClipRightInset(position) + LineLeft(position) == 100.0
    ensures EditedVisibleAt(position, p) <==> p < LineLeft(position)
  {
  }
}
