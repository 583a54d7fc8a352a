/** The change-analysis overlay: crop detection on the two images'
    dimensions, and a scan of two downsampled RGBA buffers in 8 x 8 tiles
    that marks every tile holding a pixel whose summed red, green and blue
    difference exceeds 30. Marked tiles are drawn at full resolution by
    dividing their coordinates by the 0.1 sampling factor. */
module DiffOverlay {
  import opened Types
  import NumberText

  type Byte = b: int | 0 <= b < 256

  const Threshold: nat := 30
  const BlockSize: nat := 8
  const SampleScale: real := 0.1

  datatype Rect = Rect(x: real, y: real, width: real, height: real)

  datatype Point = Point(x: real, y: real)

  // ---------------------------------------------------------------------
  // Crop detection

  /** The red bands drawn around a centred, unscaled edited frame, the
      outline of that frame, and where its caption is written. */
  datatype CropOverlay = CropOverlay(
    startX: real, startY: real,
    top: Rect, bottom: Rect, left: Rect, right: Rect,
    outline: Rect, caption: Point)

  predicate IsCropped(originalWidth: nat, originalHeight: nat, editedWidth: nat, editedHeight: nat)
  {
    originalWidth > editedWidth || originalHeight > editedHeight
  }

  function DetectCrop(originalWidth: nat, originalHeight: nat, editedWidth: nat, editedHeight: nat)
    : (r: Option<CropOverlay>)
    ensures r.Some? <==> originalWidth > editedWidth || originalHeight > editedHeight
  {
    if !IsCropped(originalWidth, originalHeight, editedWidth, editedHeight) then None
    else
      var W, H := originalWidth as real, originalHeight as real;
      var ew, eh := editedWidth as real, editedHeight as real;
      var startX := (W - ew) / 2.0;
      var startY := (H - eh) / 2.0;
      Some(CropOverlay(
        startX, startY,
        Rect(0.0, 0.0, W, startY),
        Rect(0.0, H - startY, W, startY),
        Rect(0.0, startY, startX, eh),
        Rect(W - startX, startY, startX, eh),
        Rect(startX, startY, ew, eh),
        Point(startX + 10.0, startY + 30.0)))
  }

  /** The geometry is symmetric: the edited frame sits in the middle with
      equal margins, the bottom band ends on the bottom edge and the right
      band on the right edge, and the bands abut the outline. */
  lemma CropGeometrySymmetric(originalWidth: nat, originalHeight: nat, editedWidth: nat, editedHeight: nat)
    requires IsCropped(originalWidth, originalHeight, editedWidth, editedHeight)
    ensures var c := DetectCrop(originalWidth, originalHeight, editedWidth, editedHeight).value;
      && 2.0 * c.startX + editedWidth as real == originalWidth as real
      && 2.0 * c.startY + editedHeight as real == originalHeight as real
      && c.bottom.y == originalHeight as real - c.startY && c.bottom.height == c.startY
      && c.right.x == originalWidth as real - c.startX && c.right.width == c.startX
      && c.bottom.y + c.bottom.height == originalHeight as real
      && c.right.x + c.right.width == originalWidth as real
      && c.top.height == c.outline.y && c.bottom.y == c.outline.y + c.outline.height
      && c.left.width == c.outline.x && c.right.x == c.outline.x + c.outline.width
  {
  }

  /** The offsets are not clamped: on an axis where the edited image is
      larger they are negative, even when the crop was reported because of
      the other axis. */
  lemma CropOffsetsNegativeWhenLarger(originalWidth: nat, originalHeight: nat, editedWidth: nat, editedHeight: nat)
    requires IsCropped(originalWidth, originalHeight, editedWidth, editedHeight)
    ensures var c := DetectCrop(originalWidth, originalHeight, editedWidth, editedHeight).value;
      && (editedWidth > originalWidth ==> c.startX < 0.0)
      && (editedHeight > originalHeight ==> c.startY < 0.0)
  {
  }

  /** Half-open containment of a point in a rectangle. */
  predicate Contains(r: Rect, px: real, py: real)
  {
    r.x <= px < r.x + r.width && r.y <= py < r.y + r.height
  }

  function Count(b: bool): nat
  {
    if b then 1 else 0
  }

  /** When the edited image fits inside the original on both axes, the four
      bands and the edited frame tile the original frame: every point of it
      lies in exactly one of them. */
  lemma CropBandsPartitionFrame(originalWidth: nat, originalHeight: nat, editedWidth: nat, editedHeight: nat,
                                px: real, py: real)
    requires IsCropped(originalWidth, originalHeight, editedWidth, editedHeight)
    requires editedWidth <= originalWidth && editedHeight <= originalHeight
    requires 0.0 <= px < originalWidth as real && 0.0 <= py < originalHeight as real
    ensures var c := DetectCrop(originalWidth, originalHeight, editedWidth, editedHeight).value;
      Count(Contains(c.top, px, py)) + Count(Contains(c.bottom, px, py)) + Count(Contains(c.left, px, py))
        + Count(Contains(c.right, px, py)) + Count(Contains(c.outline, px, py)) == 1
  {
    var c := DetectCrop(originalWidth, originalHeight, editedWidth, editedHeight).value;
    if py < c.startY {
      assert Contains(c.top, px, py);
    } else if py >= c.startY + editedHeight as real {
      assert Contains(c.bottom, px, py);
    } else if px < c.startX {
      assert Contains(c.left, px, py);
    } else if px >= c.startX + editedWidth as real {
      assert Contains(c.right, px, py);
    } else {
      assert Contains(c.outline, px, py);
    }
  }

  // ---------------------------------------------------------------------
  // Tiled pixel comparison, specified on sequences

  function Abs(x: int): nat
  {
    if x < 0 then -x else x
  }

  /** Both buffers hold w * h RGBA pixels. */
  predicate WellSized(d1: seq<Byte>, d2: seq<Byte>, w: nat, h: nat)
  {
    |d1| == 4 * w * h && |d2| == 4 * w * h
  }

  /** Offset of the red byte of pixel (px, py) in a row-major RGBA buffer. */
  function PixelIndex(w: nat, px: nat, py: nat): (idx: nat)
    ensures idx % 4 == 0
  {
    (py * w + px) * 4
  }

  /** The offset decodes back to its pixel: distinct pixels of a row of
      width w never share bytes. */
  lemma PixelIndexDecodes(w: nat, px: nat, py: nat)
    requires px < w
    ensures PixelIndex(w, px, py) / 4 % w == px && PixelIndex(w, px, py) / 4 / w == py
  {
    var p := py * w + px;
    assert PixelIndex(w, px, py) / 4 == p;
    NumberText.ModUnique(p, w, py, px);
  }

  /** Every pixel of the frame has its four bytes inside the buffer. */
  lemma PixelIndexInBounds(w: nat, h: nat, px: nat, py: nat)
    requires px < w && py < h
    ensures PixelIndex(w, px, py) + 3 < 4 * w * h
  {
    assert py * w + px < (py + 1) * w;
    assert (py + 1) * w <= h * w;
  }

  /** Summed absolute difference of the red, green and blue bytes at idx;
      the alpha byte at idx + 3 is not read. */
  function ChannelDelta(d1: seq<Byte>, d2: seq<Byte>, idx: nat): (delta: nat)
    requires idx + 2 < |d1| && idx + 2 < |d2|
    ensures delta <= 3 * 255
    ensures delta == 0 <==> d1[idx] == d2[idx] && d1[idx + 1] == d2[idx + 1] && d1[idx + 2] == d2[idx + 2]
  {
    Abs(d1[idx] as int - d2[idx] as int) + Abs(d1[idx + 1] as int - d2[idx + 1] as int)
      + Abs(d1[idx + 2] as int - d2[idx + 2] as int)
  }

  predicate PixelChanged(d1: seq<Byte>, d2: seq<Byte>, w: nat, h: nat, px: nat, py: nat)
    requires WellSized(d1, d2, w, h) && px < w && py < h
  {
    PixelIndexInBounds(w, h, px, py);
    ChannelDelta(d1, d2, PixelIndex(w, px, py)) > Threshold
  }

  /** The tile with origin (x, y), clipped to the frame, holds a changed pixel. */
  predicate TileChanged(d1: seq<Byte>, d2: seq<Byte>, w: nat, h: nat, x: nat, y: nat)
    requires WellSized(d1, d2, w, h)
  {
    exists px: nat, py: nat :: x <= px < x + BlockSize && px < w && y <= py < y + BlockSize && py < h
      && PixelChanged(d1, d2, w, h, px, py)
  }

  /** Tile origins are the multiples of the block size inside the frame. */
  predicate IsTileOrigin(w: nat, h: nat, x: nat, y: nat)
  {
    x % BlockSize == 0 && y % BlockSize == 0 && x < w && y < h
  }

  function TilesAcross(w: nat): nat
  {
    (w + BlockSize - 1) / BlockSize
  }

  /** The full-resolution square drawn for the tile at (x, y). */
  function TileRect(x: nat, y: nat): (r: Rect)
    ensures r == Rect(10.0 * x as real, 10.0 * y as real, 80.0, 80.0)
  {
    Rect(x as real / SampleScale, y as real / SampleScale, BlockSize as real / SampleScale, BlockSize as real / SampleScale)
  }

  /** Marks of the first n tiles of tile row ty, left to right. */
  function RowMarks(d1: seq<Byte>, d2: seq<Byte>, w: nat, h: nat, ty: nat, n: nat): seq<Rect>
    requires WellSized(d1, d2, w, h)
  {
    if n == 0 then []
    else
      RowMarks(d1, d2, w, h, ty, n - 1)
        + (if TileChanged(d1, d2, w, h, BlockSize * (n - 1), BlockSize * ty)
           then [TileRect(BlockSize * (n - 1), BlockSize * ty)] else [])
  }

  /** Marks of the first m tile rows, top to bottom. */
  function GridMarks(d1: seq<Byte>, d2: seq<Byte>, w: nat, h: nat, m: nat): seq<Rect>
    requires WellSized(d1, d2, w, h)
  {
    if m == 0 then [] else GridMarks(d1, d2, w, h, m - 1) + RowMarks(d1, d2, w, h, m - 1, TilesAcross(w))
  }

  /** All marks, in the row-major order the overlay draws them. */
  function Marks(d1: seq<Byte>, d2: seq<Byte>, w: nat, h: nat): seq<Rect>
    requires WellSized(d1, d2, w, h)
  {
    GridMarks(d1, d2, w, h, TilesAcross(h))
  }

  // ---------------------------------------------------------------------
  // Properties of the marks

  lemma TileRectInjective(x1: nat, y1: nat, x2: nat, y2: nat)
    requires TileRect(x1, y1) == TileRect(x2, y2)
    ensures x1 == x2 && y1 == y2
  {
  }

  lemma {:induction false} RowMarksMembership(d1: seq<Byte>, d2: seq<Byte>, w: nat, h: nat, ty: nat, n: nat,
                                              x: nat, y: nat)
    requires WellSized(d1, d2, w, h)
    ensures TileRect(x, y) in RowMarks(d1, d2, w, h, ty, n)
      <==> x % BlockSize == 0 && x < BlockSize * n && y == BlockSize * ty && TileChanged(d1, d2, w, h, x, y)
  {
    if n > 0 {
      RowMarksMembership(d1, d2, w, h, ty, n - 1, x, y);
      if TileRect(x, y) == TileRect(BlockSize * (n - 1), BlockSize * ty) {
        TileRectInjective(x, y, BlockSize * (n - 1), BlockSize * ty);
      }
    }
  }

  lemma {:induction false} GridMarksMembership(d1: seq<Byte>, d2: seq<Byte>, w: nat, h: nat, m: nat, x: nat, y: nat)
    requires WellSized(d1, d2, w, h)
    ensures TileRect(x, y) in GridMarks(d1, d2, w, h, m)
      <==> x % BlockSize == 0 && x < w && y % BlockSize == 0 && y < BlockSize * m && TileChanged(d1, d2, w, h, x, y)
  {
    if m > 0 {
      GridMarksMembership(d1, d2, w, h, m - 1, x, y);
      RowMarksMembership(d1, d2, w, h, m - 1, TilesAcross(w), x, y);
      TilesAcrossCover(w, x);
      NextTileRow(m, y);
      assert GridMarks(d1, d2, w, h, m) == GridMarks(d1, d2, w, h, m - 1) + RowMarks(d1, d2, w, h, m - 1, TilesAcross(w));
    }
  }

  /** A tile origin lies in the first TilesAcross(w) tiles exactly when it
      lies inside the width. */
  lemma TilesAcrossCover(w: nat, x: nat)
    ensures x % BlockSize == 0 ==> (x < BlockSize * TilesAcross(w) <==> x < w)
  {
  }

  /** The tile origins above row m are those above row m - 1 and the
      origin of row m - 1 itself. */
  lemma NextTileRow(m: nat, y: nat)
    requires m > 0
    ensures y % BlockSize == 0 && y < BlockSize * m <==>
      (y % BlockSize == 0 && y < BlockSize * (m - 1)) || y == BlockSize * (m - 1)
  {
  }

  /** A tile is marked exactly when it is a tile of the frame holding a
      pixel whose channel-difference sum exceeds the threshold. */
  lemma MarkedIffTileChanged(d1: seq<Byte>, d2: seq<Byte>, w: nat, h: nat, x: nat, y: nat)
    requires WellSized(d1, d2, w, h)
    ensures TileRect(x, y) in Marks(d1, d2, w, h) <==> IsTileOrigin(w, h, x, y) && TileChanged(d1, d2, w, h, x, y)
  {
    GridMarksMembership(d1, d2, w, h, TilesAcross(h), x, y);
    assert y % BlockSize == 0 ==> (y < BlockSize * TilesAcross(h) <==> y < h);
  }

  lemma {:induction false} RowMarksAreTiles(d1: seq<Byte>, d2: seq<Byte>, w: nat, h: nat, ty: nat, n: nat, r: Rect)
    requires WellSized(d1, d2, w, h)
    requires r in RowMarks(d1, d2, w, h, ty, n)
    ensures exists x: nat :: r == TileRect(x, BlockSize * ty)
  {
    if r !in RowMarks(d1, d2, w, h, ty, n - 1) {
      assert r == TileRect(BlockSize * (n - 1), BlockSize * ty);
    } else {
      RowMarksAreTiles(d1, d2, w, h, ty, n - 1, r);
    }
  }

  lemma {:induction false} GridMarksAreTiles(d1: seq<Byte>, d2: seq<Byte>, w: nat, h: nat, m: nat, r: Rect)
    requires WellSized(d1, d2, w, h)
    requires r in GridMarks(d1, d2, w, h, m)
    ensures exists x: nat, y: nat :: r == TileRect(x, y)
  {
    if r in GridMarks(d1, d2, w, h, m - 1) {
      GridMarksAreTiles(d1, d2, w, h, m - 1, r);
    } else {
      RowMarksAreTiles(d1, d2, w, h, m - 1, TilesAcross(w), r);
    }
  }

  /** Every mark is the square of a changed tile of the frame. */
  lemma MarksAreChangedTiles(d1: seq<Byte>, d2: seq<Byte>, w: nat, h: nat, r: Rect)
    requires WellSized(d1, d2, w, h)
    requires r in Marks(d1, d2, w, h)
    ensures exists x: nat, y: nat :: r == TileRect(x, y) && IsTileOrigin(w, h, x, y) && TileChanged(d1, d2, w, h, x, y)
  {
    GridMarksAreTiles(d1, d2, w, h, TilesAcross(h), r);
    var x: nat, y: nat :| r == TileRect(x, y);
    MarkedIffTileChanged(d1, d2, w, h, x, y);
  }

  /** The origin of the tile holding coordinate p. */
  function TileOrigin(p: nat): (x: nat)
    ensures x % BlockSize == 0 && x <= p < x + BlockSize
  {
    p - p % BlockSize
  }

  /** A changed pixel always gets its tile marked. */
  lemma ChangedPixelIsMarked(d1: seq<Byte>, d2: seq<Byte>, w: nat, h: nat, px: nat, py: nat)
    requires WellSized(d1, d2, w, h) && px < w && py < h
    requires PixelChanged(d1, d2, w, h, px, py)
    ensures TileRect(TileOrigin(px), TileOrigin(py)) in Marks(d1, d2, w, h)
  {
    var x, y := TileOrigin(px), TileOrigin(py);
    assert TileChanged(d1, d2, w, h, x, y);
    MarkedIffTileChanged(d1, d2, w, h, x, y);
  }

  /** Nothing is marked exactly when no pixel of the frame differs by more
      than the threshold. */
  lemma NoMarksIffNoChangedPixel(d1: seq<Byte>, d2: seq<Byte>, w: nat, h: nat)
    requires WellSized(d1, d2, w, h)
    ensures Marks(d1, d2, w, h) == []
      <==> forall px: nat, py: nat :: px < w && py < h ==> !PixelChanged(d1, d2, w, h, px, py)
  {
    if Marks(d1, d2, w, h) != [] {
      MarksAreChangedTiles(d1, d2, w, h, Marks(d1, d2, w, h)[0]);
    } else {
      forall px: nat, py: nat | px < w && py < h
        ensures !PixelChanged(d1, d2, w, h, px, py)
      {
        if PixelChanged(d1, d2, w, h, px, py) {
          ChangedPixelIsMarked(d1, d2, w, h, px, py);
        }
      }
    }
  }

  /** Identical buffers mark nothing. */
  lemma IdenticalBuffersMarkNothing(d: seq<Byte>, w: nat, h: nat)
    requires |d| == 4 * w * h
    ensures Marks(d, d, w, h) == []
  {
    NoMarksIffNoChangedPixel(d, d, w, h);
  }

  /** The comparison is strict and alpha is not read: a one-pixel frame
      whose colour moved by exactly 30 in sum, and whose alpha moved by
      255, is not marked. */
  lemma ExactThresholdNotMarked()
    ensures Marks([0, 0, 0, 255], [10, 10, 10, 0], 1, 1) == []
  {
    var d1: seq<Byte>, d2: seq<Byte> := [0, 0, 0, 255], [10, 10, 10, 0];
    assert ChannelDelta(d1, d2, PixelIndex(1, 0, 0)) == 30;
    NoMarksIffNoChangedPixel(d1, d2, 1, 1);
  }

  /** One more unit of difference marks the single tile. */
  lemma OneAboveThresholdMarked()
    ensures Marks([0, 0, 0, 255], [10, 10, 11, 255], 1, 1) == [TileRect(0, 0)]
  {
    var d1: seq<Byte>, d2: seq<Byte> := [0, 0, 0, 255], [10, 10, 11, 255];
    assert PixelChanged(d1, d2, 1, 1, 0, 0);
    assert TileChanged(d1, d2, 1, 1, 0, 0);
    assert TilesAcross(1) == 1;
    assert RowMarks(d1, d2, 1, 1, 0, 1) == [TileRect(0, 0)];
  }

  /** Marks depend on the buffers only through which tiles changed. */
  lemma {:induction false} RowMarksFromTiles(d1: seq<Byte>, d2: seq<Byte>, e1: seq<Byte>, e2: seq<Byte>,
                                             w: nat, h: nat, ty: nat, n: nat)
    requires WellSized(d1, d2, w, h) && WellSized(e1, e2, w, h)
    requires forall x: nat :: TileChanged(d1, d2, w, h, x, BlockSize * ty) == TileChanged(e1, e2, w, h, x, BlockSize * ty)
    ensures RowMarks(d1, d2, w, h, ty, n) == RowMarks(e1, e2, w, h, ty, n)
  {
    if n > 0 {
      RowMarksFromTiles(d1, d2, e1, e2, w, h, ty, n - 1);
      assert TileChanged(d1, d2, w, h, BlockSize * (n - 1), BlockSize * ty)
          == TileChanged(e1, e2, w, h, BlockSize * (n - 1), BlockSize * ty);
    }
  }

  lemma {:induction false} GridMarksFromTiles(d1: seq<Byte>, d2: seq<Byte>, e1: seq<Byte>, e2: seq<Byte>,
                                              w: nat, h: nat, m: nat)
    requires WellSized(d1, d2, w, h) && WellSized(e1, e2, w, h)
    requires forall x: nat, y: nat :: TileChanged(d1, d2, w, h, x, y) == TileChanged(e1, e2, w, h, x, y)
    ensures GridMarks(d1, d2, w, h, m) == GridMarks(e1, e2, w, h, m)
  {
    if m > 0 {
      GridMarksFromTiles(d1, d2, e1, e2, w, h, m - 1);
      RowMarksFromTiles(d1, d2, e1, e2, w, h, m - 1, TilesAcross(w));
    }
  }

  /** Buffers that agree on every red, green and blue byte are marked
      alike: the alpha bytes are never compared. */
  lemma AlphaIsIgnored(d1: seq<Byte>, d2: seq<Byte>, e1: seq<Byte>, e2: seq<Byte>, w: nat, h: nat)
    requires WellSized(d1, d2, w, h) && WellSized(e1, e2, w, h)
    requires forall i :: 0 <= i < |d1| && i % 4 != 3 ==> d1[i] == e1[i] && d2[i] == e2[i]
    ensures Marks(d1, d2, w, h) == Marks(e1, e2, w, h)
  {
    forall px: nat, py: nat | px < w && py < h
      ensures PixelChanged(d1, d2, w, h, px, py) == PixelChanged(e1, e2, w, h, px, py)
    {
      PixelIndexInBounds(w, h, px, py);
      var idx := PixelIndex(w, px, py);
      assert idx % 4 == 0;
      assert (idx + 1) % 4 == 1 && (idx + 2) % 4 == 2;
      assert d1[idx] == e1[idx] && d2[idx] == e2[idx];
      assert d1[idx + 1] == e1[idx + 1] && d2[idx + 1] == e2[idx + 1];
      assert d1[idx + 2] == e1[idx + 2] && d2[idx + 2] == e2[idx + 2];
    }
    forall x: nat, y: nat
      ensures TileChanged(d1, d2, w, h, x, y) == TileChanged(e1, e2, w, h, x, y)
    {
    }
    GridMarksFromTiles(d1, d2, e1, e2, w, h, TilesAcross(h));
  }

  // ---------------------------------------------------------------------
  // The scan itself, over the two image-data arrays

  /** The four nested loops of the overlay, with the early exits taken as
      soon as a tile is known to hold a changed pixel. */
  method ScanBlocks(data1: array<Byte>, data2: array<Byte>, w: nat, h: nat) returns (marks: seq<Rect>)
    requires data1.Length == 4 * w * h && data2.Length == 4 * w * h
    ensures marks == Marks(data1[..], data2[..], w, h)
  {
    ghost var d1, d2 := data1[..], data2[..];
    marks := [];
    var y := 0;
    ghost var ty := 0;
    while y < h
      invariant y == BlockSize * ty && ty <= TilesAcross(h)
      invariant marks == GridMarks(d1, d2, w, h, ty)
    {
      var x := 0;
      ghost var tx := 0;
      while x < w
        invariant x == BlockSize * tx && tx <= TilesAcross(w)
        invariant marks == GridMarks(d1, d2, w, h, ty) + RowMarks(d1, d2, w, h, ty, tx)
      {
        var hasDiff := false;
        var dy := 0;
        while dy < BlockSize && y + dy < h
          invariant 0 <= dy <= BlockSize && !hasDiff
          invariant forall px: nat, py: nat :: x <= px < x + BlockSize && px < w && y <= py < y + dy && py < h
                      ==> !PixelChanged(d1, d2, w, h, px, py)
        {
          var dx := 0;
          ghost var row := y + dy;
          while dx < BlockSize && x + dx < w
            invariant 0 <= dx <= BlockSize && !hasDiff
            invariant x + dx <= w && row < h
            invariant forall px: nat :: x <= px < x + dx ==> !PixelChanged(d1, d2, w, h, px, row)
          {
            var idx := ((y + dy) * w + (x + dx)) * 4;
            PixelIndexInBounds(w, h, x + dx, y + dy);
            var rDiff := Abs(data1[idx] as int - data2[idx] as int);
            var gDiff := Abs(data1[idx + 1] as int - data2[idx + 1] as int);
            var bDiff := Abs(data1[idx + 2] as int - data2[idx + 2] as int);
            if rDiff + gDiff + bDiff > Threshold {
              assert PixelChanged(d1, d2, w, h, x + dx, y + dy);
              assert TileChanged(d1, d2, w, h, x, y);
              hasDiff := true;
              break;
            }
            dx := dx + 1;
          }
          if hasDiff {
            break;
          }
          dy := dy + 1;
        }
        assert hasDiff <==> TileChanged(d1, d2, w, h, x, y);
        if hasDiff {
          marks := marks + [TileRect(x, y)];
        }
        x := x + BlockSize;
        tx := tx + 1;
      }
      y := y + BlockSize;
      ty := ty + 1;
    }
  }

  /** What the overlay shows: a canvas the size of the original, the crop
      bands when the edited image is smaller on some axis, one square per
      changed tile, and whether the loading spinner was cleared. */
  datatype DiffView = DiffView(canvasWidth: nat, canvasHeight: nat, crop: Option<CropOverlay>,
                               marks: seq<Rect>, loaded: bool)

  /** The analysis run once both images have loaded. data1 and data2 are
      the two images drawn into w x h canvases. Reading the pixels of an
      empty canvas (an original under 10 pixels on a side) throws: the crop
      bands are drawn by then, no tile is scanned and the spinner stays. */
  method ProcessDiff(
    originalMeta: ImageMetadata, editedMeta: ImageMetadata,
    data1: array<Byte>, data2: array<Byte>, w: nat, h: nat)
    returns (view: DiffView)
    requires data1.Length == 4 * w * h && data2.Length == 4 * w * h
    ensures view.canvasWidth == originalMeta.width && view.canvasHeight == originalMeta.height
    ensures view.crop == DetectCrop(originalMeta.width, originalMeta.height, editedMeta.width, editedMeta.height)
    ensures view.loaded <==> w > 0 && h > 0
    ensures view.loaded ==> view.marks == Marks(data1[..], data2[..], w, h)
    ensures !view.loaded ==> view.marks == []
  {
    var crop := DetectCrop(originalMeta.width, originalMeta.height, editedMeta.width, editedMeta.height);
    if w == 0 || h == 0 {
      return DiffView(originalMeta.width, originalMeta.height, crop, [], false);
    }
    var marks := ScanBlocks(data1, data2, w, h);
    view := DiffView(originalMeta.width, originalMeta.height, crop, marks, true);
  }
}
