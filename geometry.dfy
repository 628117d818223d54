/** Points, boxes and grid cells used by the tile cutter.
    Coordinates are mathematical reals: the double-precision rounding of the
    original is not modelled. */
module Geometry {

  /** A 2D point: the ground projection of a box centre. */
  datatype Point = Point(x: real, y: real)

  /** An axis-aligned 3D bounding box together with the identifier of the
      feature it bounds (a `BoundingBox3D`). */
  datatype Box3 = Box3(id: string, xmin: real, ymin: real, zmin: real,
                       xmax: real, ymax: real, zmax: real)
  {
    /** Each axis has its minimum below its maximum. */
    ghost predicate WellFormed() {
      xmin <= xmax && ymin <= ymax && zmin <= zmax
    }
  }

  /** A 2D axis-aligned rectangle (a `BoundingBox`): a grid cell or the
      overall extent of the input. */
  datatype Rect = Rect(xmin: real, ymin: real, xmax: real, ymax: real)

  /** The ground projection of the centre of a box (`GetCenter`). */
  function Center(b: Box3): (c: Point)
    ensures c.x - b.xmin == b.xmax - c.x && c.y - b.ymin == b.ymax - c.y
    ensures b.WellFormed() ==> b.xmin <= c.x <= b.xmax && b.ymin <= c.y <= b.ymax
  {
    Point((b.xmin + b.xmax) / 2.0, (b.ymin + b.ymax) / 2.0)
  }

  /** Half-open containment (`BoundingBox.Inside`): the lower edges belong to
      the rectangle, the upper edges do not. */
  predicate Inside(r: Rect, p: Point) {
    r.xmin <= p.x < r.xmax && r.ymin <= p.y < r.ymax
  }

  /** The rectangle is a square of side `size`. */
  predicate IsSquare(r: Rect, size: real) {
    r.xmax - r.xmin == size && r.ymax - r.ymin == size
  }

  /** Cell (i, j) of the grid of side `size` anchored at the lower corner of
      `origin` (`B3dmTile.GetExtent`). */
  function GetExtent(origin: Rect, size: real, i: int, j: int): (r: Rect)
  {
    Rect(origin.xmin + i as real * size, origin.ymin + j as real * size,
         origin.xmin + (i + 1) as real * size, origin.ymin + (j + 1) as real * size)
  }

  /** Every grid cell is a square of side `size`. */
  lemma ExtentIsSquare(origin: Rect, size: real, i: int, j: int)
    ensures IsSquare(GetExtent(origin, size, i, j), size)
  {
    assert (i + 1) as real * size == i as real * size + size;
    assert (j + 1) as real * size == j as real * size + size;
  }

  /** `Math.Ceiling`, returned as an integer as the source's `(int)` cast does. */
  function Ceil(r: real): (c: int)
    ensures r <= c as real < r + 1.0
  {
    var f := r.Floor;
    if f as real == r then f else f + 1
  }

  function Min(a: real, b: real): real { if a <= b then a else b }
  function Max(a: real, b: real): real { if a <= b then b else a }

  /** The 2D projection of the smallest box enclosing every box
      (`BoundingBoxCalculator.GetBoundingBox` followed by `ToBoundingBox`).
      The empty input gives the zero rectangle. */
  function Envelope(boxes: seq<Box3>): Rect
  {
    if |boxes| == 0 then Rect(0.0, 0.0, 0.0, 0.0)
    else if |boxes| == 1 then Rect(boxes[0].xmin, boxes[0].ymin, boxes[0].xmax, boxes[0].ymax)
    else
      var e, b := Envelope(boxes[..|boxes| - 1]), boxes[|boxes| - 1];
      Rect(Min(e.xmin, b.xmin), Min(e.ymin, b.ymin), Max(e.xmax, b.xmax), Max(e.ymax, b.ymax))
  }

  /** The envelope encloses every box. */
  lemma {:induction false} EnvelopeEncloses(boxes: seq<Box3>)
    ensures forall b :: b in boxes ==>
              var r := Envelope(boxes);
              r.xmin <= b.xmin && b.xmax <= r.xmax && r.ymin <= b.ymin && b.ymax <= r.ymax
  {
    if |boxes| > 1 {
      var init, last := boxes[..|boxes| - 1], boxes[|boxes| - 1];
      assert boxes == init + [last];
      EnvelopeEncloses(init);
    }
  }

  /** Each edge of the envelope of a non-empty input is the same edge of
      some box. */
  lemma {:induction false} EnvelopeEdges(boxes: seq<Box3>)
    requires |boxes| > 0
    ensures exists b :: b in boxes && b.xmin == Envelope(boxes).xmin
    ensures exists b :: b in boxes && b.ymin == Envelope(boxes).ymin
    ensures exists b :: b in boxes && b.xmax == Envelope(boxes).xmax
    ensures exists b :: b in boxes && b.ymax == Envelope(boxes).ymax
  {
    if |boxes| == 1 {
      assert boxes[0] in boxes;
    } else {
      var init, last := boxes[..|boxes| - 1], boxes[|boxes| - 1];
      assert boxes == init + [last];
      assert last in boxes;
      EnvelopeEdges(init);
      var e := Envelope(init);
      if e.xmin <= last.xmin { var w :| w in init && w.xmin == e.xmin; assert w in boxes; }
      if e.ymin <= last.ymin { var w :| w in init && w.ymin == e.ymin; assert w in boxes; }
      if e.xmax >= last.xmax { var w :| w in init && w.xmax == e.xmax; assert w in boxes; }
      if e.ymax >= last.ymax { var w :| w in init && w.ymax == e.ymax; assert w in boxes; }
    }
  }

  /** A point lies in grid cell (i, j) exactly when i and j are the floors of
      its offsets from the origin measured in cells: every point has one cell,
      and a point on a shared edge belongs only to the cell whose lower edge it is. */
  lemma CellIndex(origin: Rect, size: real, i: int, j: int, p: Point)
    requires size > 0.0
    ensures Inside(GetExtent(origin, size, i, j), p) <==>
              i == ((p.x - origin.xmin) / size).Floor && j == ((p.y - origin.ymin) / size).Floor
  {
    FloorOfQuotient(p.x - origin.xmin, size, i);
    FloorOfQuotient(p.y - origin.ymin, size, j);
  }

  lemma FloorOfQuotient(d: real, size: real, i: int)
    requires size > 0.0
    ensures (i as real * size <= d < (i + 1) as real * size) <==> i == (d / size).Floor
  {
    var q := d / size;
    ScaledLe(i as real, d, size);
    ScaledLt(d, (i + 1) as real, size);
    assert (i as real <= q < (i + 1) as real) <==> i == q.Floor;
  }

  /** Dividing by a positive size keeps the order. */
  lemma ScaledLe(a: real, d: real, size: real)
    requires size > 0.0
    ensures a * size <= d <==> a <= d / size
  {
    var q := d / size;
    assert d == q * size;
    if a <= q { assert (q - a) * size >= 0.0; }
    if q < a { assert (a - q) * size > 0.0; }
  }

  lemma ScaledLt(d: real, b: real, size: real)
    requires size > 0.0
    ensures d < b * size <==> d / size < b
  {
    var q := d / size;
    assert d == q * size;
    if q < b { assert (b - q) * size > 0.0; }
    if b <= q { assert (q - b) * size >= 0.0; }
  }
}
