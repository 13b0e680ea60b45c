/** Raster geometry: points, bounding rectangles, the decoded source image,
    and the row-major order in which `convert` visits a rectangle. */
module Raster {
  import opened Colors

  datatype Point = Point(x: int, y: int)

  /** Go's `image.Rectangle`: the half-open box [min.x, max.x) x [min.y, max.y). */
  datatype Rectangle = Rectangle(min: Point, max: Point) {

    /** Not inverted on either axis; an empty box (min == max on an axis)
        is allowed. */
    predicate WellFormed()
    {
      min.x <= max.x && min.y <= max.y
    }

    function Dx(): int
    {
      max.x - min.x
    }

    function Dy(): int
    {
      max.y - min.y
    }

    predicate Contains(p: Point)
    {
      min.x <= p.x < max.x && min.y <= p.y < max.y
    }
  }

  /** An already decoded source image: its bounds and one row of colour
      samples per y, each row holding one sample per x, both counted from
      the bounds' minimum. */
  datatype Image = Image(bounds: Rectangle, rows: seq<seq<Color>>) {

    predicate Valid()
    {
      && bounds.WellFormed()
      && |rows| == bounds.Dy()
      && forall j :: 0 <= j < |rows| ==> |rows[j]| == bounds.Dx()
    }

    /** `img.At(x, y)`, in bounds. */
    function At(p: Point): Color
      requires Valid() && bounds.Contains(p)
    {
      rows[p.y - bounds.min.y][p.x - bounds.min.x]
    }
  }

  /** p comes strictly before q in row-major order: an earlier row, or the
      same row and a smaller x. */
  predicate Before(p: Point, q: Point)
  {
    p.y < q.y || (p.y == q.y && p.x < q.x)
  }

  /** The points (x0, y), ..., (x1 - 1, y) of one row, left to right. */
  function Row(y: int, x0: int, x1: int): seq<Point>
    decreases x1 - x0
  {
    if x1 <= x0 then [] else Row(y, x0, x1 - 1) + [Point(x1 - 1, y)]
  }

  /** Every point of the rows min.y .. y1 - 1 of r, row by row. */
  function Rows(r: Rectangle, y1: int): seq<Point>
    decreases y1 - r.min.y
  {
    if y1 <= r.min.y then [] else Rows(r, y1 - 1) + Row(y1 - 1, r.min.x, r.max.x)
  }

  /** The order in which the nested loops of `convert` visit r. */
  function RowMajor(r: Rectangle): seq<Point>
  {
    Rows(r, r.max.y)
  }

  predicate StrictlyRowMajor(s: seq<Point>)
  {
    forall i, j :: 0 <= i < j < |s| ==> Before(s[i], s[j])
  }

  /** A row holds exactly the points of that row between x0 and x1, the
      point (x, y) at index x - x0, in increasing x. */
  lemma {:induction false} RowShape(y: int, x0: int, x1: int)
    requires x0 <= x1
    ensures |Row(y, x0, x1)| == x1 - x0
    ensures forall i :: 0 <= i < x1 - x0 ==> Row(y, x0, x1)[i] == Point(x0 + i, y)
    decreases x1 - x0
  {
    if x0 < x1 {
      RowShape(y, x0, x1 - 1);
    }
  }

  /** The first rows of r, up to y1, hold Dx points per row. */
  lemma {:induction false} RowsLength(r: Rectangle, y1: int)
    requires r.WellFormed() && r.min.y <= y1
    ensures |Rows(r, y1)| == (y1 - r.min.y) * r.Dx()
    decreases y1 - r.min.y
  {
    if r.min.y < y1 {
      RowsLength(r, y1 - 1);
      RowShape(y1 - 1, r.min.x, r.max.x);
      assert (y1 - r.min.y) * r.Dx() == (y1 - 1 - r.min.y) * r.Dx() + r.Dx();
    }
  }

  /** Every point of the first rows of r lies inside r, below y1. */
  lemma {:induction false} RowsInBounds(r: Rectangle, y1: int)
    requires r.WellFormed() && r.min.y <= y1
    ensures forall i :: 0 <= i < |Rows(r, y1)| ==>
      r.min.y <= Rows(r, y1)[i].y < y1 && r.min.x <= Rows(r, y1)[i].x < r.max.x
    decreases y1 - r.min.y
  {
    if r.min.y < y1 {
      RowsInBounds(r, y1 - 1);
      RowShape(y1 - 1, r.min.x, r.max.x);
    }
  }

  /** In the first rows of r, the point (x, y) sits at index
      (y - min.y) * Dx + (x - min.x). */
  lemma {:induction false} RowsIndex(r: Rectangle, y1: int, p: Point)
    requires r.WellFormed() && r.min.y <= y1
    requires r.min.y <= p.y < y1 && r.min.x <= p.x < r.max.x
    ensures 0 <= (p.y - r.min.y) * r.Dx() + (p.x - r.min.x) < |Rows(r, y1)|
    ensures Rows(r, y1)[(p.y - r.min.y) * r.Dx() + (p.x - r.min.x)] == p
    decreases y1 - r.min.y
  {
    var prev := Rows(r, y1 - 1);
    var row := Row(y1 - 1, r.min.x, r.max.x);
    RowsLength(r, y1 - 1);
    RowShape(y1 - 1, r.min.x, r.max.x);
    assert Rows(r, y1) == prev + row;
    var k := (p.y - r.min.y) * r.Dx() + (p.x - r.min.x);
    if p.y < y1 - 1 {
      RowsIndex(r, y1 - 1, p);
      assert (prev + row)[k] == prev[k];
    } else {
      assert k == |prev| + (p.x - r.min.x);
      assert (prev + row)[k] == row[p.x - r.min.x];
    }
  }

  /** Rows produces the points in strictly increasing row-major order. */
  lemma {:induction false} RowsOrdered(r: Rectangle, y1: int)
    requires r.WellFormed() && r.min.y <= y1
    ensures StrictlyRowMajor(Rows(r, y1))
    decreases y1 - r.min.y
  {
    if r.min.y < y1 {
      var prev := Rows(r, y1 - 1);
      var row := Row(y1 - 1, r.min.x, r.max.x);
      RowsOrdered(r, y1 - 1);
      RowsInBounds(r, y1 - 1);
      RowShape(y1 - 1, r.min.x, r.max.x);
      var s := prev + row;
      forall i, j | 0 <= i < j < |s|
        ensures Before(s[i], s[j])
      {
        if j < |prev| {
          assert Before(prev[i], prev[j]);
        } else if i < |prev| {
          assert prev[i].y < y1 - 1 && s[j] == row[j - |prev|];
        } else {
          assert s[i] == row[i - |prev|] && s[j] == row[j - |prev|];
        }
      }
    }
  }

  /** The traversal of a well-formed rectangle visits exactly its points,
      each once: it has Dx * Dy entries, all inside r, strictly increasing
      in row-major order (so none repeats), and the point (x, y) is entry
      (y - min.y) * Dx + (x - min.x). */
  lemma RowMajorVisitsEachOnce(r: Rectangle)
    requires r.WellFormed()
    ensures |RowMajor(r)| == r.Dx() * r.Dy()
    ensures forall i :: 0 <= i < |RowMajor(r)| ==> r.Contains(RowMajor(r)[i])
    ensures StrictlyRowMajor(RowMajor(r))
    ensures forall p :: r.Contains(p) ==>
      0 <= (p.y - r.min.y) * r.Dx() + (p.x - r.min.x) < |RowMajor(r)| &&
      RowMajor(r)[(p.y - r.min.y) * r.Dx() + (p.x - r.min.x)] == p
  {
    RowsLength(r, r.max.y);
    RowsInBounds(r, r.max.y);
    RowsOrdered(r, r.max.y);
    forall p | r.Contains(p)
      ensures 0 <= (p.y - r.min.y) * r.Dx() + (p.x - r.min.x) < |RowMajor(r)|
      ensures RowMajor(r)[(p.y - r.min.y) * r.Dx() + (p.x - r.min.x)] == p
    {
      RowsIndex(r, r.max.y, p);
    }
  }

  /** A rectangle with min >= max on some axis is not visited at all: the
      outer loop does not run, or every inner loop is empty. */
  lemma {:induction false} EmptyRectangleNotVisited(r: Rectangle)
    requires r.Dx() <= 0 || r.Dy() <= 0
    ensures RowMajor(r) == []
  {
    if r.Dx() <= 0 {
      NarrowRowsEmpty(r, r.max.y);
    }
  }

  /** With no columns, every row of the traversal is empty. */
  lemma {:induction false} NarrowRowsEmpty(r: Rectangle, y1: int)
    requires r.Dx() <= 0
    ensures Rows(r, y1) == []
    decreases y1 - r.min.y
  {
    if r.min.y < y1 {
      NarrowRowsEmpty(r, y1 - 1);
    }
  }
}
