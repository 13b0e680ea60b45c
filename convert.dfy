/** The conversion pipeline's in-memory part: allocate a grayscale buffer
    with the source's bounds and fill it, row by row, with the mapper's
    value for every source sample. */
module Conversion {
  import opened Colors
  import opened Raster
  import opened Mappers

  /** What `image.Gray.Set` stores for a mapper's result: a gray value is
      stored unchanged; any other colour goes through the colour model's
      luminance weighting, which is the parameter `luminance` here. */
  function GrayModel(m: Mapped, luminance: Color -> Byte): Byte
  {
    match m
    case Gray(y) => y
    case Sample(c) => luminance(c)
  }

  /** The intensity `convert` leaves at point p of the output. */
  function Converted(img: Image, mapper: Color -> Mapped, luminance: Color -> Byte, p: Point): Byte
    requires img.Valid() && img.bounds.Contains(p)
  {
    GrayModel(mapper(img.At(p)), luminance)
  }

  /** Go's `image.Gray`: a rectangle and one 8-bit intensity per point,
      the point (x, y) stored at pix[x - rect.min.x, y - rect.min.y]. */
  class GrayImage {
    const rect: Rectangle
    const pix: array2<Byte>

    ghost predicate Valid()
      reads this
    {
      rect.WellFormed() && pix.Length0 == rect.Dx() && pix.Length1 == rect.Dy()
    }

    /** `image.NewGray(r)`: a zeroed buffer with bounds r. */
    constructor (r: Rectangle)
      requires r.WellFormed()
      ensures rect == r && Valid() && fresh(pix)
      ensures forall i, j :: 0 <= i < pix.Length0 && 0 <= j < pix.Length1 ==> pix[i, j] == 0
    {
      rect := r;
      pix := new Byte[r.Dx(), r.Dy()]((i, j) => 0);
    }

    /** `GrayAt(x, y).Y`: the intensity at p, and 0 outside the bounds. */
    function GrayAt(p: Point): Byte
      requires Valid()
      reads this, pix
    {
      if rect.Contains(p) then pix[p.x - rect.min.x, p.y - rect.min.y] else 0
    }

    /** `Set(x, y, c)`: store the gray value of c at (x, y); a point
        outside the bounds is ignored. */
    method Set(x: int, y: int, c: Mapped, luminance: Color -> Byte)
      requires Valid()
      modifies pix
      ensures forall i, j :: 0 <= i < pix.Length0 && 0 <= j < pix.Length1 ==>
        pix[i, j] == if rect.Contains(Point(x, y)) && i == x - rect.min.x && j == y - rect.min.y
                     then GrayModel(c, luminance) else old(pix[i, j])
    {
      if rect.Contains(Point(x, y)) {
        pix[x - rect.min.x, y - rect.min.y] := GrayModel(c, luminance);
      }
    }
  }

  /** `convert`'s allocate-and-fill: a fresh buffer with the source's
      bounds, every in-bounds point holding the mapped intensity of the
      source sample there. The ghost `visited` records the points in the
      order the loops reach them: exactly the row-major order of the
      bounds, so each point is visited once (RowMajorVisitsEachOnce). */
  method Convert(img: Image, mapper: Color -> Mapped, luminance: Color -> Byte)
    returns (gray: GrayImage, ghost visited: seq<Point>)
    requires img.Valid()
    ensures fresh(gray) && fresh(gray.pix) && gray.Valid()
    ensures gray.rect == img.bounds
    ensures gray.pix.Length0 == img.bounds.Dx() && gray.pix.Length1 == img.bounds.Dy()
    ensures forall p :: img.bounds.Contains(p) ==> gray.GrayAt(p) == Converted(img, mapper, luminance, p)
    ensures visited == RowMajor(img.bounds)
  {
    var b := img.bounds;
    gray := new GrayImage(b);
    visited := [];
    var y := b.min.y;
    while y < b.max.y
      invariant b.min.y <= y <= b.max.y
      invariant gray.rect == b && gray.Valid() && fresh(gray.pix)
      invariant visited == Rows(b, y)
      invariant forall i, j :: 0 <= i < b.Dx() && 0 <= j < b.Dy() ==>
        gray.pix[i, j] == if j < y - b.min.y then Converted(img, mapper, luminance, Point(b.min.x + i, b.min.y + j)) else 0
    {
      var x := b.min.x;
      while x < b.max.x
        invariant b.min.x <= x <= b.max.x
        invariant gray.rect == b && gray.Valid() && fresh(gray.pix)
        invariant visited == Rows(b, y) + Row(y, b.min.x, x)
        invariant forall i, j :: 0 <= i < b.Dx() && 0 <= j < b.Dy() ==>
          gray.pix[i, j] == if j < y - b.min.y || (j == y - b.min.y && i < x - b.min.x)
                            then Converted(img, mapper, luminance, Point(b.min.x + i, b.min.y + j)) else 0
      {
        gray.Set(x, y, mapper(img.At(Point(x, y))), luminance);
        visited := visited + [Point(x, y)];
        x := x + 1;
      }
      y := y + 1;
    }
    forall p | b.Contains(p)
      ensures gray.GrayAt(p) == Converted(img, mapper, luminance, p)
    {
      assert p == Point(b.min.x + (p.x - b.min.x), b.min.y + (p.y - b.min.y));
    }
  }

  /** A mapper that returns a gray value has it stored unchanged, whatever
      the colour model's luminance weighting: the four gray-valued mappers
      put their own result into the buffer. */
  lemma GrayMappersBypassLuminance(img: Image, luminance: Color -> Byte, p: Point)
    requires img.Valid() && img.bounds.Contains(p)
    ensures Converted(img, AvgGray, luminance, p) == ((img.At(p).r + img.At(p).g + img.At(p).b) / 3) / 0x100
    ensures Converted(img, RedGray, luminance, p) == img.At(p).r / 0x100
    ensures Converted(img, GreenGray, luminance, p) == img.At(p).g / 0x100
    ensures Converted(img, BlueGray, luminance, p) == img.At(p).b / 0x100
  {
  }

  /** The standard mapper leaves the intensity to the colour model. */
  lemma StdGrayUsesLuminance(img: Image, luminance: Color -> Byte, p: Point)
    requires img.Valid() && img.bounds.Contains(p)
    ensures Converted(img, StdGray, luminance, p) == luminance(img.At(p))
  {
  }
}
