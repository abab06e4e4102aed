/** The affine correspondence between a tile's geographic box and its pixel
    grid: the rasteriser's clamped GPS-to-pixel map and the brute-force loop's
    pixel-to-GPS map. */
module Mapping {
  import opened Numeric
  import opened Geo
  import opened Grid

  /** A tile: its geographic box rendered onto `h` rows and `w` columns. */
  datatype Frame = Frame(box: Box, h: int, w: int) {

    /** The raster has at least one pixel, so `gps / w` and `gps / h` are
        defined. */
    predicate Sized() {
      1 <= h && 1 <= w
    }

    /** The GPS-to-pixel map is defined: the raster is non-empty and neither
        extent of the box is zero. */
    predicate Valid() {
      Sized() && box.Nondegenerate()
    }

    /** Longitude covered by one pixel column, `w_dot = gps_w / w`. */
    function WDot(): real
      requires Sized()
    {
      box.GpsW() / w as real
    }

    /** Latitude covered by one pixel row, `h_dot = gps_h / h`. */
    function HDot(): real
      requires Sized()
    {
      box.GpsH() / h as real
    }

    /** The unclamped fractional row of a coordinate, from its latitude. */
    function RowPos(c: Coord): real
      requires Valid()
    {
      (c.y - box.ul.y) / HDot()
    }

    /** The unclamped fractional column of a coordinate, from its longitude. */
    function ColPos(c: Coord): real
      requires Valid()
    {
      (c.x - box.ul.x) / WDot()
    }
  }

  /** The rasteriser's `coord2px`: latitude selects the row and longitude the
      column, each truncated by `int()` and clamped into the grid. The
      result is the pixel whose cell contains the coordinate, or the
      nearest border pixel when the coordinate lies outside the grid. */
  function ToPixel(f: Frame, c: Coord): (p: Pixel)
    requires f.Valid()
    ensures InGrid(p, f.h, f.w)
    ensures 0.0 <= f.RowPos(c) < f.h as real ==> p.row as real <= f.RowPos(c) < p.row as real + 1.0
    ensures f.RowPos(c) < 0.0 ==> p.row == 0
    ensures f.h as real <= f.RowPos(c) ==> p.row == f.h - 1
    ensures 0.0 <= f.ColPos(c) < f.w as real ==> p.col as real <= f.ColPos(c) < p.col as real + 1.0
    ensures f.ColPos(c) < 0.0 ==> p.col == 0
    ensures f.w as real <= f.ColPos(c) ==> p.col == f.w - 1
  {
    Pixel(ClampIndex(Trunc(f.RowPos(c)), f.h - 1), ClampIndex(Trunc(f.ColPos(c)), f.w - 1))
  }

  /** The geographic point the brute-force loop evaluates for pixel `p`:
      `(ul[0] + x * w_dot, ul[1] + y * h_dot)` with `x` the column and `y`
      the row. */
  function ToCoord(f: Frame, p: Pixel): Coord
    requires f.Sized()
  {
    Coord(f.box.ul.x + p.col as real * f.WDot(), f.box.ul.y + p.row as real * f.HDot())
  }

  /** The two maps agree: every pixel of the grid, sent to the geographic point
      the brute-force loop evaluates for it and back through the rasteriser's
      `coord2px`, is the same pixel. So distances and roads are registered on
      the same cells. */
  lemma ToPixelInvertsToCoord(f: Frame, p: Pixel)
    requires f.Valid()
    requires InGrid(p, f.h, f.w)
    ensures ToPixel(f, ToCoord(f, p)) == p
  {
    var c := ToCoord(f, p);
    assert c.y - f.box.ul.y == p.row as real * f.HDot();
    assert f.RowPos(c) == p.row as real;
    assert c.x - f.box.ul.x == p.col as real * f.WDot();
    assert f.ColPos(c) == p.col as real;
  }

  /** The rasterisation example of `test_plot` in tests/test_data.py: over the box
      (0,0)-(100,200) on a 200-row, 100-column raster, vertex (100,100) lands
      on row 100 and, clamped, on the last column 99; vertex (50,50) lands on
      (50,50). */
  lemma ToPixelExample()
    ensures var f := Frame(Box(Coord(0.0, 0.0), Coord(100.0, 200.0)), 200, 100);
            ToPixel(f, Coord(100.0, 100.0)) == Pixel(100, 99)
            && ToPixel(f, Coord(50.0, 50.0)) == Pixel(50, 50)
  {
    var f := Frame(Box(Coord(0.0, 0.0), Coord(100.0, 200.0)), 200, 100);
    UnitFrameToPixel(f, 100, 100);
    UnitFrameToPixel(f, 50, 50);
  }

  /** On the frame of the example, a whole-numbered coordinate maps to the
      pixel of the same numbers, clamped. */
  lemma UnitFrameToPixel(f: Frame, x: int, y: int)
    requires f == Frame(Box(Coord(0.0, 0.0), Coord(100.0, 200.0)), 200, 100)
    requires 0 <= x && 0 <= y < 200
    ensures ToPixel(f, Coord(x as real, y as real)) == Pixel(y, if x <= 99 then x else 99)
  {
    assert f.HDot() == 1.0 && f.WDot() == 1.0;
    assert f.RowPos(Coord(x as real, y as real)) == y as real;
    assert f.ColPos(Coord(x as real, y as real)) == x as real;
    TruncOfWhole(x);
    TruncOfWhole(y);
  }
}
