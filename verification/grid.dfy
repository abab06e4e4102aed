/** The raster: `h` rows of `w` real cells, row-major, origin at the top-left,
    together with the two whole-raster updates of the source: painting a set
    of pixels with one value, and the boost. */
module Grid {
  import opened Numeric

  /** A `(row, col)` index into a raster. */
  datatype Pixel = Pixel(row: int, col: int)

  type Raster = seq<seq<real>>

  /** `img` has exactly `h` rows of `w` cells each. */
  predicate IsGrid(img: Raster, h: int, w: int) {
    |img| == h && forall r :: 0 <= r < |img| ==> |img[r]| == w
  }

  predicate InGrid(p: Pixel, h: int, w: int) {
    0 <= p.row < h && 0 <= p.col < w
  }

  /** Two rasters have the same shape. */
  predicate SameShape(a: Raster, b: Raster) {
    |a| == |b| && forall r :: 0 <= r < |a| ==> |a[r]| == |b[r]|
  }

  /** `np.zeros((tile_height, tile_width))`: `h` rows of `w` zeros. */
  function CreateImage(w: nat, h: nat): (img: Raster)
    ensures IsGrid(img, h, w)
    ensures forall r, c :: 0 <= r < h && 0 <= c < w ==> img[r][c] == 0.0
  {
    seq(h, r => seq(w, c => 0.0))
  }

  /** `image[rr, cc] = v`: every listed pixel of the raster becomes `v`.
      Pixels outside the raster are not part of it and are ignored. */
  function Paint(img: Raster, s: set<Pixel>, v: real): (r: Raster)
    ensures SameShape(r, img)
    ensures forall i, j :: 0 <= i < |img| && 0 <= j < |img[i]| ==>
              r[i][j] == (if Pixel(i, j) in s then v else img[i][j])
  {
    seq(|img|, i requires 0 <= i < |img| =>
      seq(|img[i]|, j requires 0 <= j < |img[i]| =>
        if Pixel(i, j) in s then v else img[i][j]))
  }

  /** One row of the boost: every cell scaled by `level` and clamped. */
  function BoostRow(row: seq<real>, level: real): (r: seq<real>)
    ensures |r| == |row|
    ensures forall j :: 0 <= j < |row| ==> r[j] == ClampUnit(row[j] * level)
    decreases |row|
  {
    if |row| == 0 then [] else [ClampUnit(row[0] * level)] + BoostRow(row[1..], level)
  }

  /** In-place `image *= level`, followed by capping values above 1 at 1 and
      raising values below 0 to 0. The shape is kept and every cell lands in
      [0, 1]: a cell whose scaled value is already in range is exactly that
      value, and the others sit at the bound they crossed. */
  function Boost(img: Raster, level: real): (r: Raster)
    ensures SameShape(r, img)
    ensures InUnit(r)
    ensures forall i, j :: 0 <= i < |img| && 0 <= j < |img[i]| ==>
              var s := img[i][j] * level;
              (0.0 <= s <= 1.0 ==> r[i][j] == s) && (s > 1.0 ==> r[i][j] == 1.0) && (s < 0.0 ==> r[i][j] == 0.0)
  {
    seq(|img|, i requires 0 <= i < |img| => BoostRow(img[i], level))
  }

  /** The default level of `boost`, also the default of `plot`. */
  const DefaultBoost: real := 1000.0

  /** Every cell is 0 or 1. */
  predicate IsBinary(img: Raster) {
    forall i, j :: 0 <= i < |img| && 0 <= j < |img[i]| ==> img[i][j] == 0.0 || img[i][j] == 1.0
  }

  /** Every cell lies in [0, 1]. */
  predicate InUnit(img: Raster) {
    forall i, j :: 0 <= i < |img| && 0 <= j < |img[i]| ==> 0.0 <= img[i][j] <= 1.0
  }

  /** With a level of at least 1, boosting a raster whose cells are all 0 or 1
      changes nothing. */
  lemma BoostFixesBinary(img: Raster, level: real)
    requires 1.0 <= level
    requires IsBinary(img)
    ensures Boost(img, level) == img
  {
    var b := Boost(img, level);
    forall i | 0 <= i < |img|
      ensures b[i] == img[i]
    {
      forall j | 0 <= j < |img[i]|
        ensures b[i][j] == img[i][j]
      {
        if img[i][j] == 1.0 {
          assert img[i][j] * level >= 1.0;
        }
      }
    }
  }

  /** The boost of `test_boost` in tests/test_data.py: a single cell at 0.01 on a zero raster,
      boosted by the default level 1000, saturates at 1 while the zeros stay. */
  lemma BoostExample()
    ensures var img := CreateImage(100, 200)[50 := CreateImage(100, 200)[50][50 := 0.01]];
            var b := Boost(img, DefaultBoost);
            b[50][50] == 1.0 && b[0][0] == 0.0
  {
  }
}
