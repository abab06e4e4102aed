/** `plot_roads`: clip the road geometries to the tile, flatten the clipped
    pieces into lines, and draw every segment between consecutive vertices
    with the road value. */
module Roads {
  import opened Wrappers
  import opened Numeric
  import opened Geo
  import opened Grid
  import opened Mapping

  /** Two consecutive vertices of a line, already mapped to pixels. */
  datatype Segment = Segment(from: Pixel, to: Pixel)

  /** The line-drawing primitive (`skimage.draw.line`): the pixels of the
      discrete segment between two pixels. */
  type LineDraw = (Pixel, Pixel) -> set<Pixel>

  /** `v` lies between `a` and `b`, in either order. */
  predicate Between(v: int, a: int, b: int) {
    (a <= v <= b) || (b <= v <= a)
  }

  /** A Bresenham-style primitive never leaves the rectangle spanned by its
      endpoints. */
  ghost predicate StaysBetween(line: LineDraw) {
    forall a, b, p :: p in line(a, b) ==> Between(p.row, a.row, b.row) && Between(p.col, a.col, b.col)
  }

  /** The primitive draws both of its endpoints. */
  ghost predicate DrawsEndpoints(line: LineDraw) {
    forall a, b :: a in line(a, b) && b in line(a, b)
  }

  /** Errors the rasteriser raises: a part without a coordinate sequence
      (`coords` of a multi-part geometry or a polygon), a part with no vertex
      at all (`ps[0]`), and a division by a zero per-pixel step (an empty
      raster, or a vertex mapped over a box with a zero extent). */
  datatype RoadError = NoCoordinates(kind: string) | EmptyLine | DivisionByZero

  /** shapely's type tag of a geometry. */
  function KindOf(g: Geometry): string {
    match g
    case Point(_) => "Point"
    case LineString(_) => "LineString"
    case MultiLineString(_) => "MultiLineString"
    case GeometryCollection(_) => "GeometryCollection"
    case Other(k) => k
  }

  /** The clipped pieces: `obj.intersection(tile)` for every geometry that
      `tile.intersects`, in input order. */
  function Chop(gs: seq<Geometry>, intersects: Geometry -> bool, intersection: Geometry -> Geometry): (r: seq<Geometry>)
    ensures |r| <= |gs|
    ensures (forall i :: 0 <= i < |gs| ==> !intersects(gs[i])) ==> r == []
    ensures forall i :: 0 <= i < |gs| && intersects(gs[i]) ==> intersection(gs[i]) in r
    ensures forall c :: c in r ==> exists i :: 0 <= i < |gs| && intersects(gs[i]) && c == intersection(gs[i])
    decreases |gs|
  {
    if |gs| == 0 then []
    else
      var rest := Chop(gs[1..], intersects, intersection);
      assert forall i :: 1 <= i < |gs| ==> gs[i] == gs[1..][i - 1];
      (if intersects(gs[0]) then [intersection(gs[0])] else []) + rest
  }

  /** The flattening of one clipped piece into the parts that are walked as
      lines. A line string is its own part, a multi-line string and a
      collection give their members, and a point or any other kind gives
      nothing. */
  function LineParts(curve: Geometry): (parts: seq<Geometry>)
    ensures curve.LineString? ==> parts == [curve]
    ensures curve.MultiLineString? ==>
              |parts| == |curve.lines| && forall i :: 0 <= i < |parts| ==> parts[i] == LineString(curve.lines[i])
    ensures curve.GeometryCollection? ==> parts == curve.parts
    ensures curve.Point? || curve.Other? ==> parts == []
  {
    match curve
    case GeometryCollection(ps) => ps
    case MultiLineString(ls) => seq(|ls|, i requires 0 <= i < |ls| => LineString(ls[i]))
    case LineString(_) => [curve]
    case Point(_) => []
    case Other(_) => []
  }

  /** The tags the rasteriser reports as a missing type: exactly those of the
      pieces of an unsupported kind, none of them a named tag. The source
      reports each tag as its walk reaches the piece, so a piece that raises
      earlier cuts the reports short; this list covers every piece. */
  function MissingTypes(curves: seq<Geometry>): (r: seq<string>)
    requires forall c :: c in curves ==> WellTagged(c)
    ensures forall k :: k in r <==> Other(k) in curves
    ensures forall k :: k in r ==> !NamedKind(k)
    decreases |curves|
  {
    if |curves| == 0 then []
    else
      assert forall c :: c in curves[1..] ==> c in curves;
      assert WellTagged(curves[0]);
      var head := if curves[0].Other? then [curves[0].kind] else [];
      assert forall k :: k in head ==> !NamedKind(k);
      head + MissingTypes(curves[1..])
  }

  /** `list(part.coords)`: a point has its one vertex, a line string its
      vertices, and the other kinds have no coordinate sequence. */
  function PartCoords(part: Geometry): Option<seq<Coord>> {
    match part
    case Point(c) => Some([c])
    case LineString(cs) => Some(cs)
    case _ => None
  }

  /** The inner walk: starting from the pixel `prev`, map each remaining
      vertex and emit one segment from the previous pixel to it. */
  function Walk(f: Frame, prev: Pixel, rest: seq<Coord>): (segs: seq<Segment>)
    requires f.Valid()
    ensures |segs| == |rest|
    ensures |rest| > 0 ==> segs[0].from == prev
    ensures forall i :: 0 <= i < |rest| ==> segs[i].to == ToPixel(f, rest[i])
    ensures forall i :: 0 <= i < |rest| - 1 ==> segs[i + 1].from == ToPixel(f, rest[i])
    decreases |rest|
  {
    if |rest| == 0 then []
    else
      var curr := ToPixel(f, rest[0]);
      [Segment(prev, curr)] + Walk(f, curr, rest[1..])
  }

  /** The segments of a line with `k >= 1` vertices: exactly `k - 1` of them,
      the `i`-th joining the pixels of vertices `i` and `i + 1`. */
  function LineSegments(f: Frame, cs: seq<Coord>): (segs: seq<Segment>)
    requires f.Valid()
    requires |cs| >= 1
    ensures |segs| == |cs| - 1
    ensures forall i :: 0 <= i < |cs| - 1 ==> segs[i] == Segment(ToPixel(f, cs[i]), ToPixel(f, cs[i + 1]))
  {
    Walk(f, ToPixel(f, cs[0]), cs[1..])
  }

  /** The segments of one part, or the error reading its vertices raises.
      Reading the coordinates fails first, then taking the first vertex, and
      then mapping that vertex, which divides by the per-pixel steps. */
  function PartSegments(f: Frame, part: Geometry): (r: Result<seq<Segment>, RoadError>)
    requires f.Sized()
    ensures f.Valid() && part.LineString? && |part.coords| >= 1 ==> r == Success(LineSegments(f, part.coords))
    ensures f.Valid() && part.Point? ==> r == Success([])
    ensures !f.box.Nondegenerate() && (part.Point? || (part.LineString? && |part.coords| >= 1)) ==>
              r == Failure(DivisionByZero)
    ensures part.LineString? && |part.coords| == 0 ==> r == Failure(EmptyLine)
    ensures !part.Point? && !part.LineString? ==> r == Failure(NoCoordinates(KindOf(part)))
  {
    match PartCoords(part)
    case None => Failure(NoCoordinates(KindOf(part)))
    case Some(cs) =>
      if |cs| == 0 then Failure(EmptyLine)
      else if !f.box.Nondegenerate() then Failure(DivisionByZero)
      else Success(LineSegments(f, cs))
  }

  /** Running two walks one after the other: the first failure stops
      everything, otherwise the segments are concatenated in order. */
  function Join(x: Result<seq<Segment>, RoadError>, y: Result<seq<Segment>, RoadError>): (r: Result<seq<Segment>, RoadError>)
    ensures r.Success? <==> x.Success? && y.Success?
    ensures x.Failure? ==> r == x
    ensures x.Success? && y.Failure? ==> r == y
    ensures r.Success? ==> r.value == x.value + y.value
  {
    match x
    case Failure(e) => Failure(e)
    case Success(s) =>
      match y
      case Failure(e) => Failure(e)
      case Success(t) => Success(s + t)
  }

  /** Part `i` is the first part of `parts` whose walk fails, with error `e`. */
  predicate PartFailsFirstAt(f: Frame, parts: seq<Geometry>, i: int, e: RoadError)
    requires f.Sized()
  {
    && 0 <= i < |parts|
    && (forall j :: 0 <= j < i ==> PartSegments(f, parts[j]).Success?)
    && PartSegments(f, parts[i]) == Failure(e)
  }

  /** The segments of a list of parts, in order. The walk succeeds exactly
      when every part can be walked, and a failure is the error of the
      first part that cannot. */
  function PartsSegments(f: Frame, parts: seq<Geometry>): (r: Result<seq<Segment>, RoadError>)
    requires f.Sized()
    ensures r.Success? <==> forall i :: 0 <= i < |parts| ==> PartSegments(f, parts[i]).Success?
    ensures r.Failure? ==> exists i :: PartFailsFirstAt(f, parts, i, r.error)
    decreases |parts|
  {
    if |parts| == 0 then Success([])
    else
      var rest := PartsSegments(f, parts[1..]);
      assert forall i :: 1 <= i < |parts| ==> parts[i] == parts[1..][i - 1];
      assert PartSegments(f, parts[0]).Failure? ==> PartFailsFirstAt(f, parts, 0, PartSegments(f, parts[0]).error);
      assert PartSegments(f, parts[0]).Success? && rest.Failure? ==> exists i :: PartFailsFirstAt(f, parts, i, rest.error) by {
        if PartSegments(f, parts[0]).Success? && rest.Failure? {
          var i :| PartFailsFirstAt(f, parts[1..], i, rest.error);
          assert PartFailsFirstAt(f, parts, i + 1, rest.error);
        }
      }
      Join(PartSegments(f, parts[0]), rest)
  }

  /** Piece `i` is the first clipped piece whose line parts cannot all be
      walked, with error `e`. */
  predicate PieceFailsFirstAt(f: Frame, curves: seq<Geometry>, i: int, e: RoadError)
    requires f.Sized()
  {
    && 0 <= i < |curves|
    && (forall j :: 0 <= j < i ==> PartsSegments(f, LineParts(curves[j])).Success?)
    && PartsSegments(f, LineParts(curves[i])) == Failure(e)
  }

  /** The segments of every clipped piece, in order. The walk succeeds
      exactly when the line parts of every piece can be walked, and a failure
      is the error of the first piece that cannot. */
  function CurvesSegments(f: Frame, curves: seq<Geometry>): (r: Result<seq<Segment>, RoadError>)
    requires f.Sized()
    ensures r.Success? <==> forall i :: 0 <= i < |curves| ==> PartsSegments(f, LineParts(curves[i])).Success?
    ensures r.Failure? ==> exists i :: PieceFailsFirstAt(f, curves, i, r.error)
    decreases |curves|
  {
    if |curves| == 0 then Success([])
    else
      var rest := CurvesSegments(f, curves[1..]);
      assert forall i :: 1 <= i < |curves| ==> curves[i] == curves[1..][i - 1];
      assert PartsSegments(f, LineParts(curves[0])).Failure? ==> PieceFailsFirstAt(f, curves, 0, PartsSegments(f, LineParts(curves[0])).error);
      assert PartsSegments(f, LineParts(curves[0])).Success? && rest.Failure? ==> exists i :: PieceFailsFirstAt(f, curves, i, rest.error) by {
        if PartsSegments(f, LineParts(curves[0])).Success? && rest.Failure? {
          var i :| PieceFailsFirstAt(f, curves[1..], i, rest.error);
          assert PieceFailsFirstAt(f, curves, i + 1, rest.error);
        }
      }
      Join(PartsSegments(f, LineParts(curves[0])), rest)
  }

  /** All pixels the primitive draws for a list of segments. */
  function Covered(segs: seq<Segment>, line: LineDraw): set<Pixel>
    decreases |segs|
  {
    if |segs| == 0 then {} else line(segs[0].from, segs[0].to) + Covered(segs[1..], line)
  }

  /** Drawing the segments one after the other, each overwriting its pixels
      with `v`. A pixel drawn by any segment ends at exactly `v`; every other
      pixel keeps its prior value. */
  function Draw(img: Raster, segs: seq<Segment>, line: LineDraw, v: real): (r: Raster)
    ensures SameShape(r, img)
    ensures forall i, j :: 0 <= i < |img| && 0 <= j < |img[i]| ==>
              r[i][j] == (if Pixel(i, j) in Covered(segs, line) then v else img[i][j])
    decreases |segs|
  {
    if |segs| == 0 then img
    else Draw(Paint(img, line(segs[0].from, segs[0].to), v), segs[1..], line, v)
  }

  /** `plot_roads` on an `h` by `w` raster. An empty raster divides by zero
      when the per-pixel steps are computed. Otherwise the call succeeds
      exactly when every clipped piece can be walked, fails with the error of
      the first piece that cannot, and on success sets the pixels of every
      walked segment to `road_value` and leaves all other pixels unchanged. */
  function PlotRoads(img: Raster, h: nat, w: nat, gs: seq<Geometry>, box: Box, roadValue: real,
                     intersects: Geometry -> bool, intersection: Geometry -> Geometry, line: LineDraw)
    : (r: Result<Raster, RoadError>)
    requires IsGrid(img, h, w)
    ensures h == 0 || w == 0 ==> r == Failure(DivisionByZero)
    ensures 1 <= h && 1 <= w ==>
              (r.Success? <==> CurvesSegments(Frame(box, h, w), Chop(gs, intersects, intersection)).Success?)
              && (r.Failure? ==> r.error == CurvesSegments(Frame(box, h, w), Chop(gs, intersects, intersection)).error)
    ensures r.Success? ==>
              1 <= h && 1 <= w
              && IsGrid(r.value, h, w)
              && forall y, x :: 0 <= y < h && 0 <= x < w ==>
                   r.value[y][x] ==
                     (if Pixel(y, x) in Covered(CurvesSegments(Frame(box, h, w), Chop(gs, intersects, intersection)).value, line)
                      then roadValue else img[y][x])
  {
    if h == 0 || w == 0 then Failure(DivisionByZero)
    else
      var walked := CurvesSegments(Frame(box, h, w), Chop(gs, intersects, intersection));
      if walked.Failure? then Failure(walked.error)
      else
        Success(Draw(img, walked.value, line, roadValue))
  }

  /** Both endpoints of every segment lie in the raster. */
  predicate EndpointsInGrid(segs: seq<Segment>, h: int, w: int) {
    forall i :: 0 <= i < |segs| ==> InGrid(segs[i].from, h, w) && InGrid(segs[i].to, h, w)
  }

  lemma EndpointsInGridAppend(s: seq<Segment>, t: seq<Segment>, h: int, w: int)
    requires EndpointsInGrid(s, h, w) && EndpointsInGrid(t, h, w)
    ensures EndpointsInGrid(s + t, h, w)
  {
    forall i | 0 <= i < |s + t|
      ensures InGrid((s + t)[i].from, h, w) && InGrid((s + t)[i].to, h, w)
    {
      if i >= |s| {
        assert (s + t)[i] == t[i - |s|];
      }
    }
  }

  lemma PartSegmentsInGrid(f: Frame, part: Geometry)
    requires f.Sized()
    ensures PartSegments(f, part).Success? ==> EndpointsInGrid(PartSegments(f, part).value, f.h, f.w)
  {
    match PartCoords(part)
    case None =>
    case Some(cs) =>
      if |cs| > 0 && f.box.Nondegenerate() {
        var s := LineSegments(f, cs);
        forall i | 0 <= i < |s|
          ensures InGrid(s[i].from, f.h, f.w) && InGrid(s[i].to, f.h, f.w)
        {
          assert s[i] == Segment(ToPixel(f, cs[i]), ToPixel(f, cs[i + 1]));
        }
      }
  }

  lemma {:induction false} PartsSegmentsInGrid(f: Frame, parts: seq<Geometry>)
    requires f.Sized()
    ensures PartsSegments(f, parts).Success? ==> EndpointsInGrid(PartsSegments(f, parts).value, f.h, f.w)
    decreases |parts|
  {
    if |parts| > 0 && PartsSegments(f, parts).Success? {
      PartSegmentsInGrid(f, parts[0]);
      PartsSegmentsInGrid(f, parts[1..]);
      EndpointsInGridAppend(PartSegments(f, parts[0]).value, PartsSegments(f, parts[1..]).value, f.h, f.w);
    }
  }

  /** Every segment the rasteriser walks joins two pixels of the raster,
      because both ends come out of the clamped `coord2px`. */
  lemma {:induction false} CurvesSegmentsInGrid(f: Frame, curves: seq<Geometry>)
    requires f.Sized()
    ensures CurvesSegments(f, curves).Success? ==> EndpointsInGrid(CurvesSegments(f, curves).value, f.h, f.w)
    decreases |curves|
  {
    if |curves| > 0 && CurvesSegments(f, curves).Success? {
      PartsSegmentsInGrid(f, LineParts(curves[0]));
      CurvesSegmentsInGrid(f, curves[1..]);
      EndpointsInGridAppend(PartsSegments(f, LineParts(curves[0])).value, CurvesSegments(f, curves[1..]).value, f.h, f.w);
    }
  }

  /** With a primitive that stays between its endpoints, every pixel drawn for
      in-grid segments is itself in the grid. */
  lemma {:induction false} CoveredInGrid(segs: seq<Segment>, line: LineDraw, h: int, w: int)
    requires StaysBetween(line)
    requires EndpointsInGrid(segs, h, w)
    ensures forall p :: p in Covered(segs, line) ==> InGrid(p, h, w)
    decreases |segs|
  {
    if |segs| > 0 {
      CoveredInGrid(segs[1..], line, h, w);
    }
  }

  /** No drawn pixel is lost off the raster: with a Bresenham-style primitive,
      every pixel of every walked segment is a pixel of the raster and ends
      at exactly `road_value`. */
  lemma PlotRoadsDrawsEveryTouchedPixel(img: Raster, h: nat, w: nat, gs: seq<Geometry>, box: Box, roadValue: real,
                                        intersects: Geometry -> bool, intersection: Geometry -> Geometry, line: LineDraw)
    requires IsGrid(img, h, w)
    requires StaysBetween(line)
    requires PlotRoads(img, h, w, gs, box, roadValue, intersects, intersection, line).Success?
    ensures var segs := CurvesSegments(Frame(box, h, w), Chop(gs, intersects, intersection)).value;
            var out := PlotRoads(img, h, w, gs, box, roadValue, intersects, intersection, line).value;
            forall p :: p in Covered(segs, line) ==> InGrid(p, h, w) && out[p.row][p.col] == roadValue
  {
    var f := Frame(box, h, w);
    var segs := CurvesSegments(f, Chop(gs, intersects, intersection)).value;
    CurvesSegmentsInGrid(f, Chop(gs, intersects, intersection));
    CoveredInGrid(segs, line, h, w);
  }

  /** A tile that no road intersects is left exactly as it was. */
  lemma PlotRoadsNoIntersection(img: Raster, h: nat, w: nat, gs: seq<Geometry>, box: Box, roadValue: real,
                                intersects: Geometry -> bool, intersection: Geometry -> Geometry, line: LineDraw)
    requires IsGrid(img, h, w)
    requires 1 <= h && 1 <= w
    requires forall i :: 0 <= i < |gs| ==> !intersects(gs[i])
    ensures PlotRoads(img, h, w, gs, box, roadValue, intersects, intersection, line) == Success(img)
  {
    assert Chop(gs, intersects, intersection) == [];
    var out := PlotRoads(img, h, w, gs, box, roadValue, intersects, intersection, line).value;
    forall y | 0 <= y < h
      ensures out[y] == img[y]
    {
    }
  }

  /** A clipped point or a piece of an unsupported kind is skipped: it adds no
      segment and causes no failure, whatever follows it. */
  lemma SkippedPieceDrawsNothing(f: Frame, c: Geometry, rest: seq<Geometry>)
    requires f.Sized()
    requires c.Point? || c.Other?
    ensures CurvesSegments(f, [c] + rest) == CurvesSegments(f, rest)
  {
    assert ([c] + rest)[1..] == rest;
    match CurvesSegments(f, rest)
    case Failure(_) =>
    case Success(t) => assert [] + t == t;
  }

  /** A clipped line string with `k >= 1` vertices is walked as exactly its
      `k - 1` segments between the pixels of consecutive vertices. */
  lemma LineStringPieceSegments(f: Frame, cs: seq<Coord>)
    requires f.Valid()
    requires |cs| >= 1
    ensures CurvesSegments(f, [LineString(cs)]) == Success(LineSegments(f, cs))
  {
    var s := LineSegments(f, cs);
    assert [LineString(cs)][1..] == [];
    assert s + [] == s;
    assert PartsSegments(f, [LineString(cs)]) == Success(s);
  }

  /** A clipped geometry collection is walked part by part: its segments are
      those of its member parts, in order, and it fails as they fail. */
  lemma GeometryCollectionPieceSegments(f: Frame, ps: seq<Geometry>)
    requires f.Sized()
    ensures CurvesSegments(f, [GeometryCollection(ps)]) == PartsSegments(f, ps)
  {
    assert [GeometryCollection(ps)][1..] == [];
    match PartsSegments(f, ps)
    case Failure(_) =>
    case Success(s) => assert s + [] == s;
  }

  /** Joining walks is associative. */
  lemma JoinAssociative(x: Result<seq<Segment>, RoadError>, y: Result<seq<Segment>, RoadError>,
                        z: Result<seq<Segment>, RoadError>)
    ensures Join(Join(x, y), z) == Join(x, Join(y, z))
  {
    if x.Success? && y.Success? && z.Success? {
      assert (x.value + y.value) + z.value == x.value + (y.value + z.value);
    }
  }

  /** A single part is walked as that part alone. */
  lemma PartsSegmentsSingle(f: Frame, p: Geometry)
    requires f.Sized()
    ensures PartsSegments(f, [p]) == PartSegments(f, p)
  {
    assert [p][1..] == [];
    match PartSegments(f, p)
    case Failure(_) =>
    case Success(s) => assert s + [] == s;
  }

  /** Walking two lists of parts back to back is walking their
      concatenation: the segments of `a` come first, then those of `b`, and
      the first failure wins. */
  lemma {:induction false} PartsSegmentsAppend(f: Frame, a: seq<Geometry>, b: seq<Geometry>)
    requires f.Sized()
    ensures PartsSegments(f, a + b) == Join(PartsSegments(f, a), PartsSegments(f, b))
    decreases |a|
  {
    if |a| == 0 {
      assert a + b == b;
      match PartsSegments(f, b)
      case Failure(_) =>
      case Success(t) => assert [] + t == t;
    } else {
      assert (a + b)[0] == a[0];
      assert (a + b)[1..] == a[1..] + b;
      PartsSegmentsAppend(f, a[1..], b);
      JoinAssociative(PartSegments(f, a[0]), PartsSegments(f, a[1..]), PartsSegments(f, b));
    }
  }

  /** Walking two lists of clipped pieces back to back is walking their
      concatenation: the segments of `a` come first, then those of `b`, and
      the first failure wins. */
  lemma {:induction false} CurvesSegmentsAppend(f: Frame, a: seq<Geometry>, b: seq<Geometry>)
    requires f.Sized()
    ensures CurvesSegments(f, a + b) == Join(CurvesSegments(f, a), CurvesSegments(f, b))
    decreases |a|
  {
    if |a| == 0 {
      assert a + b == b;
      match CurvesSegments(f, b)
      case Failure(_) =>
      case Success(t) => assert [] + t == t;
    } else {
      assert (a + b)[0] == a[0];
      assert (a + b)[1..] == a[1..] + b;
      CurvesSegmentsAppend(f, a[1..], b);
      JoinAssociative(PartsSegments(f, LineParts(a[0])), CurvesSegments(f, a[1..]), CurvesSegments(f, b));
    }
  }

  /** The segments of a list of lines, one line after the other. */
  function LinesSegments(f: Frame, ls: seq<seq<Coord>>): (segs: seq<Segment>)
    requires f.Valid()
    requires forall i :: 0 <= i < |ls| ==> |ls[i]| >= 1
    decreases |ls|
  {
    if |ls| == 0 then [] else LineSegments(f, ls[0]) + LinesSegments(f, ls[1..])
  }

  /** A clipped multi-line string is walked line by line: its segments are
      those of its first line, then those of its second, and so on. */
  lemma MultiLineStringPieceSegments(f: Frame, ls: seq<seq<Coord>>)
    requires f.Valid()
    requires forall i :: 0 <= i < |ls| ==> |ls[i]| >= 1
    ensures CurvesSegments(f, [MultiLineString(ls)]) == Success(LinesSegments(f, ls))
  {
    var parts := LineParts(MultiLineString(ls));
    LinePartsSegments(f, ls, parts);
    assert [MultiLineString(ls)][1..] == [];
    assert LinesSegments(f, ls) + [] == LinesSegments(f, ls);
  }

  lemma {:induction false} LinePartsSegments(f: Frame, ls: seq<seq<Coord>>, parts: seq<Geometry>)
    requires f.Valid()
    requires forall i :: 0 <= i < |ls| ==> |ls[i]| >= 1
    requires |parts| == |ls| && forall i :: 0 <= i < |ls| ==> parts[i] == LineString(ls[i])
    ensures PartsSegments(f, parts) == Success(LinesSegments(f, ls))
    decreases |ls|
  {
    if |ls| > 0 {
      LinePartsSegments(f, ls[1..], parts[1..]);
    }
  }

  /** A clipped geometry collection whose members are line strings is walked
      as those lines' segments, one line after the other. */
  lemma GeometryCollectionOfLinesSegments(f: Frame, ls: seq<seq<Coord>>, ps: seq<Geometry>)
    requires f.Valid()
    requires forall i :: 0 <= i < |ls| ==> |ls[i]| >= 1
    requires |ps| == |ls| && forall i :: 0 <= i < |ls| ==> ps[i] == LineString(ls[i])
    ensures CurvesSegments(f, [GeometryCollection(ps)]) == Success(LinesSegments(f, ls))
  {
    GeometryCollectionPieceSegments(f, ps);
    LinePartsSegments(f, ls, ps);
  }

  lemma ExamplePixels()
    ensures var f := Frame(Box(Coord(0.0, 0.0), Coord(100.0, 200.0)), 200, 100);
            ToPixel(f, Coord(100.0, 100.0)) == Pixel(100, 99)
            && ToPixel(f, Coord(50.0, 50.0)) == Pixel(50, 50)
            && ToPixel(f, Coord(10.0, 10.0)) == Pixel(10, 10)
            && ToPixel(f, Coord(20.0, 20.0)) == Pixel(20, 20)
  {
    var f := Frame(Box(Coord(0.0, 0.0), Coord(100.0, 200.0)), 200, 100);
    ToPixelExample();
    UnitFrameToPixel(f, 10, 10);
    UnitFrameToPixel(f, 20, 20);
  }

  /** The two example roads of `test_plot` in tests/test_data.py and the pixel segments they
      are walked as over the box (0,0)-(100,200) on a 200 by 100 raster. */
  lemma ExampleSegments(intersects: Geometry -> bool, intersection: Geometry -> Geometry)
    requires var g1 := LineString([Coord(100.0, 100.0), Coord(50.0, 50.0)]);
             var g2 := LineString([Coord(10.0, 10.0), Coord(20.0, 20.0)]);
             intersects(g1) && intersects(g2) && intersection(g1) == g1 && intersection(g2) == g2
    ensures var g1 := LineString([Coord(100.0, 100.0), Coord(50.0, 50.0)]);
            var g2 := LineString([Coord(10.0, 10.0), Coord(20.0, 20.0)]);
            var f := Frame(Box(Coord(0.0, 0.0), Coord(100.0, 200.0)), 200, 100);
            CurvesSegments(f, Chop([g1, g2], intersects, intersection))
              == Success([Segment(Pixel(100, 99), Pixel(50, 50)), Segment(Pixel(10, 10), Pixel(20, 20))])
  {
    var g1 := LineString([Coord(100.0, 100.0), Coord(50.0, 50.0)]);
    var g2 := LineString([Coord(10.0, 10.0), Coord(20.0, 20.0)]);
    var f := Frame(Box(Coord(0.0, 0.0), Coord(100.0, 200.0)), 200, 100);
    assert Chop([g1, g2], intersects, intersection) == [g1, g2] by {
      assert [g1, g2][1..] == [g2];
      assert [g2][1..] == [];
    }
    ExamplePixels();
    var s1 := Segment(Pixel(100, 99), Pixel(50, 50));
    var s2 := Segment(Pixel(10, 10), Pixel(20, 20));
    LineStringPieceSegments(f, g1.coords);
    LineStringPieceSegments(f, g2.coords);
    assert LineSegments(f, g1.coords) == [s1];
    assert LineSegments(f, g2.coords) == [s2];
    assert LineParts(g1) == [g1];
    assert [g1][1..] == [];
    assert PartsSegments(f, LineParts(g1)) == Success([s1] + []);
    assert [s2] + [] == [s2];
    assert CurvesSegments(f, [g2]) == Success([s2]);
    assert [s1] + [s2] == [s1, s2];
  }

  lemma ExampleCovered(line: LineDraw, s1: Segment, s2: Segment)
    ensures Covered([s1, s2], line) == line(s1.from, s1.to) + line(s2.from, s2.to)
  {
    assert [s1, s2][1..] == [s2];
    assert [s2][1..] == [];
    assert Covered([s2], line) == line(s2.from, s2.to) + Covered([], line);
    assert Covered([s1, s2], line) == line(s1.from, s1.to) + Covered([s2], line);
  }

  /** The rasterisation example of `test_plot` in tests/test_data.py: the lines
      (100,100)-(50,50) and (10,10)-(20,20), both inside the box
      (0,0)-(100,200), drawn on a zero 200 by 100 raster, set pixels
      [100,99] and [50,50] to 1 and leave [0,0] at 0. */
  lemma PlotRoadsExample(intersects: Geometry -> bool, intersection: Geometry -> Geometry, line: LineDraw)
    requires StaysBetween(line) && DrawsEndpoints(line)
    requires var g1 := LineString([Coord(100.0, 100.0), Coord(50.0, 50.0)]);
             var g2 := LineString([Coord(10.0, 10.0), Coord(20.0, 20.0)]);
             intersects(g1) && intersects(g2) && intersection(g1) == g1 && intersection(g2) == g2
    ensures var g1 := LineString([Coord(100.0, 100.0), Coord(50.0, 50.0)]);
            var g2 := LineString([Coord(10.0, 10.0), Coord(20.0, 20.0)]);
            var box := Box(Coord(0.0, 0.0), Coord(100.0, 200.0));
            var r := PlotRoads(CreateImage(100, 200), 200, 100, [g1, g2], box, 1.0, intersects, intersection, line);
            r.Success? && r.value[100][99] == 1.0 && r.value[50][50] == 1.0 && r.value[0][0] == 0.0
  {
    var g1 := LineString([Coord(100.0, 100.0), Coord(50.0, 50.0)]);
    var g2 := LineString([Coord(10.0, 10.0), Coord(20.0, 20.0)]);
    var box := Box(Coord(0.0, 0.0), Coord(100.0, 200.0));
    var f := Frame(box, 200, 100);
    var img := CreateImage(100, 200);
    var s1 := Segment(Pixel(100, 99), Pixel(50, 50));
    var s2 := Segment(Pixel(10, 10), Pixel(20, 20));
    ExampleSegments(intersects, intersection);
    ExampleCovered(line, s1, s2);
    var cov := Covered([s1, s2], line);
    var r := PlotRoads(img, 200, 100, [g1, g2], box, 1.0, intersects, intersection, line);
    assert r.Success?;
    assert Pixel(100, 99) in cov && Pixel(50, 50) in cov;
    assert Pixel(0, 0) !in line(s1.from, s1.to);
    assert Pixel(0, 0) !in line(s2.from, s2.to);
    assert r.value[0][0] == img[0][0];
  }
}
