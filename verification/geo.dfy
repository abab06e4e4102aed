/** Geographic values: coordinates, the tile's bounding box and the closed
    family of geometry kinds that the road data and its clipped pieces take. */
module Geo {

  /** A planar coordinate as shapely orders it: `x` is the longitude and `y`
      the latitude. */
  datatype Coord = Coord(x: real, y: real)

  /** A tile given by its upper-left corner `ul` and its opposite corner `lb`.
      The deltas may have either sign. */
  datatype Box = Box(ul: Coord, lb: Coord) {

    /** Signed longitude extent, `lb[0] - ul[0]`. */
    function GpsW(): real {
      lb.x - ul.x
    }

    /** Signed latitude extent, `lb[1] - ul[1]`. */
    function GpsH(): real {
      lb.y - ul.y
    }

    /** Neither extent is zero, so the per-pixel steps can be divided by. */
    predicate Nondegenerate() {
      GpsW() != 0.0 && GpsH() != 0.0
    }
  }

  /** The geometry kinds the rasteriser distinguishes by their type tag.
      `Other` stands for every remaining shapely kind (a polygon, a
      multi-point, ...) and keeps its tag for the diagnostic; `WellTagged`
      says that tag is not one of the four named ones. */
  datatype Geometry =
    | Point(at: Coord)
    | LineString(coords: seq<Coord>)
    | MultiLineString(lines: seq<seq<Coord>>)
    | GeometryCollection(parts: seq<Geometry>)
    | Other(kind: string)

  /** The type tags the rasteriser handles by name. */
  predicate NamedKind(k: string) {
    k == "Point" || k == "LineString" || k == "MultiLineString" || k == "GeometryCollection"
  }

  /** An `Other` geometry never carries one of the named tags: shapely gives
      each kind exactly one tag. */
  predicate WellTagged(g: Geometry) {
    g.Other? ==> !NamedKind(g.kind)
  }

  /** The point-to-geometry distance primitive (shapely's `distance`). */
  type Distance = (Coord, Geometry) -> real

  /** Euclidean distances are never negative. */
  ghost predicate NonNegative(d: Distance) {
    forall p, g :: 0.0 <= d(p, g)
  }
}
