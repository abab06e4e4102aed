/** `pre_filter`: keep the geometries close enough to the tile that they can
    matter for its distance field. */
module Prefilter {
  import opened Numeric
  import opened Geo

  /** The multiplier `tile.plot` uses, the default of `pre_filter`. */
  const DefaultMultiplier: real := 2.5

  /** The cut-off radius `max(|m * gps_w|, |m * gps_h|)`: never negative,
      whatever the signs of the box deltas and of the multiplier. */
  function Radius(box: Box, m: real): (r: real)
    ensures 0.0 <= r
    ensures Abs(m * box.GpsW()) <= r && Abs(m * box.GpsH()) <= r
    ensures r == Abs(m * box.GpsW()) || r == Abs(m * box.GpsH())
  {
    Max(Abs(m * box.GpsW()), Abs(m * box.GpsH()))
  }

  /** The keep condition: the smaller of the distances to the two corners is
      strictly below the radius. */
  predicate Near(d: Distance, g: Geometry, box: Box, m: real) {
    Min(d(box.ul, g), d(box.lb, g)) < Radius(box, m)
  }

  /** The geometries of `gs` that are near the tile, in their original order.
      A geometry is kept exactly when one of the two corners is strictly
      closer to it than the radius. */
  function PreFilter(d: Distance, gs: seq<Geometry>, box: Box, m: real): (r: seq<Geometry>)
    ensures |r| <= |gs|
    ensures forall g :: g in r <==>
              g in gs && (d(box.ul, g) < Radius(box, m) || d(box.lb, g) < Radius(box, m))
  {
    if |gs| == 0 then []
    else (if Near(d, gs[0], box, m) then [gs[0]] else []) + PreFilter(d, gs[1..], box, m)
  }

  /** The filter keeps every near geometry as often as it occurs in the
      input, and drops every other one entirely. */
  lemma {:induction false} PreFilterCounts(d: Distance, gs: seq<Geometry>, box: Box, m: real, g: Geometry)
    ensures multiset(PreFilter(d, gs, box, m))[g] == if Near(d, g, box, m) then multiset(gs)[g] else 0
    decreases |gs|
  {
    if |gs| > 0 {
      PreFilterCounts(d, gs[1..], box, m, g);
      assert gs == [gs[0]] + gs[1..];
      assert multiset(gs) == multiset([gs[0]]) + multiset(gs[1..]);
    }
  }

  /** `a` can be obtained from `b` by deleting elements (greedy matching). */
  predicate IsSubsequence<T(==)>(a: seq<T>, b: seq<T>)
    decreases |b|
  {
    if |a| == 0 then true
    else if |b| == 0 then false
    else if a[0] == b[0] then IsSubsequence(a[1..], b[1..])
    else IsSubsequence(a, b[1..])
  }

  /** The filter keeps the original order: its result is a subsequence of
      its input. */
  lemma {:induction false} PreFilterIsSubsequence(d: Distance, gs: seq<Geometry>, box: Box, m: real)
    ensures IsSubsequence(PreFilter(d, gs, box, m), gs)
    decreases |gs|
  {
    if |gs| > 0 {
      PreFilterIsSubsequence(d, gs[1..], box, m);
      var rest := PreFilter(d, gs[1..], box, m);
      if Near(d, gs[0], box, m) {
        assert PreFilter(d, gs, box, m) == [gs[0]] + rest;
        assert ([gs[0]] + rest)[1..] == rest;
      } else {
        assert PreFilter(d, gs, box, m) == rest;
      }
    }
  }

  /** Filtering distributes over concatenation. */
  lemma {:induction false} PreFilterAppend(d: Distance, a: seq<Geometry>, b: seq<Geometry>, box: Box, m: real)
    ensures PreFilter(d, a + b, box, m) == PreFilter(d, a, box, m) + PreFilter(d, b, box, m)
    decreases |a|
  {
    if |a| > 0 {
      assert (a + b)[1..] == a[1..] + b;
      PreFilterAppend(d, a[1..], b, box, m);
    } else {
      assert a + b == b;
    }
  }

  /** Filtering the filter's own output with the same corners and multiplier
      changes nothing. */
  lemma {:induction false} PreFilterIdempotent(d: Distance, gs: seq<Geometry>, box: Box, m: real)
    ensures PreFilter(d, PreFilter(d, gs, box, m), box, m) == PreFilter(d, gs, box, m)
    decreases |gs|
  {
    if |gs| > 0 {
      PreFilterIdempotent(d, gs[1..], box, m);
      var rest := PreFilter(d, gs[1..], box, m);
      if Near(d, gs[0], box, m) {
        assert PreFilter(d, gs, box, m) == [gs[0]] + rest;
        PreFilterAppend(d, [gs[0]], rest, box, m);
        assert [gs[0]][1..] == [];
        assert PreFilter(d, [gs[0]], box, m) == [gs[0]] + PreFilter(d, [], box, m);
      } else {
        assert PreFilter(d, gs, box, m) == rest;
      }
    }
  }

  /** The filtering example of `test_filter` in tests/test_data.py: with corners (30,0) and
      (0,30) and multiplier 1 the radius is 30, so a line at least 30 away
      from both corners is dropped while one closer than 30 to a corner is
      kept. */
  lemma PreFilterExample(d: Distance, far: Geometry, near: Geometry)
    requires d(Coord(30.0, 0.0), far) >= 30.0 && d(Coord(0.0, 30.0), far) >= 30.0
    requires d(Coord(30.0, 0.0), near) < 30.0
    ensures PreFilter(d, [far, near], Box(Coord(30.0, 0.0), Coord(0.0, 30.0)), 1.0) == [near]
  {
    var box := Box(Coord(30.0, 0.0), Coord(0.0, 30.0));
    assert Radius(box, 1.0) == 30.0;
    assert [far, near][1..] == [near];
    assert [near][1..] == [];
  }

  /** The filter loop of the source: walk the geometries in order and append
      the near ones to a fresh list. */
  method PreFilterLoop(d: Distance, gs: seq<Geometry>, box: Box, m: real) returns (result: seq<Geometry>)
    ensures result == PreFilter(d, gs, box, m)
  {
    var maxD := Max(Abs(m * box.GpsW()), Abs(m * box.GpsH()));
    result := [];
    for i := 0 to |gs|
      invariant result == PreFilter(d, gs[..i], box, m)
    {
      var obj := gs[i];
      var ulD := d(box.ul, obj);
      var lbD := d(box.lb, obj);
      if Min(ulD, lbD) < maxD {
        result := result + [obj];
      }
      PreFilterAppend(d, gs[..i], [obj], box, m);
      assert gs[..i + 1] == gs[..i] + [obj];
    }
    assert gs[..|gs|] == gs;
  }
}
