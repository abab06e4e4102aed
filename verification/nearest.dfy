/** `point.distance`: the distance from a point to the closest geometry of a
    list. */
module Nearest {
  import opened Wrappers
  import opened Numeric
  import opened Geo

  /** The smallest of the distances from `p` to the geometries of `gs`. It is
      a lower bound of every one of them and it is attained by one. */
  function MinDistance(d: Distance, gs: seq<Geometry>, p: Coord): (r: real)
    requires |gs| > 0
    ensures forall i :: 0 <= i < |gs| ==> r <= d(p, gs[i])
    ensures exists i :: 0 <= i < |gs| && r == d(p, gs[i])
    decreases |gs|
  {
    if |gs| == 1 then d(p, gs[0])
    else
      var rest := MinDistance(d, gs[1..], p);
      assert forall i :: 1 <= i < |gs| ==> gs[i] == gs[1..][i - 1];
      Min(d(p, gs[0]), rest)
  }

  /** The error `min` raises on an empty list. */
  datatype DistanceError = EmptyMapData

  /** The distance to the closest road, or the error when there is no road at
      all. */
  function Distance(d: Distance, gs: seq<Geometry>, p: Coord): (r: Result<real, DistanceError>)
    ensures r.Failure? <==> |gs| == 0
    ensures r.Success? ==>
              (forall g :: g in gs ==> r.value <= d(p, g))
              && (exists g :: g in gs && r.value == d(p, g))
  {
    if |gs| == 0 then Failure(EmptyMapData) else Success(MinDistance(d, gs, p))
  }

  /** With a non-negative primitive, the nearest distance is 0 exactly when the
      point lies on one of the geometries. */
  lemma MinDistanceZeroIff(d: Distance, gs: seq<Geometry>, p: Coord)
    requires NonNegative(d)
    requires |gs| > 0
    ensures 0.0 <= MinDistance(d, gs, p)
    ensures MinDistance(d, gs, p) == 0.0 <==> exists i :: 0 <= i < |gs| && d(p, gs[i]) == 0.0
  {
    var r := MinDistance(d, gs, p);
    var k :| 0 <= k < |gs| && r == d(p, gs[k]);
    assert 0.0 <= d(p, gs[k]);
  }

  /** The nearest distance does not depend on the order of the geometry list:
      any rearrangement of it gives the same value. */
  lemma MinDistanceOrderIndependent(d: Distance, gs: seq<Geometry>, hs: seq<Geometry>, p: Coord)
    requires |gs| > 0
    requires multiset(gs) == multiset(hs)
    ensures |hs| > 0
    ensures MinDistance(d, gs, p) == MinDistance(d, hs, p)
  {
    assert gs[0] in multiset(hs);
    var a := MinDistance(d, gs, p);
    var b := MinDistance(d, hs, p);
    var i :| 0 <= i < |gs| && a == d(p, gs[i]);
    var j :| 0 <= j < |hs| && b == d(p, hs[j]);
    assert gs[i] in multiset(hs);
    var j' :| 0 <= j' < |hs| && hs[j'] == gs[i];
    assert hs[j] in multiset(gs);
    var i' :| 0 <= i' < |gs| && gs[i'] == hs[j];
    assert b <= d(p, hs[j']);
    assert a <= d(p, gs[i']);
  }
}
