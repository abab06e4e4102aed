/** The few pieces of Python numeric behaviour the model relies on, written
    out over unbounded integers and reals. */
module Numeric {

  function Abs(x: real): (r: real)
    ensures 0.0 <= r
    ensures r == x || r == -x
  {
    if x < 0.0 then -x else x
  }

  function Max(a: real, b: real): (r: real)
    ensures a <= r && b <= r
    ensures r == a || r == b
  {
    if a >= b then a else b
  }

  function Min(a: real, b: real): (r: real)
    ensures r <= a && r <= b
    ensures r == a || r == b
  {
    if a <= b then a else b
  }

  /** Python's `int(x)` on a float: the integer part, truncated toward zero. */
  function Trunc(x: real): (r: int)
    ensures 0.0 <= x ==> r as real <= x < r as real + 1.0
    ensures x < 0.0 ==> r as real - 1.0 < x <= r as real
  {
    if x >= 0.0 then x.Floor else -((-x).Floor)
  }

  /** `max(0, min(v, hi))`, the clamp used to keep a pixel index in range. */
  function ClampIndex(v: int, hi: int): (r: int)
    ensures 0 <= hi ==> 0 <= r <= hi
    ensures 0 <= v <= hi ==> r == v
    ensures v < 0 ==> r == 0
  {
    var m := if v <= hi then v else hi;
    if 0 >= m then 0 else m
  }

  /** Clamping a boosted value into [0, 1]: values above 1 are capped first,
      then values below 0 are raised. */
  function ClampUnit(v: real): (r: real)
    ensures 0.0 <= r <= 1.0
    ensures 0.0 <= v <= 1.0 ==> r == v
    ensures v > 1.0 ==> r == 1.0
    ensures v < 0.0 ==> r == 0.0
  {
    if v > 1.0 then 1.0 else if v < 0.0 then 0.0 else v
  }

  /** Truncating toward zero and then clamping at 0 gives the same index as
      flooring and then clamping: the two only differ on negative inputs, and
      there both land on 0. */
  lemma TruncClampIsFloorClamp(x: real, hi: int)
    requires 0 <= hi
    ensures ClampIndex(Trunc(x), hi) == ClampIndex(x.Floor, hi)
  {
    if x < 0.0 {
      assert x.Floor < 0;
      assert Trunc(x) <= 0;
    }
  }

  /** `int()` of a whole number is that number. */
  lemma TruncOfWhole(k: int)
    ensures Trunc(k as real) == k
  {
    if k < 0 {
      assert (-(k as real)).Floor == -k;
    }
  }
}
