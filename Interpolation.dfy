/** `polyline_z_at`: the height of a polyline at a given x, by linear interpolation. */
module Interpolation {
  import opened Wrappers
  import opened Geometry

  /** Segment i, from points[i-1] to points[i], brackets x: `x1 <= x and x <= x2`. */
  predicate Brackets(points: seq<Point>, i: int, x: real)
  {
    1 <= i < |points| && points[i - 1].x <= x <= points[i].x
  }

  /** Segment i is the first segment that brackets x. */
  predicate IsFirstBracket(points: seq<Point>, i: int, x: real)
  {
    Brackets(points, i, x) && forall j :: 1 <= j < i ==> !Brackets(points, j, x)
  }

  /** `y1 + (x - x1) / (x2 - x1) * (y2 - y1)`. */
  function Interpolate(p1: Point, p2: Point, x: real): real
    requires p1.x != p2.x
  {
    p1.y + (x - p1.x) / (p2.x - p1.x) * (p2.y - p1.y)
  }

  /** The first segment at index `from` or later that brackets x, if any. */
  function FirstBracketFrom(points: seq<Point>, x: real, from: nat): (r: Option<nat>)
    requires 1 <= from
    decreases |points| - from
    ensures r.Some? ==> from <= r.value && Brackets(points, r.value, x)
    ensures r.Some? ==> forall j :: from <= j < r.value ==> !Brackets(points, j, x)
    ensures r.None? <==> forall j :: from <= j < |points| ==> !Brackets(points, j, x)
  {
    if from >= |points| then None
    else if Brackets(points, from, x) then Some(from)
    else FirstBracketFrom(points, x, from + 1)
  }

  /** What `polyline_z_at(points, x)` returns or raises. */
  function ZAt(points: seq<Point>, x: real): Result<real>
  {
    match FirstBracketFrom(points, x, 1)
    case None => Err(NotOnPolyline)
    case Some(i) =>
      if points[i - 1].x == points[i].x then Err(ZeroDivision)
      else Ok(Interpolate(points[i - 1], points[i], x))
  }

  /** `polyline_z_at`'s loop: scan the segments in order and interpolate on the first that brackets x. */
  method PolylineZAt(points: seq<Point>, x: real) returns (r: Result<real>)
    ensures r == ZAt(points, x)
  {
    var i := 1;
    while i < |points|
      invariant 1 <= i
      invariant forall j :: 1 <= j < i ==> !Brackets(points, j, x)
    {
      if points[i - 1].x <= x && x <= points[i].x {
        SkipUnbracketed(points, x, i);
        if points[i - 1].x == points[i].x {
          return Err(ZeroDivision);
        }
        return Ok(Interpolate(points[i - 1], points[i], x));
      }
      i := i + 1;
    }
    SkipUnbracketed(points, x, i);
    return Err(NotOnPolyline);
  }

  /** Segments before `from` that do not bracket x do not change where the search ends. */
  lemma SkipUnbracketed(points: seq<Point>, x: real, from: nat)
    requires 1 <= from
    requires forall j :: 1 <= j < from ==> !Brackets(points, j, x)
    ensures FirstBracketFrom(points, x, 1) == FirstBracketFrom(points, x, from)
  {
    var a, b := FirstBracketFrom(points, x, 1), FirstBracketFrom(points, x, from);
    if a.Some? && b.Some? {
      assert !(a.value < b.value) && !(b.value < a.value);
    }
  }

  /** The error "not between the start and end" is raised exactly when no segment brackets x. */
  lemma ZAtNotOnPolylineIff(points: seq<Point>, x: real)
    ensures ZAt(points, x) == Err(NotOnPolyline) <==> forall i :: 1 <= i < |points| ==> !Brackets(points, i, x)
  {
  }

  /** A polyline with fewer than two points has no segment, so every x is out of range. */
  lemma ZAtTooFewPoints(points: seq<Point>, x: real)
    requires |points| < 2
    ensures ZAt(points, x) == Err(NotOnPolyline)
  {
  }

  /** Only segments running left to right (or vertical) can bracket x: on a polyline whose every
      segment runs right to left, every x is out of range. */
  lemma ZAtRightToLeft(points: seq<Point>, x: real)
    requires forall i :: 1 <= i < |points| ==> points[i - 1].x > points[i].x
    ensures ZAt(points, x) == Err(NotOnPolyline)
  {
    ZAtNotOnPolylineIff(points, x);
  }

  /** Division by zero happens exactly when the first bracketing segment is vertical. */
  lemma ZAtZeroDivisionIff(points: seq<Point>, x: real)
    ensures ZAt(points, x) == Err(ZeroDivision) <==>
      exists i :: IsFirstBracket(points, i, x) && points[i - 1].x == points[i].x
  {
    var f := FirstBracketFrom(points, x, 1);
    if f.Some? {
      assert IsFirstBracket(points, f.value, x);
      forall i | IsFirstBracket(points, i, x) ensures i == f.value {
        assert !(i < f.value) && !(f.value < i);
      }
    }
  }

  /** A returned value is the interpolation on the first bracketing segment, which is not vertical. */
  lemma ZAtValue(points: seq<Point>, x: real)
    requires ZAt(points, x).Ok?
    ensures exists i :: (IsFirstBracket(points, i, x) && points[i - 1].x < points[i].x
                         && ZAt(points, x).value == Interpolate(points[i - 1], points[i], x))
  {
    var i := FirstBracketFrom(points, x, 1).value;
    assert IsFirstBracket(points, i, x) && points[i - 1].x < points[i].x;
  }

  /** Conversely, a first bracketing segment that is not vertical yields its interpolation. */
  lemma ZAtOnFirstBracket(points: seq<Point>, x: real, i: int)
    requires IsFirstBracket(points, i, x) && points[i - 1].x != points[i].x
    ensures ZAt(points, x) == Ok(Interpolate(points[i - 1], points[i], x))
  {
    var f := FirstBracketFrom(points, x, 1);
    assert !(i < f.value) && !(f.value < i);
  }

  /** On a non-vertical bracketing segment the interpolated value lies between the endpoint heights
      and meets them at the endpoints. */
  lemma InterpolateWithinSegment(p1: Point, p2: Point, x: real)
    requires p1.x < p2.x && p1.x <= x <= p2.x
    ensures p1.y <= p2.y ==> p1.y <= Interpolate(p1, p2, x) <= p2.y
    ensures p2.y <= p1.y ==> p2.y <= Interpolate(p1, p2, x) <= p1.y
    ensures x == p1.x ==> Interpolate(p1, p2, x) == p1.y
    ensures x == p2.x ==> Interpolate(p1, p2, x) == p2.y
  {
    var w := p2.x - p1.x;
    var t := (x - p1.x) / w;
    assert t * w == x - p1.x;
    assert 0.0 <= t <= 1.0;
    var d := p2.y - p1.y;
    if d >= 0.0 {
      assert 0.0 <= t * d <= d;
    } else {
      assert d <= t * d <= 0.0;
    }
  }

  /** Every value the function returns lies between the heights of the segment it used. */
  lemma ZAtWithinSegment(points: seq<Point>, x: real)
    requires ZAt(points, x).Ok?
    ensures exists i :: (IsFirstBracket(points, i, x) &&
                         (points[i - 1].y <= ZAt(points, x).value <= points[i].y ||
                          points[i].y <= ZAt(points, x).value <= points[i - 1].y))
  {
    var i := FirstBracketFrom(points, x, 1).value;
    InterpolateWithinSegment(points[i - 1], points[i], x);
    assert IsFirstBracket(points, i, x);
  }

  /** On the single segment from (0, 0) to (10, 10): x = 5 gives 5, x = 15 is out of range. */
  lemma ZAtExamples()
    ensures ZAt([Point(0.0, 0.0), Point(10.0, 10.0)], 5.0) == Ok(5.0)
    ensures ZAt([Point(0.0, 0.0), Point(10.0, 10.0)], 15.0) == Err(NotOnPolyline)
  {
  }
}
