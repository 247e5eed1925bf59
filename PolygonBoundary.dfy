/** `top_of_polygon` and `bottom_of_polygon`: the run of vertices between the left and right extremes. */
module PolygonBoundary {
  import opened Wrappers
  import opened Geometry

  /** `min([p[0] for p in points])`. */
  function MinX(points: seq<Point>): (m: real)
    requires |points| > 0
    ensures exists p :: p in points && p.x == m
    ensures forall p :: p in points ==> m <= p.x
  {
    if |points| == 1 then points[0].x
    else
      var rest := MinX(points[1..]);
      assert forall p :: p in points ==> p == points[0] || p in points[1..];
      if points[0].x <= rest then points[0].x else rest
  }

  /** `max([p[0] for p in points])`. */
  function MaxX(points: seq<Point>): (m: real)
    requires |points| > 0
    ensures exists p :: p in points && p.x == m
    ensures forall p :: p in points ==> p.x <= m
  {
    if |points| == 1 then points[0].x
    else
      var rest := MaxX(points[1..]);
      assert forall p :: p in points ==> p == points[0] || p in points[1..];
      if points[0].x >= rest then points[0].x else rest
  }

  /** The y of the last element of `sorted(column, key=lambda p: p[1])`: the largest y. */
  function HighestY(column: seq<Point>): (m: real)
    requires |column| > 0
    ensures exists p :: p in column && p.y == m
    ensures forall p :: p in column ==> p.y <= m
  {
    if |column| == 1 then column[0].y
    else
      var rest := HighestY(column[1..]);
      assert forall p :: p in column ==> p == column[0] || p in column[1..];
      if column[0].y >= rest then column[0].y else rest
  }

  /** The y of the first element of `sorted(column, key=lambda p: p[1])`: the smallest y. */
  function LowestY(column: seq<Point>): (m: real)
    requires |column| > 0
    ensures exists p :: p in column && p.y == m
    ensures forall p :: p in column ==> m <= p.y
  {
    if |column| == 1 then column[0].y
    else
      var rest := LowestY(column[1..]);
      assert forall p :: p in column ==> p == column[0] || p in column[1..];
      if column[0].y <= rest then column[0].y else rest
  }

  /** p is a leftmost vertex and no leftmost vertex lies above it. */
  ghost predicate IsTopLeft(points: seq<Point>, p: Point)
  {
    p in points && (forall q :: q in points ==> p.x <= q.x) &&
    (forall q :: q in points && q.x == p.x ==> q.y <= p.y)
  }

  /** p is a rightmost vertex and no rightmost vertex lies above it. */
  ghost predicate IsTopRight(points: seq<Point>, p: Point)
  {
    p in points && (forall q :: q in points ==> q.x <= p.x) &&
    (forall q :: q in points && q.x == p.x ==> q.y <= p.y)
  }

  /** p is a leftmost vertex and no leftmost vertex lies below it. */
  ghost predicate IsBottomLeft(points: seq<Point>, p: Point)
  {
    p in points && (forall q :: q in points ==> p.x <= q.x) &&
    (forall q :: q in points && q.x == p.x ==> p.y <= q.y)
  }

  /** p is a rightmost vertex and no rightmost vertex lies below it. */
  ghost predicate IsBottomRight(points: seq<Point>, p: Point)
  {
    p in points && (forall q :: q in points ==> q.x <= p.x) &&
    (forall q :: q in points && q.x == p.x ==> p.y <= q.y)
  }

  /** `topleft_point`: the highest of the points with the smallest x. Every candidate
      the stable sort could leave last has the same coordinates, so the value is this one. */
  function TopLeft(points: seq<Point>): (p: Point)
    requires |points| > 0
    ensures IsTopLeft(points, p)
  {
    var left := MinX(points);
    var column := WithX(points, left);
    Point(left, HighestY(column))
  }

  /** `topright_point`: the highest of the points with the largest x. */
  function TopRight(points: seq<Point>): (p: Point)
    requires |points| > 0
    ensures IsTopRight(points, p)
  {
    var right := MaxX(points);
    var column := WithX(points, right);
    Point(right, HighestY(column))
  }

  /** `bottomleft_point`: the lowest of the points with the smallest x. */
  function BottomLeft(points: seq<Point>): (p: Point)
    requires |points| > 0
    ensures IsBottomLeft(points, p)
  {
    var left := MinX(points);
    var column := WithX(points, left);
    Point(left, LowestY(column))
  }

  /** `bottomright_point`: the lowest of the points with the largest x. */
  function BottomRight(points: seq<Point>): (p: Point)
    requires |points| > 0
    ensures IsBottomRight(points, p)
  {
    var right := MaxX(points);
    var column := WithX(points, right);
    Point(right, LowestY(column))
  }

  /** i is the first position at which p occurs in points. */
  predicate IsFirstIndexOf(points: seq<Point>, i: int, p: Point)
  {
    0 <= i < |points| && points[i] == p && forall j :: 0 <= j < i ==> points[j] != p
  }

  /** `points.index(p)`: the first position holding a value equal to p. */
  function IndexOf(points: seq<Point>, p: Point): (i: nat)
    requires p in points
    ensures IsFirstIndexOf(points, i, p)
  {
    if points[0] == p then 0 else 1 + IndexOf(points[1..], p)
  }

  /** Position i taken around a ring of n vertices, for 0 <= i < 2n. */
  function Ring(i: int, n: int): (j: int)
    requires 0 <= i < 2 * n
    ensures 0 <= j < n
    ensures j == i || j == i - n
  {
    if i < n then i else i - n
  }

  /** `points[lo:hi + 1]` when hi > lo, otherwise `points[lo:] + points[:hi + 1]`:
      the vertices met walking forward around the ring from lo to hi. */
  function CircularSlice(points: seq<Point>, lo: nat, hi: nat): (r: seq<Point>)
    requires lo < |points| && hi < |points|
    ensures |r| == if hi > lo then hi - lo + 1 else |points| - lo + hi + 1
  {
    if hi > lo then points[lo..hi + 1] else points[lo..] + points[..hi + 1]
  }

  /** Position k of a circular slice is vertex lo + k taken around the ring. */
  lemma CircularSliceAt(points: seq<Point>, lo: nat, hi: nat, k: int)
    requires lo < |points| && hi < |points|
    requires 0 <= k < |CircularSlice(points, lo, hi)|
    ensures CircularSlice(points, lo, hi)[k] == points[Ring(lo + k, |points|)]
  {
  }

  /** A circular slice walks forward around the ring from lo to hi. */
  lemma ForwardWalk(points: seq<Point>, lo: nat, hi: nat)
    requires lo < |points| && hi < |points|
    ensures var r := CircularSlice(points, lo, hi);
      |r| > 0 && r[0] == points[lo] && r[|r| - 1] == points[hi] && WalksForward(points, r, lo, hi)
  {
    CircularSliceEnds(points, lo, hi);
    forall k | 0 <= k < |CircularSlice(points, lo, hi)|
      ensures CircularSlice(points, lo, hi)[k] == points[Ring(lo + k, |points|)]
    {
      CircularSliceAt(points, lo, hi, k);
    }
  }

  /** `s[::-1]`. */
  function Reverse(s: seq<Point>): (r: seq<Point>)
    ensures |r| == |s|
    ensures forall k :: 0 <= k < |s| ==> r[k] == s[|s| - 1 - k]
  {
    if s == [] then [] else Reverse(s[1..]) + [s[0]]
  }

  /** What `top_of_polygon(points)` returns or raises (`min` of an empty list raises). */
  function TopOfPolygon(points: seq<Point>): Result<seq<Point>>
  {
    if |points| == 0 then Err(EmptyArgument)
    else
      var idxLeft := IndexOf(points, TopLeft(points));
      var idxRight := IndexOf(points, TopRight(points));
      Ok(CircularSlice(points, idxLeft, idxRight))
  }

  /** What `bottom_of_polygon(points)` returns or raises. */
  function BottomOfPolygon(points: seq<Point>): Result<seq<Point>>
  {
    if |points| == 0 then Err(EmptyArgument)
    else
      var idxLeft := IndexOf(points, BottomLeft(points));
      var idxRight := IndexOf(points, BottomRight(points));
      Ok(Reverse(CircularSlice(points, idxRight, idxLeft)))
  }

  /** r lists the ring of vertices forward from index start to index stop (all the way round when
      start == stop). */
  ghost predicate WalksForward(points: seq<Point>, r: seq<Point>, start: int, stop: int)
    requires 0 <= start < |points| && 0 <= stop < |points|
  {
    |r| == (if stop > start then stop - start + 1 else |points| - start + stop + 1) &&
    forall k :: 0 <= k < |r| ==> r[k] == points[Ring(start + k, |points|)]
  }

  /** r lists the ring of vertices backward from index start to index stop (all the way round when
      start == stop). */
  ghost predicate WalksBackward(points: seq<Point>, r: seq<Point>, start: int, stop: int)
    requires 0 <= start < |points| && 0 <= stop < |points|
  {
    |r| == (if start > stop then start - stop + 1 else |points| - stop + start + 1) &&
    forall k :: 0 <= k < |r| ==> r[k] == points[Ring(start - k + |points|, |points|)]
  }

  /** Both functions raise exactly on an empty list of points. */
  lemma BoundaryFailsIffEmpty(points: seq<Point>)
    ensures TopOfPolygon(points).Err? <==> |points| == 0
    ensures BottomOfPolygon(points).Err? <==> |points| == 0
  {
  }

  /** The first and last vertices of a circular slice are the two indices it was cut at. */
  lemma CircularSliceEnds(points: seq<Point>, lo: nat, hi: nat)
    requires lo < |points| && hi < |points|
    ensures var r := CircularSlice(points, lo, hi); r[0] == points[lo] && r[|r| - 1] == points[hi]
  {
    CircularSliceAt(points, lo, hi, 0);
    CircularSliceAt(points, lo, hi, |CircularSlice(points, lo, hi)| - 1);
  }

  /** The top is the circular slice cut at the first occurrences of its two extreme vertices. */
  lemma TopOfPolygonSlice(points: seq<Point>)
    requires |points| > 0
    ensures TopOfPolygon(points) ==
      Ok(CircularSlice(points, IndexOf(points, TopLeft(points)), IndexOf(points, TopRight(points))))
  {
  }

  /** The bottom is the reversed circular slice cut at the first occurrences of its two extreme vertices. */
  lemma BottomOfPolygonSlice(points: seq<Point>)
    requires |points| > 0
    ensures BottomOfPolygon(points) ==
      Ok(Reverse(CircularSlice(points, IndexOf(points, BottomRight(points)), IndexOf(points, BottomLeft(points)))))
  {
  }

  /** Cutting the ring at the first occurrences of two vertices gives a run from the one to the other. */
  lemma SliceBetween(points: seq<Point>, a: Point, b: Point)
    requires a in points && b in points
    ensures var r := CircularSlice(points, IndexOf(points, a), IndexOf(points, b));
      |r| > 0 && r[0] == a && r[|r| - 1] == b
  {
    var l, h := IndexOf(points, a), IndexOf(points, b);
    assert points[l] == a && points[h] == b;
    CircularSliceEnds(points, l, h);
  }

  /** The top starts at the highest leftmost vertex and ends at the highest rightmost vertex. */
  lemma TopOfPolygonEnds(points: seq<Point>)
    requires |points| > 0
    ensures TopOfPolygon(points).Ok? && |TopOfPolygon(points).value| > 0
    ensures var r := TopOfPolygon(points).value;
      IsTopLeft(points, r[0]) && IsTopRight(points, r[|r| - 1])
  {
    TopOfPolygonSlice(points);
    SliceBetween(points, TopLeft(points), TopRight(points));
  }

  /** The top walks forward around the ring from the first occurrence of its first vertex
      to the first occurrence of its last vertex. */
  lemma TopOfPolygonWalk(points: seq<Point>)
    requires |points| > 0
    ensures TopOfPolygon(points).Ok? && |TopOfPolygon(points).value| > 0
    ensures var r := TopOfPolygon(points).value;
      exists l, h :: IsFirstIndexOf(points, l, r[0]) && IsFirstIndexOf(points, h, r[|r| - 1]) &&
                     WalksForward(points, r, l, h)
  {
    var l := IndexOf(points, TopLeft(points));
    var h := IndexOf(points, TopRight(points));
    var r := CircularSlice(points, l, h);
    TopOfPolygonSlice(points);
    ForwardWalk(points, l, h);
    assert IsFirstIndexOf(points, l, r[0]) && IsFirstIndexOf(points, h, r[|r| - 1]);
  }

  /** The bottom starts at the lowest leftmost vertex and ends at the lowest rightmost vertex. */
  lemma BottomOfPolygonEnds(points: seq<Point>)
    requires |points| > 0
    ensures BottomOfPolygon(points).Ok? && |BottomOfPolygon(points).value| > 0
    ensures var r := BottomOfPolygon(points).value;
      IsBottomLeft(points, r[0]) && IsBottomRight(points, r[|r| - 1])
  {
    BottomOfPolygonSlice(points);
    ReverseWalk(points, IndexOf(points, BottomRight(points)), IndexOf(points, BottomLeft(points)));
  }

  /** Reversing the forward walk from h to l gives the backward walk from l to h. */
  lemma ReverseWalk(points: seq<Point>, h: nat, l: nat)
    requires h < |points| && l < |points|
    ensures var r := Reverse(CircularSlice(points, h, l));
      |r| > 0 && r[0] == points[l] && r[|r| - 1] == points[h] && WalksBackward(points, r, l, h)
  {
    var n := |points|;
    var r := Reverse(CircularSlice(points, h, l));
    forall k | 0 <= k < |r| ensures r[k] == points[Ring(l - k + n, n)] {
      ReverseWalkAt(points, h, l, k);
    }
    CircularSliceEnds(points, h, l);
  }

  /** One position of the reversed forward walk. */
  lemma ReverseWalkAt(points: seq<Point>, h: nat, l: nat, k: int)
    requires h < |points| && l < |points|
    requires 0 <= k < |CircularSlice(points, h, l)|
    ensures Reverse(CircularSlice(points, h, l))[k] == points[Ring(l - k + |points|, |points|)]
  {
    var s := CircularSlice(points, h, l);
    CircularSliceAt(points, h, l, |s| - 1 - k);
    assert Reverse(s)[k] == s[|s| - 1 - k] == points[Ring(h + |s| - 1 - k, |points|)];
  }

  /** The bottom walks backward around the ring from the first occurrence of its first vertex
      to the first occurrence of its last vertex. */
  lemma BottomOfPolygonWalk(points: seq<Point>)
    requires |points| > 0
    ensures BottomOfPolygon(points).Ok? && |BottomOfPolygon(points).value| > 0
    ensures var r := BottomOfPolygon(points).value;
      exists l, h :: IsFirstIndexOf(points, l, r[0]) && IsFirstIndexOf(points, h, r[|r| - 1]) &&
                     WalksBackward(points, r, l, h)
  {
    var l := IndexOf(points, BottomLeft(points));
    var h := IndexOf(points, BottomRight(points));
    var r := Reverse(CircularSlice(points, h, l));
    BottomOfPolygonSlice(points);
    ReverseWalk(points, h, l);
    assert IsFirstIndexOf(points, l, r[0]) && IsFirstIndexOf(points, h, r[|r| - 1]);
  }

  /** When every vertex shares one x the two extremes are the same vertex: the top is the whole ring
      starting and ending there, n + 1 points. */
  lemma TopOfPolygonSingleColumn(points: seq<Point>)
    requires |points| > 0
    requires forall p :: p in points ==> p.x == points[0].x
    ensures var r := TopOfPolygon(points).value;
      |r| == |points| + 1 && r[0] == r[|points|] && IsTopLeft(points, r[0])
  {
    assert TopLeft(points) == TopRight(points);
  }

  /** The same for the bottom. */
  lemma BottomOfPolygonSingleColumn(points: seq<Point>)
    requires |points| > 0
    requires forall p :: p in points ==> p.x == points[0].x
    ensures var r := BottomOfPolygon(points).value;
      |r| == |points| + 1 && r[0] == r[|points|] && IsBottomLeft(points, r[0])
  {
    assert BottomLeft(points) == BottomRight(points);
  }

  /** The characterisations pin the extreme vertices down: any vertex meeting one is the chosen vertex. */
  lemma ExtremesUnique(points: seq<Point>, p: Point)
    requires |points| > 0
    ensures IsTopLeft(points, p) ==> p == TopLeft(points)
    ensures IsTopRight(points, p) ==> p == TopRight(points)
    ensures IsBottomLeft(points, p) ==> p == BottomLeft(points)
    ensures IsBottomRight(points, p) ==> p == BottomRight(points)
  {
  }

  /** sq is the clockwise unit square (0,0), (0,1), (1,1), (1,0). */
  predicate IsUnitSquare(sq: seq<Point>)
  {
    |sq| == 4 && sq[0] == Point(0.0, 0.0) && sq[1] == Point(0.0, 1.0) &&
    sq[2] == Point(1.0, 1.0) && sq[3] == Point(1.0, 0.0)
  }

  /** The unit square's top extremes and where they sit in the list. */
  lemma UnitSquareTopExtremes(sq: seq<Point>)
    requires IsUnitSquare(sq)
    ensures IndexOf(sq, TopLeft(sq)) == 1 && IndexOf(sq, TopRight(sq)) == 2
  {
    assert forall p :: p in sq ==> p == sq[0] || p == sq[1] || p == sq[2] || p == sq[3];
    assert IsTopLeft(sq, sq[1]) && IsTopRight(sq, sq[2]);
    ExtremesUnique(sq, sq[1]);
    ExtremesUnique(sq, sq[2]);
  }

  /** The unit square's bottom extremes and where they sit in the list. */
  lemma UnitSquareBottomExtremes(sq: seq<Point>)
    requires IsUnitSquare(sq)
    ensures IndexOf(sq, BottomLeft(sq)) == 0 && IndexOf(sq, BottomRight(sq)) == 3
  {
    assert forall p :: p in sq ==> p == sq[0] || p == sq[1] || p == sq[2] || p == sq[3];
    assert IsBottomLeft(sq, sq[0]) && IsBottomRight(sq, sq[3]);
    ExtremesUnique(sq, sq[0]);
    ExtremesUnique(sq, sq[3]);
  }

  /** The top of the unit square is its upper edge (0,1)-(1,1), left to right. */
  lemma UnitSquareTop(sq: seq<Point>)
    requires IsUnitSquare(sq)
    ensures TopOfPolygon(sq) == Ok([Point(0.0, 1.0), Point(1.0, 1.0)])
  {
    UnitSquareTopExtremes(sq);
    TopOfPolygonSlice(sq);
    assert CircularSlice(sq, 1, 2) == [sq[1], sq[2]];
  }

  /** The bottom of the unit square is its lower edge (0,0)-(1,0), left to right. */
  lemma UnitSquareBottom(sq: seq<Point>)
    requires IsUnitSquare(sq)
    ensures BottomOfPolygon(sq) == Ok([Point(0.0, 0.0), Point(1.0, 0.0)])
  {
    UnitSquareBottomExtremes(sq);
    BottomOfPolygonSlice(sq);
    var s := CircularSlice(sq, 3, 0);
    assert s == [sq[3], sq[0]];
    assert Reverse(s) == [sq[0], sq[3]];
  }
}
