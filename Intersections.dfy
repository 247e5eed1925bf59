/** The tail of `polyline_polyline_intersections`: classify the geometry shapely returned, drop the
    points that are vertices of the first line only, and sort the rest by x. */
module Intersections {
  import opened Wrappers
  import opened Geometry

  /** What `ls1.intersection(ls2)` returned, by shapely type: an empty geometry, a point,
      a multi-point, a line string, or anything else. */
  datatype Intersection = Empty | Pt(p: Point) | MultiPt(ps: seq<Point>) | Line | Other

  /** The points gathered in `result` before filtering. */
  function Candidates(g: Intersection): (c: seq<Point>)
  {
    match g
    case Pt(p) => [p]
    case MultiPt(ps) => ps
    case _ => []
  }

  /** The filter's condition: `not p in points_line1 or p in points_line2`. */
  predicate Kept(line1: seq<Point>, line2: seq<Point>, p: Point)
  {
    p !in line1 || p in line2
  }

  /** `[p for p in result if not p in points_line1 or p in points_line2]`: the kept points, in order. */
  function Survivors(line1: seq<Point>, line2: seq<Point>, s: seq<Point>): (r: seq<Point>)
    ensures forall p :: p in r <==> p in s && Kept(line1, line2, p)
    ensures forall p :: Kept(line1, line2, p) ==> multiset(r)[p] == multiset(s)[p]
    ensures forall p :: !Kept(line1, line2, p) ==> multiset(r)[p] == 0
  {
    if s == [] then []
    else
      assert s == [s[0]] + s[1..];
      (if Kept(line1, line2, s[0]) then [s[0]] else []) + Survivors(line1, line2, s[1..])
  }

  predicate SortedByX(s: seq<Point>)
  {
    forall i, j :: 0 <= i < j < |s| ==> s[i].x <= s[j].x
  }

  /** Insert p into a list sorted by x, before every element whose x is at least p's. */
  function InsertByX(p: Point, s: seq<Point>): (r: seq<Point>)
    requires SortedByX(s)
    ensures SortedByX(r)
    ensures forall q :: q in r <==> q == p || q in s
    ensures multiset(r) == multiset(s) + multiset{p}
  {
    if s == [] || p.x <= s[0].x then
      PrependSorted(p, s);
      [p] + s
    else
      var rest := InsertByX(p, s[1..]);
      assert s == [s[0]] + s[1..];
      PrependSorted(s[0], rest);
      [s[0]] + rest
  }

  /** A point no further right than the head of a list sorted by x, or than anything in it, can go first. */
  lemma PrependSorted(p: Point, s: seq<Point>)
    requires SortedByX(s)
    requires forall q :: q in s ==> p.x <= q.x
    ensures SortedByX([p] + s)
  {
    forall i, j | 0 <= i < j < |[p] + s| ensures ([p] + s)[i].x <= ([p] + s)[j].x {
      if i > 0 {
        assert ([p] + s)[i] == s[i - 1] && ([p] + s)[j] == s[j - 1];
      } else {
        assert ([p] + s)[j] == s[j - 1] && s[j - 1] in s;
      }
    }
  }

  /** `sorted(s, key=lambda p: p[0])`: Python's sort is stable, which an insertion sort that
      inserts each element before the equal keys of the later ones reproduces. */
  function SortByX(s: seq<Point>): (r: seq<Point>)
    ensures SortedByX(r)
    ensures multiset(r) == multiset(s)
  {
    if s == [] then []
    else
      assert s == [s[0]] + s[1..];
      InsertByX(s[0], SortByX(s[1..]))
  }

  /** Inserting p adds p to the front of its own key's points and leaves the other keys' points alone. */
  lemma {:induction false} InsertByXWithX(p: Point, s: seq<Point>, k: real)
    requires SortedByX(s)
    ensures WithX(InsertByX(p, s), k) == if p.x == k then [p] + WithX(s, k) else WithX(s, k)
  {
    if s == [] || p.x <= s[0].x {
      assert ([p] + s)[1..] == s;
    } else {
      var rest := InsertByX(p, s[1..]);
      InsertByXWithX(p, s[1..], k);
      assert ([s[0]] + rest)[1..] == rest;
    }
  }

  /** The sort is stable: the points sharing any one x keep their relative order. */
  lemma {:induction false} SortByXStable(s: seq<Point>, k: real)
    ensures WithX(SortByX(s), k) == WithX(s, k)
  {
    if s != [] {
      SortByXStable(s[1..], k);
      InsertByXWithX(s[0], SortByX(s[1..]), k);
    }
  }

  /** A list holds a point at its first element's x, so it is empty exactly when every column is. */
  lemma NonEmptyColumn(r: seq<Point>)
    requires r != []
    ensures r[0] in WithX(r, r[0].x)
  {
  }

  /** The first point of a list sorted by x heads the column at its x. */
  lemma HeadOfColumn(r: seq<Point>)
    requires r != []
    ensures WithX(r, r[0].x) == [r[0]] + WithX(r[1..], r[0].x)
    ensures forall k :: k != r[0].x ==> WithX(r, k) == WithX(r[1..], k)
  {
  }

  /** Two non-empty lists sorted by x with the same columns start with the same point. */
  lemma SameColumnsSameHead(r: seq<Point>, t: seq<Point>)
    requires SortedByX(r) && SortedByX(t) && r != [] && t != []
    requires WithX(r, r[0].x) == WithX(t, r[0].x) && WithX(r, t[0].x) == WithX(t, t[0].x)
    ensures r[0] == t[0]
  {
    NonEmptyColumn(r);
    NonEmptyColumn(t);
    assert r[0] in t && t[0] in r;
    var m := r[0].x;
    assert t[0].x == m by {
      var i :| 0 <= i < |t| && t[i] == r[0];
      var j :| 0 <= j < |r| && r[j] == t[0];
    }
    HeadOfColumn(r);
    HeadOfColumn(t);
    assert r[0] == WithX(r, m)[0] == WithX(t, m)[0] == t[0];
  }

  /** Removing the same first point from two lists with the same columns leaves the same columns. */
  lemma SameColumnsTails(r: seq<Point>, t: seq<Point>, k: real)
    requires r != [] && t != [] && r[0] == t[0]
    requires WithX(r, k) == WithX(t, k)
    ensures WithX(r[1..], k) == WithX(t[1..], k)
  {
    HeadOfColumn(r);
    HeadOfColumn(t);
    if k == r[0].x {
      assert WithX(r[1..], k) == WithX(r, k)[1..];
      assert WithX(t[1..], k) == WithX(t, k)[1..];
    }
  }

  /** Two lists sorted by x that hold the same points, in the same order, at every x are equal. */
  lemma {:induction false} SortedSameColumnsEqual(r: seq<Point>, t: seq<Point>)
    requires SortedByX(r) && SortedByX(t)
    requires forall k :: WithX(r, k) == WithX(t, k)
    ensures r == t
  {
    if r != [] && t != [] {
      SameColumnsSameHead(r, t);
      forall k ensures WithX(r[1..], k) == WithX(t[1..], k) {
        SameColumnsTails(r, t, k);
      }
      SortedSameColumnsEqual(r[1..], t[1..]);
      assert r == [r[0]] + r[1..] && t == [t[0]] + t[1..];
    } else if r != [] {
      NonEmptyColumn(r);
    } else if t != [] {
      NonEmptyColumn(t);
    }
  }

  /** `SortByX` is the stable sort by x: any list sorted by x that keeps the input's points at each x,
      in their input order, is its result. */
  lemma StableSortUnique(s: seq<Point>, r: seq<Point>)
    requires SortedByX(r)
    requires forall k :: WithX(r, k) == WithX(s, k)
    ensures r == SortByX(s)
  {
    forall k ensures WithX(r, k) == WithX(SortByX(s), k) {
      SortByXStable(s, k);
    }
    SortedSameColumnsEqual(r, SortByX(s));
  }

  /** What `polyline_polyline_intersections(line1, line2)` returns or raises, given that shapely's
      intersection of the two line strings was g. */
  function PolylineIntersections(line1: seq<Point>, line2: seq<Point>, g: Intersection): Result<seq<Point>>
  {
    if g.Other? then Err(UnimplementedIntersection)
    else Ok(SortByX(Survivors(line1, line2, Candidates(g))))
  }

  /** An unsupported geometry type raises; an empty result and a line-string overlap give no points;
      otherwise the result is exactly the kept candidates, each as often as shapely gave it,
      sorted by x, stable within each x. */
  lemma PolylineIntersectionsSpec(line1: seq<Point>, line2: seq<Point>, g: Intersection)
    ensures PolylineIntersections(line1, line2, g).Err? <==> g.Other?
    ensures g.Empty? || g.Line? ==> PolylineIntersections(line1, line2, g) == Ok([])
    ensures !g.Other? ==> var r := PolylineIntersections(line1, line2, g).value;
      SortedByX(r) &&
      (forall p :: p in r <==> p in Candidates(g) && Kept(line1, line2, p)) &&
      (forall p :: multiset(r)[p] == if Kept(line1, line2, p) then multiset(Candidates(g))[p] else 0) &&
      (forall k :: WithX(r, k) == WithX(Survivors(line1, line2, Candidates(g)), k))
  {
    if !g.Other? {
      var kept := Survivors(line1, line2, Candidates(g));
      var r := SortByX(kept);
      forall k ensures WithX(r, k) == WithX(kept, k) {
        SortByXStable(kept, k);
      }
      forall p ensures p in r <==> p in kept {
        assert p in r <==> p in multiset(r);
      }
    }
  }

  /** A single crossing point that is not a vertex of the first line is reported on its own. */
  lemma SinglePointKept(line1: seq<Point>, line2: seq<Point>, p: Point)
    requires p !in line1
    ensures PolylineIntersections(line1, line2, Pt(p)) == Ok([p])
  {
    assert Survivors(line1, line2, [p]) == [p];
    assert SortByX([p]) == InsertByX(p, []);
  }

  /** A single crossing point at a vertex of the first line that is not a vertex of the second is dropped. */
  lemma SinglePointDropped(line1: seq<Point>, line2: seq<Point>, p: Point)
    requires p in line1 && p !in line2
    ensures PolylineIntersections(line1, line2, Pt(p)) == Ok([])
  {
  }
}
