# geolib utility helpers, modelled in Dafny

This project models the stand-alone helpers in `geolib/utils.py` of GEOLib. They are:

- **`polyline_z_at`**: the height of a polyline at a given x. It scans consecutive point pairs in order and interpolates linearly on the first pair whose x-range brackets x.
- **`top_of_polygon` / `bottom_of_polygon`**: the run of polygon vertices between the extreme-left and extreme-right vertices. The top picks the highest vertex at each extreme; the bottom picks the lowest and reverses its run. Both locate vertices by first occurrence (`list.index`) and cut a circular slice of the vertex list.
- **The newline rule** built by `make_newline_validator`: a text field is padded with line breaks up to a required count.
- **`snake_to_camel`**: split on `_`, title-case each piece, concatenate.
- **The tail of `polyline_polyline_intersections`**: classify the geometry that shapely returned, drop the points that are vertices of the first line only, and stably sort the rest by x.

Python floats are modelled as Dafny `real`s. Each Python exception becomes an `Err` value of `Wrappers.Result` (`EmptyArgument`, `NotOnPolyline`, `ZeroDivision`, `UnimplementedIntersection`).

Modules:

- `Wrappers`: Option, Result and the failures.
- `Geometry`: `Point` and the column filter `WithX`.
- `Text`: character counting.
- `NewlineRule`
- `Naming`
- `Interpolation`
- `PolygonBoundary`
- `Intersections`

`polyline_z_at` is a method with a loop, as in Python. It is proved equal to the function `ZAt`, and the properties are proved about `ZAt`. The other helpers are pure functions in Python and are pure functions here.

Points where the model follows what the code does rather than what its comments suggest:

- The intersection filter at line 85 keeps a point when it is *not* a vertex of line 1 *or* it is a vertex of line 2. The comment at line 84 says something else; the model follows the code.
- The `elif intersections.is_empty` branch at line 79 can never run, because line 70 tests the same condition first. The model has no such branch.
- A polyline is meant to have at least two points, but the code accepts any list. With fewer than two points it raises the out-of-range error (`ZAtTooFewPoints`).
- `sorted(column, key=y)[-1]` (or `[0]`) is modelled as the largest (or smallest) y in the column. Every point in the column has the same x, so every candidate the stable sort could put at that end has the same coordinates. The chosen value is therefore unique (`ExtremesUnique`), and `list.index` fixes its position as the first occurrence.
- When every vertex shares one x, the two extreme vertices coincide. Both functions then return the whole ring plus one repeated vertex: n + 1 points (`TopOfPolygonSingleColumn`, `BottomOfPolygonSingleColumn`).

## Model

| member | source | states |
|---|---|---|
| `Geometry.WithX` | geolib/utils.py:103 | the comprehension `[p for p in points if p[0] == x0]` holds exactly the points with that x, and is no longer than the input |
| `Text.Count` | geolib/utils.py:46 | `v.count("\n")` is at most the length and is zero exactly when the character is absent |
| `Text.CountConcat` | geolib/utils.py:51 | counting line breaks distributes over the `+=` concatenation |
| `NewlineRule.Newlines` | geolib/utils.py:51 | `k * "\n"` has length k and consists only of line breaks |
| `NewlineRule.CountNewlines` | geolib/utils.py:51 | `k * "\n"` holds exactly k line breaks |
| `NewlineRule.EnsureNewlines` | geolib/utils.py:45-56 | the result holds exactly max(count, req) line breaks; the input is a prefix; only line breaks are appended; the input comes back unchanged when it already has at least req line breaks |
| `NewlineRule.EnsureNewlinesIdempotent` | geolib/utils.py:45-56 | applying the rule twice gives the same string as applying it once |
| `Naming.ToUpper` | geolib/utils.py:31 | ASCII upper-casing keeps letters letters and makes them upper-case; it leaves other characters alone |
| `Naming.ToLower` | geolib/utils.py:31 | ASCII lower-casing keeps letters letters and makes them lower-case; it leaves other characters alone |
| `Naming.TitleFrom` | geolib/utils.py:31 | `word.title()` keeps the length and leaves every non-letter unchanged; a letter is lower-cased when the character before it is a letter and upper-cased otherwise (digits and other non-letters start a new word) |
| `Naming.Split` | geolib/utils.py:31 | `name.split("_")` gives one more piece than there are underscores, and no piece holds an underscore |
| `Naming.SplitJoin` | geolib/utils.py:31 | joining the pieces of a split with `_` restores the name (split and join are inverse) |
| `Naming.SplitLength` | geolib/utils.py:31 | the pieces together hold every character of the name except the underscores |
| `Naming.ConcatFacts` | geolib/utils.py:31 | `"".join(pieces)` is as long as the pieces together and holds a character exactly when some piece does |
| `Naming.TitledLength` | geolib/utils.py:31 | title-casing every piece keeps their total length |
| `Naming.TitleAfterLetter` | geolib/utils.py:31 | after a letter, `title` lower-cases a run of letters |
| `Naming.PiecesOfLetters` | geolib/utils.py:31 | splitting a name of letters and underscores on `_` gives pieces made only of letters |
| `Naming.Title` | geolib/utils.py:31 | `word.title()`: no ensures of its own; it is `TitleFrom` from the start of a word, whose contract gives the per-character rule |
| `Naming.Concat` | geolib/utils.py:31 | `"".join(pieces)`: no ensures of its own; specified by `ConcatFacts` and `TitledLength` |
| `Naming.TitledPieces` | geolib/utils.py:31 | the list comprehension `[word.title() for word in name.split("_")]`: no ensures of its own; specified by `TitledLength` and `TitleAfterLetter` |
| `Naming.SnakeToCamel` | geolib/utils.py:30-31 | `snake_to_camel`: no ensures of its own; specified by `SnakeToCamelShape` and `SnakeToCamelOfLetters` |
| `Naming.SnakeToCamelShape` | geolib/utils.py:30-31 | for an ASCII name, the result holds no underscore, and its length is the name's length minus its number of underscores |
| `Naming.SnakeToCamelOfLetters` | geolib/utils.py:30-31 | for a name of ASCII letters and underscores, the result is the `_`-separated pieces in order, each with its first letter upper-cased and the rest lower-cased |
| `Interpolation.Interpolate` | geolib/utils.py:158 | the interpolation formula: no ensures of its own; specified by `InterpolateWithinSegment` |
| `Interpolation.FirstBracketFrom` | geolib/utils.py:154-157 | the search returns the first segment at or after a start index that brackets x, with no earlier one from there bracketing it; it returns nothing exactly when no segment from there brackets x |
| `Interpolation.PolylineZAt` | geolib/utils.py:153-161 | the loop returns exactly what `ZAt` specifies: interpolation on the first bracketing segment, division by zero on a vertical one, or the out-of-range error |
| `Interpolation.ZAt` | geolib/utils.py:153-161 | `polyline_z_at` as a function: no ensures of its own; specified by `ZAtNotOnPolylineIff`, `ZAtZeroDivisionIff`, `ZAtValue`, `ZAtOnFirstBracket` and `ZAtWithinSegment`, and implemented by the loop in `PolylineZAt` |
| `Interpolation.SkipUnbracketed` | geolib/utils.py:154-157 | segments already scanned without a bracket do not change which segment the scan finds |
| `Interpolation.ZAtNotOnPolylineIff` | geolib/utils.py:154-161 | the out-of-range error is raised if and only if no consecutive pair brackets x |
| `Interpolation.ZAtTooFewPoints` | geolib/utils.py:154-161 | with fewer than two points, every x is out of range |
| `Interpolation.ZAtRightToLeft` | geolib/utils.py:157-161 | when every segment runs right to left, no segment brackets x, so every x is out of range |
| `Interpolation.ZAtZeroDivisionIff` | geolib/utils.py:155-158 | division by zero happens if and only if the first bracketing segment is vertical |
| `Interpolation.ZAtValue` | geolib/utils.py:154-158 | a returned value is `y1 + (x-x1)/(x2-x1)*(y2-y1)` on the first bracketing segment, which is not vertical, and no earlier segment brackets x |
| `Interpolation.ZAtOnFirstBracket` | geolib/utils.py:154-158 | conversely, a first bracketing segment that is not vertical yields its interpolation |
| `Interpolation.InterpolateWithinSegment` | geolib/utils.py:158 | on a bracketing segment running left to right, the formula stays between the two endpoint heights and meets them at the endpoints |
| `Interpolation.ZAtWithinSegment` | geolib/utils.py:154-158 | every returned value lies between the heights of the first bracketing segment's endpoints |
| `Interpolation.ZAtExamples` | geolib/utils.py:153-161 | on the segment (0,0)-(10,10), x = 5 gives 5 and x = 15 raises the out-of-range error |
| `PolygonBoundary.MinX` | geolib/utils.py:102 | `min` of the x coordinates is the x of some point and no greater than any point's x |
| `PolygonBoundary.MaxX` | geolib/utils.py:106 | `max` of the x coordinates is the x of some point and no smaller than any point's x |
| `PolygonBoundary.HighestY` | geolib/utils.py:103 | the y of the last point after sorting the column by y is the y of some column point and no smaller than any |
| `PolygonBoundary.LowestY` | geolib/utils.py:132 | the y of the first point after sorting the column by y is the y of some column point and no greater than any |
| `PolygonBoundary.TopLeft` | geolib/utils.py:102-103 | `topleft_point` is a vertex with the smallest x, and no vertex with that x lies above it |
| `PolygonBoundary.TopRight` | geolib/utils.py:106-107 | `topright_point` is a vertex with the largest x, and no vertex with that x lies above it |
| `PolygonBoundary.BottomLeft` | geolib/utils.py:131-132 | `bottomleft_point` is a vertex with the smallest x, and no vertex with that x lies below it |
| `PolygonBoundary.BottomRight` | geolib/utils.py:135-138 | `bottomright_point` is a vertex with the largest x, and no vertex with that x lies below it |
| `PolygonBoundary.ExtremesUnique` | geolib/utils.py:102-107 | each of the four characterisations is met by one vertex value only, so the sort's tie order cannot change the chosen point |
| `PolygonBoundary.IndexOf` | geolib/utils.py:110 | `points.index(p)` is the first position holding a value equal to p |
| `PolygonBoundary.Ring` | geolib/utils.py:117 | an index past the end wraps to the front of the list: the result lies in range and differs from the input by 0 or n |
| `PolygonBoundary.CircularSlice` | geolib/utils.py:114-117 | the slice has hi - lo + 1 points when hi > lo, and n - lo + hi + 1 points otherwise |
| `PolygonBoundary.CircularSliceAt` | geolib/utils.py:114-117 | position k of the slice is vertex lo + k, wrapped around the ring |
| `PolygonBoundary.CircularSliceEnds` | geolib/utils.py:114-117 | the slice starts at index lo and ends at index hi |
| `PolygonBoundary.ForwardWalk` | geolib/utils.py:114-117 | the slice walks forward around the ring from lo to hi, going all the way round when lo == hi |
| `PolygonBoundary.SliceBetween` | geolib/utils.py:110-117 | cutting at the first occurrences of two vertices gives a run from the one to the other |
| `PolygonBoundary.Reverse` | geolib/utils.py:150 | `s[::-1]` has the same length, and position k holds element n-1-k |
| `PolygonBoundary.ReverseWalk` | geolib/utils.py:145-150 | the reversed forward slice from the right index to the left index walks the ring backward from left to right |
| `PolygonBoundary.ReverseWalkAt` | geolib/utils.py:145-150 | position k of the reversed slice is vertex left - k, wrapped around the ring |
| `PolygonBoundary.BoundaryFailsIffEmpty` | geolib/utils.py:102 | both functions raise (from `min` of an empty list) if and only if there are no points |
| `PolygonBoundary.TopOfPolygon` | geolib/utils.py:93-119 | `top_of_polygon`: no ensures of its own; specified by `BoundaryFailsIffEmpty`, `TopOfPolygonEnds`, `TopOfPolygonWalk` and `TopOfPolygonSingleColumn` |
| `PolygonBoundary.BottomOfPolygon` | geolib/utils.py:122-150 | `bottom_of_polygon`: no ensures of its own; specified by `BoundaryFailsIffEmpty`, `BottomOfPolygonEnds`, `BottomOfPolygonWalk` and `BottomOfPolygonSingleColumn` |
| `PolygonBoundary.TopOfPolygonEnds` | geolib/utils.py:102-117 | the top starts at the highest vertex among those with minimal x and ends at the highest vertex among those with maximal x |
| `PolygonBoundary.TopOfPolygonWalk` | geolib/utils.py:110-117 | the top walks forward around the ring from the first occurrence of its first vertex to the first occurrence of its last; it has r - l + 1 points when r > l, and n - l + r + 1 otherwise |
| `PolygonBoundary.BottomOfPolygonEnds` | geolib/utils.py:131-150 | the bottom starts at the lowest vertex among those with minimal x and ends at the lowest vertex among those with maximal x |
| `PolygonBoundary.BottomOfPolygonWalk` | geolib/utils.py:141-150 | the bottom walks backward around the ring from the first occurrence of its first vertex to the first occurrence of its last |
| `PolygonBoundary.TopOfPolygonSingleColumn` | geolib/utils.py:114-117 | when all vertices share one x, the top has n + 1 points and both ends are the same top-left vertex |
| `PolygonBoundary.BottomOfPolygonSingleColumn` | geolib/utils.py:145-150 | when all vertices share one x, the bottom has n + 1 points and both ends are the same bottom-left vertex |
| `PolygonBoundary.UnitSquareTopExtremes` | geolib/utils.py:102-112 | for the clockwise unit square (0,0),(0,1),(1,1),(1,0), the top extremes sit at indices 1 and 2 |
| `PolygonBoundary.UnitSquareBottomExtremes` | geolib/utils.py:131-143 | for the same square, the bottom extremes sit at indices 0 and 3 |
| `PolygonBoundary.UnitSquareTop` | geolib/utils.py:93-119 | the top of the clockwise unit square is its upper edge (0,1),(1,1) |
| `PolygonBoundary.UnitSquareBottom` | geolib/utils.py:122-150 | the bottom of the clockwise unit square is its lower edge (0,0),(1,0), left to right |
| `Intersections.Survivors` | geolib/utils.py:85 | the filter keeps a candidate exactly when it is not a vertex of line 1 or is a vertex of line 2, keeps every copy of a kept point, and drops every copy of the others |
| `Intersections.PrependSorted` | geolib/utils.py:90 | a point no further right than anything in a list sorted by x can go at its front |
| `Intersections.InsertByX` | geolib/utils.py:90 | inserting into a list sorted by x keeps it sorted, adds exactly the one point, and loses nothing |
| `Intersections.SortByX` | geolib/utils.py:90 | `sorted(..., key=x)` is sorted ascending by x and is a permutation of its input |
| `Intersections.InsertByXWithX` | geolib/utils.py:90 | the inserted point goes in front of the points with the same x and leaves every other x's points alone |
| `Intersections.SortByXStable` | geolib/utils.py:90 | the sort is stable: for each x, the points with that x keep their input order |
| `Intersections.SortedSameColumnsEqual` | geolib/utils.py:90 | two lists sorted by x that hold the same points, in the same order, at every x are equal |
| `Intersections.StableSortUnique` | geolib/utils.py:90 | any list that is sorted by x and keeps each x's points in input order is exactly the result of the sort |
| `Intersections.PolylineIntersections` | geolib/utils.py:70-90 | the tail of `polyline_polyline_intersections`: no ensures of its own; specified by `PolylineIntersectionsSpec`, `SinglePointKept` and `SinglePointDropped`, with the sort pinned down by `SortByXStable` and `StableSortUnique` |
| `Intersections.PolylineIntersectionsSpec` | geolib/utils.py:70-90 | an unsupported geometry raises, and only it does; an empty result and a line string both give []; otherwise the result is the kept candidates, with multiplicity, sorted by x and stable within each x |
| `Intersections.SinglePointKept` | geolib/utils.py:74-90 | a single crossing point that is not a vertex of line 1 is reported on its own |
| `Intersections.SinglePointDropped` | geolib/utils.py:84-90 | a single crossing point at a vertex of line 1 that is not a vertex of line 2 is dropped |

## Left out

- `camel_to_snake` (geolib/utils.py:25-27): its behaviour is two passes of Python regular-expression substitution, with lookbehind, lookahead and greedy matching. It is not modelled.
- `csv_as_namedtuples` (geolib/utils.py:34-39): file I/O and a generator over `csv.reader`.
- The pydantic `validator(...)` wrapper (geolib/utils.py:58) and the pydantic-version import switch (geolib/utils.py:13-18). These are framework glue; the rule itself is `NewlineRule.EnsureNewlines`.
- The `logger.warning` calls in the newline rule: they are side effects that do not change the returned string.
- The shapely `LineString` construction and `ls1.intersection(ls2)` (geolib/utils.py:66-68): the geometric intersection is not computed. Its result is an input of type `Intersections.Intersection`. Only its classification and the filter and sort after it are modelled. Which points shapely reports is not modelled.
- Geometry claims (clockwise orientation, the top lying above the bottom): these rest on an unchecked precondition and on floating-point geometry, not on the code.
- Floating point: coordinates are reals. Rounding, infinities, NaN and signed zero are not modelled.
- Interpolation.PolylineZAt: computes in exact real arithmetic. IEEE rounding of the interpolation formula is not modelled.
- Naming.SnakeToCamel: requires ASCII input. On non-ASCII text, Python's `str.title` uses Unicode case tables and can change the length (for example, ß becomes Ss). The model restricts to ASCII, where the cased characters are exactly the letters.
- Naming.SnakeToCamelShape: holds for ASCII names only, for the same reason.
