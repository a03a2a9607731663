# Vision: fence and sentries, modelled in Dafny

Vision is a small desktop tool. The user places obstacle and sentry points. A
"trace" then fences the obstacles with their convex hull, computed by
Graham's scan. Each sentry is classified against the closed hull, and the tool
counts the sentries that can see outside: those that are not strictly inside.
Points can be deleted or edited by index, saved to a CSV table and loaded back.

This project models that core and proves properties of it:

- `geometry.dfy` (module `Geometry`): integer points, the cross product and
  the squared distance.
- `hull.dfy` (module `Hull`): Graham's scan of `convex_hull.py`. It covers:
  - the choice of the start point;
  - the sort by (angle, distance) around the start, as a stable insertion sort;
  - the stack pass that pops while the last two stack entries and the next
    point make no strict left turn.
- `position.py` is modelled in `position.dfy` (module `Position`). The
  classifier walks the polygon's edges in order and stops at the first edge
  that has the query point either strictly to its right (outside, -1) or
  collinear with it inside the edge's bounding box (boundary, 0). A query no
  edge stops at is inside (1).
- `text.dfy` (module `Text`): the string functions the CSV and dialog code
  relies on — Python's `strip()`, `lower()`, `int()` and `str()`, on ASCII.
- `vision.dfy` (module `Vision`): the pure logic of `ui.py`:
  - the partition of the point list into obstacles and sentries;
  - the trace, with its 0/1/2-obstacle shortcuts;
  - delete and edit by index;
  - the row filter of `load_csv` and the row layout of `save_csv`.

Every coordinate the tool produces is an integer: a canvas click
(`ui.py:129`), an edited dialog value (`ui.py:247-248`) or a loaded CSV field
(`ui.py:409-410`). Points are therefore pairs of unbounded integers, and the
source's floating-point steps become exact integer tests:

- The sort key `(atan2(dy, dx), dx*dx + dy*dy)` becomes the comparator
  `Hull.AngleLess`. It is built from the sign of a cross product and the
  squared distance. `Hull.AngleLessIsKeyOrder` proves that it orders points
  exactly as the key `(Hull.PseudoAngle, distance)` does. `Hull.PseudoAngle`
  is a rational function that grows strictly with the angle over the half-plane
  where all points lie.
- The `1e-9` tolerances of the classifier are proved to be exact sign and box
  tests on integers (`Position.EpsTestsAreExact`).

The classifier is modelled as the code computes it: a "left of every edge"
test with a bounding-box boundary check. It is not an even-odd ray-casting
test. Its verdict matches containment only for counter-clockwise convex
polygons. `Position.SegmentPosition` shows the
consequence for the closed two-vertex hull `[a, b, a]` that collinear
obstacles produce: a point on the line through a and b, beyond the segment,
is reported inside. The same lemma covers a == b. When every obstacle is
the same point a, the fence is [a, a] (`Hull.CoincidentHull` for three
copies), so the report gives two fence vertices. Its closed form [a, a, a]
puts a on the boundary and every other sentry inside
(`Position.CoincidentPosition`).

## Model

| member | source | states |
|---|---|---|
| Geometry.CrossSwap | convex_hull.py:32-33 | swapping the two outer points negates the turn |
| Geometry.CrossRotate | convex_hull.py:32-33 | the turn of three points is unchanged when they are rotated |
| Geometry.CrossReverse | position.py:13 | reversing an edge puts every query on the other side of it |
| Geometry.CrossDegenerate | convex_hull.py:32-33 | three points of which two coincide make a zero turn |
| Geometry.Dist2Zero | convex_hull.py:16 | the squared distance is non-negative and zero exactly at the start itself |
| Hull.Lowest | convex_hull.py:9 | the start is an input point with the least (y, x) of all input points |
| Hull.LowestIsStart | convex_hull.py:9 | the least (y, x) point is unique, and every input point lies in the closed upper half-plane of it, not left of it on its own row |
| Hull.AngleLess | convex_hull.py:12-19 | the key order is strict: no point precedes itself, and nothing precedes the start |
| Hull.PseudoAngle | convex_hull.py:12-17 | the stand-in for atan2 takes values in [0, 2) over the half-plane of the start |
| Hull.PseudoAngleOrder | convex_hull.py:12-15 | away from the start, a larger angle is exactly a positive turn and an equal angle exactly a zero turn |
| Hull.AngleLessIsKeyOrder | convex_hull.py:12-19 | the integer comparator agrees, in both directions, with the source's key order (angle, then squared distance) |
| Hull.AngleLessTransitive | convex_hull.py:12-19 | the key order is transitive over the half-plane of the start |
| Hull.AngleLessTotal | convex_hull.py:12-19 | distinct points never have equal keys, so the sorted order does not depend on the sort's stability |
| Hull.SameDirectionEqualLength | convex_hull.py:12-17 | two points in the same direction from the start at the same distance are the same point |
| Hull.Insert | convex_hull.py:19 | inserting keeps every element and adds exactly one |
| Hull.AngleSort | convex_hull.py:19 | the sorted sequence is a permutation of the input |
| Hull.InsertSorted | convex_hull.py:19 | inserting into a key-sorted sequence keeps it key-sorted |
| Hull.AngleSortSorted | convex_hull.py:19 | the sorted sequence is ordered by the key: no later element has a smaller key than an earlier one |
| Hull.InsertLast | convex_hull.py:19 | a point whose key is smaller than no element's goes after all of them, as in a stable sort |
| Hull.SortedFixed | convex_hull.py:19 | sorting a sequence that is already in key order leaves it unchanged |
| Hull.SortIdempotent | convex_hull.py:19 | sorting the sorted points again changes nothing |
| Hull.SortedStartsAtStart | convex_hull.py:9-19 | the start point sorts first, since its key is (0, 0) |
| Hull.SubsequenceContained | convex_hull.py:19-28 | a subsequence is no longer than the sequence and has only its elements |
| Hull.Popped | convex_hull.py:26-27 | the pops leave a prefix of the stack, non-empty when the stack is, whose top two entries make a strict left turn with the next point |
| Hull.PopNonLeft | convex_hull.py:26-27 | the pop loop leaves exactly the stack `Hull.Popped` describes, and every pop was due: each removed entry made no strict left turn with the entry below it and the next point |
| Hull.ScanStep | convex_hull.py:24-28 | one iteration (pop, then push) keeps the stack a subsequence of the points seen so far, with strict left turns and the first and latest points at its ends |
| Hull.ScanOf | convex_hull.py:22-30 | the stack after the pass is no longer than its input and, for non-empty input, ends with the last point |
| Hull.ScanOfInvariant | convex_hull.py:22-30 | after each prefix of the angle order, the stack has the scan invariant: between two and k entries, strict left turns, a subsequence of the prefix from its first to its latest point, and just the two extremes on collinear input |
| Hull.CollinearPops | convex_hull.py:26 | on collinear input the pops leave only the first point, so the stack holds only the two extremes |
| Hull.Scan | convex_hull.py:22-30 | the stack loop returns exactly `Hull.ScanOf` of its input: at least two points (all of them if fewer), a strict left turn at every inner vertex, a subsequence of the sorted points from the first to the last, and just those two points on collinear input |
| Hull.HullOf | convex_hull.py:4-30 | the result as a function of the input is never longer than the input |
| Hull.ConvexHull | convex_hull.py:4-30 | the result is exactly `Hull.HullOf` of the input. Fewer than three points are returned unchanged. Otherwise the hull has between two and as many vertices as the input and only input points. It starts at the lowest-leftmost point and ends at the last point in key order. It turns strictly left at every inner vertex, is a subsequence of the key-sorted input, and is the two extreme points when the input is collinear |
| Hull.ScanHull | convex_hull.py:9-30 | the stack pass over the angle order of three or more points gives a hull with all of the properties above |
| Hull.CoincidentHull | convex_hull.py:4-30 | three copies of one point give the fence [a, a]: the scan pops the middle copy, because its turn is not strictly left |
| Hull.SquareHull | convex_hull.py:4-30 | the hull of the square (0,0), (4,0), (4,4), (0,4) is all four corners in that order, so its fence has four vertices |
| Position.Walk | position.py:8-23 | the edge loop only ever answers -1, 0 or 1 |
| Position.PointPosition | position.py:1-23 | the result is -1, 0 or 1, and -1 for a polygon with fewer than three vertices |
| Position.FirstDecider | position.py:8-21 | finds the first edge, in index order, at which the loop returns: no earlier edge decides |
| Position.WalkStopsAtFirstDecider | position.py:8-23 | the loop returns the verdict of the first deciding edge, or 1 when none decides |
| Position.FirstDecidingEdge | position.py:8-23 | 1 exactly when no edge has the query strictly right of it or collinear inside its box; -1 exactly when the first such edge has it strictly to the right; 0 exactly when the first such edge has it collinear inside the box |
| Position.FirstVertexIsBoundary | position.py:8-21 | the first vertex of any polygon with three or more vertices is classified as boundary |
| Position.ClosedEdge | position.py:9-10 | every edge of a polygon, wrap-around edge included, is also an edge of the polygon with its first vertex repeated |
| Position.WalkClosed | position.py:8-23 | for a query other than the first vertex, the closed polygon's walk gives the same verdict as the polygon's |
| Position.ClosingKeepsPosition | position.py:8-21 | repeating the first vertex at the end, as the trace does, never changes the verdict for three or more vertices |
| Position.CoincidentPosition | position.py:1-23 | for the closed fence [a, a, a] of coincident obstacles, a is on the boundary and every other point is inside |
| Position.SegmentPosition | position.py:13-23 | for [a, b, a]: a point on line ab outside the segment's box is inside, a point on the segment is boundary, any other point is outside |
| Position.EpsTestsAreExact | position.py:13-21 | on integer points, the source's tolerance tests give -1 exactly for a negative cross product, 0 exactly for a zero cross product inside the box, and no verdict otherwise |
| Position.IntWithinEps | position.py:19-20 | an integer within the tolerance of an integer interval lies in the interval |
| Text.StripLeft | ui.py:408 | removes only leading whitespace, and leaves no leading whitespace |
| Text.StripRight | ui.py:408 | removes only trailing whitespace, and leaves no trailing whitespace |
| Text.StripInside | ui.py:408 | the stripped text is the part of the input after the leading whitespace, and only whitespace follows it |
| Text.StripShape | ui.py:408 | the stripped text is a contiguous piece of the input, with only whitespace before and after it, and it neither starts nor ends with whitespace |
| Text.StripUnpadded | ui.py:408 | a string without surrounding whitespace is its own strip |
| Text.LowerOfLower | ui.py:403 | a string without upper-case letters is its own lower case |
| Text.NatToString | ui.py:466 | str() of a natural number is a non-empty digit string without a leading zero whose decimal value is the number |
| Text.IntToString | ui.py:466 | str() of an integer is non-empty and starts with a minus sign exactly when the integer is negative |
| Text.ParseInt | ui.py:409-410 | an accepted field is not blank after stripping, and a negative value comes only from a field whose stripped text starts with a minus sign |
| Text.ParseIntValue | ui.py:409-410 | int() gives v exactly when the stripped field is a '-' and digits whose decimal value is -v, a '+' and digits whose value is v, or digits alone whose value is v |
| Text.ParseStripped | ui.py:409-410 | surrounding whitespace never changes what int() gives: a field reads as its stripped text does |
| Text.ParseSigned | ui.py:247-248 | a sign before digits gives their decimal value with that sign, whatever leading zeros the digits carry |
| Text.ParsePadded | ui.py:247-248 | the padded, signed, zero-led field " +07 " reads as 7 |
| Text.ParseMinusZero | ui.py:409-410 | "-0" reads as 0 |
| Text.ParseIntNeedsDigits | ui.py:409-410 | int() accepts no string without a digit, so empty fields and lone signs are rejected |
| Text.ParseIntRoundTrip | ui.py:409-410 | int() of str(i) is i, for every integer i |
| Text.IntToStringIsNotAWord | ui.py:403 | a written number never lower-cases to a word such as "index" |
| Vision.Select | ui.py:294-295 | the filter by type is no longer than the point list |
| Vision.SelectAppend | ui.py:294-295 | the filter keeps list order: filtering a concatenation filters each part in turn |
| Vision.SelectMembers | ui.py:294-295 | a point is in the filtered list exactly when an entry of that type holds it |
| Vision.PartitionSizes | ui.py:294-295 | obstacles and sentries together account for every entry |
| Vision.CountOutside | ui.py:358-362 | never counts more sentries than there are |
| Vision.CountOutsideExtremes | ui.py:358-362 | every sentry counts exactly when none is strictly inside, and none counts exactly when all are strictly inside |
| Vision.CountLoop | ui.py:358-362 | the sentry loop counts exactly the sentries classified outside or on the boundary |
| Vision.Trace | ui.py:293-368 | the fence is exactly `Hull.HullOf` of the obstacles, its vertex count is reported, and the total is the number of sentries. With fewer than three obstacles the fence is the obstacles themselves and every sentry counts as outside. Otherwise the fence has the scan-hull properties and the count is over the closed fence |
| Vision.DeletePoint | ui.py:195-197 | an out-of-range index changes nothing; otherwise exactly that entry is removed and the others keep their order |
| Vision.DeleteUndo | ui.py:195-197 | re-inserting the deleted entry at its index restores the list |
| Vision.EditPoint | ui.py:223-251 | only the entry at an in-range index can change. It keeps its type and takes the parsed coordinates when both fields parse; otherwise nothing changes |
| Vision.EditUnchanged | ui.py:235-251 | saving the dialog with its initial text, str() of the old coordinates, leaves the list unchanged |
| Vision.EditKeepsPartition | ui.py:251 | an edit never changes the number of obstacles or sentries |
| Vision.RowPoints | ui.py:398-417 | a row contributes at most one point |
| Vision.KindOf | ui.py:408-414 | a type field names a kind exactly when it is "obstacle" or "sentry", and then it is that kind's name |
| Vision.RowLoads | ui.py:398-417 | a row yields point p exactly when it has at least four fields, its first field is not "index" in any case, its stripped and lower-cased type names p's kind and its x and y fields are p's coordinates as integers |
| Vision.RowSkipped | ui.py:398-414 | a row is skipped exactly when it has fewer than four fields, its first field is the header word, its type is unknown or a coordinate is not an integer |
| Vision.ShortRowSkipped | ui.py:399-400 | a row with fewer than four fields is skipped |
| Vision.HeaderSkipped | ui.py:403-404 | the header row the application writes is skipped |
| Vision.LoadRows | ui.py:398-429 | loading yields no more points than there are rows |
| Vision.ConcatAppend | ui.py:398-417 | rows are processed in file order: the points of a concatenation are those of each part in turn |
| Vision.LoadRowsAppend | ui.py:398-429 | loading a concatenation of tables appends their points in order |
| Vision.SummarySkipped | ui.py:458-464 | the summary row, the blank row and the header are all skipped by the loader |
| Vision.PointRows | ui.py:465-466 | one row per point, numbered consecutively in list order |
| Vision.SaveRows | ui.py:445-466 | writes nothing for an empty list. Otherwise the summary row ("Sentries viewing outside", "viewing/total") and a blank row are written exactly when a result exists and there are at least three obstacles; then the header, then the points numbered from 1 in list order |
| Vision.PointRowLoads | ui.py:406-417 | a written point row loads back as the point it was written from |
| Vision.KindNameLoads | ui.py:408 | a written type field reads back as the same type |
| Vision.Numbered | ui.py:465-466 | one row per point, the i-th written from the point and its number |
| Vision.ConcatNumbered | ui.py:398-466 | if every written row reads back as its point, the numbered rows of a list read back as the list |
| Vision.PointRowsLoad | ui.py:465-466 | the written point rows load back as the point list |
| Vision.SaveThenLoad | ui.py:398-466 | loading a saved table gives back exactly the saved point list, whatever summary was written |

## Left out

- The tkinter user interface is not modelled: canvas drawing, widgets, the
  status bar, dialogs and message boxes. It has no state the core depends on
  beyond the point list.
- `hull_ids` and the stored trace result are not modelled as mutable state.
  The trace returns its result (`Vision.Report`), and `Vision.SaveRows` takes
  that result as a parameter.
- `on_click` and `clear_all` are not part of this model.
- File I/O is not modelled: opening files, csv quoting, the timestamped file
  name and the message about how many points were loaded. Loading and saving
  are modelled as functions on tables of string fields.
- Floating point is not modelled. `math.atan2` is replaced by the exact
  comparator `Hull.AngleLess`, and the tolerances by exact tests. The two
  agree only while the floats separate what the integers separate:
  - Sort key (`convex_hull.py:15`): two distinct directions with offsets up
    to N from the start differ in angle by about 1/(2N^2) or more. `atan2`
    rounds to a unit in the last place of about 2e-16 to 4e-16 at these
    angles. The source's order therefore equals the model's for offsets up to
    about 10^7. From about 10^8 on, two distinct directions can round to the
    same angle, and the source then orders them by distance. An example is
    (1, 10^8) and (2, 2*10^8 - 1): their angles differ by about 5e-17.
  - Box test (`position.py:19-20`): `min(x1, x2) - eps` converts an integer
    to a float. That is exact only up to 2^53 in magnitude.
  - The cross product and squared distance are Python integers and are exact
    at every size.
  - Overflow: an integer beyond about 1.8e308 in magnitude cannot be turned
    into a float. `math.atan2` at `convex_hull.py:15` then raises
    OverflowError for an obstacle that far from the start, and so does
    `min(x1, x2) - eps` at `position.py:19` for a fence vertex that large.
    `trace` (`ui.py:286-368`) has no handler, so the trace stops without a
    report. An example is the obstacles (0, 0), (1, 0), (0, 10^400), which a
    CSV file can supply, since int() accepts the large value.
    `Hull.ConvexHull` and `Vision.Trace` still return a fence and a count
    there. They model the exact arithmetic, not the exception.
- Text.ParseInt: its contract states only that an accepted field is not
  blank and where a negative value's sign is. The value is the decimal value
  of the digits, with the sign applied. `Text.ParseIntValue` states this for
  every field, `Text.ParseStripped` says padding does not matter, and
  `Text.ParseIntRoundTrip` proves int(str(i)) == i.
- Text.ParseInt: models `int()` as surrounding ASCII whitespace, an optional
  sign and ASCII digits. Underscores between digits and non-ASCII digits or
  whitespace are not accepted, as they would be by Python.
- Text.ParseInt: accepts digit strings of any length. CPython 3.11 and later
  reject a field of more than 4300 digits with ValueError
  (`sys.int_info.default_max_str_digits`), and so do the 3.7.14, 3.8.14,
  3.9.14 and 3.10.7 security releases. So with such a field:
  - load (`ui.py:409-410`) skips the row, where `Vision.RowPoint` loads it;
  - edit (`ui.py:247-248`) rejects the input, where `Vision.EditPoint`
    accepts it.
  The limit depends on the interpreter version and setting, so the model
  follows the unbounded `int()` of earlier versions.
- Text.IntToString: `str()` of an integer of more than 4300 digits raises
  the same ValueError on those versions. The save at `ui.py:466` would fail
  where `Vision.SaveRows` writes the row.
- Text.Strip: removes ASCII whitespace only. Python's `strip()` also
  removes non-ASCII whitespace such as U+00A0, which the model keeps.
- Text.IntToString: its contract states only the sign. The digits are those
  of `Text.NatToString`, and `Text.ParseIntRoundTrip` proves that int() reads
  the result back.
- Text.Lower: lower-cases ASCII letters only, because the fields compared
  against ("index", "obstacle", "sentry") are ASCII.
- Hull.ConvexHull: states the scan's guarantees but not that every input
  point lies on or inside the hull, because that global convexity property is
  not proved here.
- Whether the obstacles themselves classify inside or on the boundary of
  their own hull is not proved either, for the same reason.
- The `IndexError` branch of the load loop is not modelled separately. Rows
  with fewer than four fields are skipped before any field is indexed, so it
  cannot occur.
