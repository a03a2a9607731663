/** The pure logic of the Vision application (ui.py): the point list with
    its two kinds of point, the trace that fences the obstacles and counts the
    sentries that can see outside, the list edits, and the row-level
    filtering of a loaded CSV table and layout of a saved one. Drawing,
    dialogs and file handling are not modelled. */
module Vision {
  import opened Geometry
  import opened Options
  import Hull
  import Position
  import Text

  datatype Kind = Obstacle | Sentry

  /** One entry of the point list: (type, x, y). */
  datatype Tagged = Tagged(kind: Kind, at: Point)

  /** The type field as the application stores and writes it. */
  function KindName(k: Kind): string {
    match k
    case Obstacle => "obstacle"
    case Sentry => "sentry"
  }

  // ---------------------------------------------------------------------
  // Partition by kind
  // ---------------------------------------------------------------------

  /** The coordinates of the entries of kind k, in list order. */
  function Select(points: seq<Tagged>, k: Kind): (r: seq<Point>)
    ensures |r| <= |points|
  {
    if points == [] then []
    else (if points[0].kind == k then [points[0].at] else []) + Select(points[1..], k)
  }

  /** Selecting from a concatenation selects from each part in turn: the
      filter keeps list order. */
  lemma {:induction false} SelectAppend(a: seq<Tagged>, b: seq<Tagged>, k: Kind)
    ensures Select(a + b, k) == Select(a, k) + Select(b, k)
  {
    if a == [] {
      assert a + b == b;
    } else {
      var head := if a[0].kind == k then [a[0].at] else [];
      assert (a + b)[0] == a[0];
      assert (a + b)[1..] == a[1..] + b;
      SelectAppend(a[1..], b, k);
      calc {
        Select(a + b, k);
        head + Select(a[1..] + b, k);
        head + (Select(a[1..], k) + Select(b, k));
        (head + Select(a[1..], k)) + Select(b, k);
        Select(a, k) + Select(b, k);
      }
    }
  }

  /** A point is selected exactly when an entry of that kind holds it. */
  lemma {:induction false} SelectMembers(points: seq<Tagged>, k: Kind, p: Point)
    ensures p in Select(points, k) <==> Tagged(k, p) in points
  {
    if points != [] {
      SelectMembers(points[1..], k, p);
      assert points == [points[0]] + points[1..];
    }
  }

  /** Every entry is either an obstacle or a sentry. */
  lemma {:induction false} PartitionSizes(points: seq<Tagged>)
    ensures |Select(points, Obstacle)| + |Select(points, Sentry)| == |points|
  {
    if points != [] {
      PartitionSizes(points[1..]);
    }
  }

  // ---------------------------------------------------------------------
  // Trace
  // ---------------------------------------------------------------------

  /** The status the trace reports: fence vertices, and sentries viewing
      outside out of all sentries. */
  datatype Report = Report(fence: nat, outside: nat, total: nat)

  /** The number of sentries the classifier places outside or on the fence. */
  function CountOutside(polygon: seq<Point>, sentries: seq<Point>): (n: nat)
    ensures n <= |sentries|
  {
    if sentries == [] then 0
    else
      CountOutside(polygon, sentries[..|sentries| - 1])
      + (if Position.PointPosition(polygon, sentries[|sentries| - 1]) <= 0 then 1 else 0)
  }

  /** Every sentry counts as outside exactly when none is strictly inside,
      and none counts exactly when every one is strictly inside. */
  lemma CountOutsideExtremes(polygon: seq<Point>, sentries: seq<Point>)
    ensures CountOutside(polygon, sentries) == |sentries| <==>
      forall q :: q in sentries ==> Position.PointPosition(polygon, q) != Position.Inside
    ensures CountOutside(polygon, sentries) == 0 <==>
      forall q :: q in sentries ==> Position.PointPosition(polygon, q) == Position.Inside
  {
    CountAllOutside(polygon, sentries);
    CountNoneOutside(polygon, sentries);
  }

  lemma {:induction false} CountAllOutside(polygon: seq<Point>, sentries: seq<Point>)
    ensures CountOutside(polygon, sentries) == |sentries| <==>
      forall q :: q in sentries ==> Position.PointPosition(polygon, q) != Position.Inside
  {
    if sentries != [] {
      var init, last := sentries[..|sentries| - 1], sentries[|sentries| - 1];
      CountAllOutside(polygon, init);
      LastSplit(sentries);
    }
  }

  lemma {:induction false} CountNoneOutside(polygon: seq<Point>, sentries: seq<Point>)
    ensures CountOutside(polygon, sentries) == 0 <==>
      forall q :: q in sentries ==> Position.PointPosition(polygon, q) == Position.Inside
  {
    if sentries != [] {
      var init, last := sentries[..|sentries| - 1], sentries[|sentries| - 1];
      CountNoneOutside(polygon, init);
      LastSplit(sentries);
    }
  }

  /** The members of a non-empty sequence are those of its front and its last. */
  lemma LastSplit(s: seq<Point>)
    requires s != []
    ensures forall q :: q in s <==> q in s[..|s| - 1] || q == s[|s| - 1]
  {
    assert s == s[..|s| - 1] + [s[|s| - 1]];
  }

  /** The trace: partition the points, answer the cases with fewer than three
      obstacles without classifying anything (every sentry views outside and
      the fence has as many vertices as there are obstacles), otherwise run
      Graham's scan, close the hull by repeating its first vertex, and count
      the sentries the classifier does not place strictly inside. For fewer
      than three obstacles the returned hull is the obstacle list itself,
      which is what the scan returns for such input. */
  method Trace(points: seq<Tagged>) returns (hull: seq<Point>, report: Report)
    ensures hull == Hull.HullOf(Select(points, Obstacle))
    ensures report.total == |Select(points, Sentry)|
    ensures report.fence == |hull|
    ensures report.outside <= report.total
    ensures |Select(points, Obstacle)| < 3 ==>
      hull == Select(points, Obstacle) && report.outside == report.total
    ensures |Select(points, Obstacle)| >= 3 ==>
      && Hull.IsScanHull(Select(points, Obstacle), hull)
      && report.outside == CountOutside(hull + [hull[0]], Select(points, Sentry))
  {
    var obstacles := Select(points, Obstacle);
    var sentries := Select(points, Sentry);
    if |obstacles| < 3 {
      return obstacles, Report(|obstacles|, |sentries|, |sentries|);
    }
    hull := Hull.ConvexHull(obstacles);
    var outside := CountLoop(hull + [hull[0]], sentries);
    report := Report(|hull|, outside, |sentries|);
  }

  /** The sentry loop of the trace: one classification per sentry, counting
      those not strictly inside the closed hull. */
  method CountLoop(polygon: seq<Point>, sentries: seq<Point>) returns (outside: nat)
    ensures outside == CountOutside(polygon, sentries)
  {
    outside := 0;
    var i := 0;
    while i < |sentries|
      invariant 0 <= i <= |sentries|
      invariant outside == CountOutside(polygon, sentries[..i])
    {
      if Position.PointPosition(polygon, sentries[i]) <= 0 {
        outside := outside + 1;
      }
      assert sentries[..i + 1][..i] == sentries[..i];
      i := i + 1;
    }
    assert sentries[..i] == sentries;
  }

  // ---------------------------------------------------------------------
  // List edits
  // ---------------------------------------------------------------------

  /** delete_point_by_index: an index outside the list changes nothing;
      otherwise exactly that entry goes and the rest keep their order. */
  function DeletePoint(points: seq<Tagged>, idx: int): (r: seq<Tagged>)
    ensures !(0 <= idx < |points|) ==> r == points
    ensures 0 <= idx < |points| ==>
      && |r| == |points| - 1
      && multiset(r) + multiset{points[idx]} == multiset(points)
      && (forall j :: 0 <= j < idx ==> r[j] == points[j])
      && (forall j :: idx <= j < |r| ==> r[j] == points[j + 1])
  {
    if 0 <= idx < |points| then
      assert points == points[..idx] + [points[idx]] + points[idx + 1..];
      points[..idx] + points[idx + 1..]
    else points
  }

  /** Putting the deleted entry back at its index restores the list. */
  lemma DeleteUndo(points: seq<Tagged>, idx: int)
    requires 0 <= idx < |points|
    ensures var r := DeletePoint(points, idx); r[..idx] + [points[idx]] + r[idx..] == points
  {
    var r := DeletePoint(points, idx);
    assert r[..idx] == points[..idx];
    assert r[idx..] == points[idx + 1..];
    assert points == points[..idx] + [points[idx]] + points[idx + 1..];
  }

  /** edit_point_by_index: the dialog is only opened for an index inside the
      list, and the entry changes only when both fields parse as integers;
      it then gets the new coordinates and keeps its kind. */
  function EditPoint(points: seq<Tagged>, idx: int, xText: string, yText: string): (r: seq<Tagged>)
    ensures |r| == |points|
    ensures forall j :: 0 <= j < |points| && j != idx ==> r[j] == points[j]
    ensures 0 <= idx < |points| ==> r[idx].kind == points[idx].kind
    ensures 0 <= idx < |points| && Text.ParseInt(xText).Some? && Text.ParseInt(yText).Some? ==>
      r[idx].at == Point(Text.ParseInt(xText).value, Text.ParseInt(yText).value)
    ensures !(0 <= idx < |points|) || Text.ParseInt(xText).None? || Text.ParseInt(yText).None? ==>
      r == points
  {
    if 0 <= idx < |points| then
      match (Text.ParseInt(xText), Text.ParseInt(yText))
      case (Some(x), Some(y)) => points[idx := Tagged(points[idx].kind, Point(x, y))]
      case _ => points
    else points
  }

  /** Saving the dialog with the coordinates it was opened with changes
      nothing: the fields start out as str() of the old coordinates. */
  lemma EditUnchanged(points: seq<Tagged>, idx: int)
    requires 0 <= idx < |points|
    ensures EditPoint(points, idx, Text.IntToString(points[idx].at.x), Text.IntToString(points[idx].at.y)) == points
  {
    Text.ParseIntRoundTrip(points[idx].at.x);
    Text.ParseIntRoundTrip(points[idx].at.y);
  }

  /** An edit changes no kind, so the partition sizes are unchanged. */
  lemma {:induction false} EditKeepsPartition(points: seq<Tagged>, idx: int, xText: string, yText: string)
    ensures |Select(EditPoint(points, idx, xText, yText), Obstacle)| == |Select(points, Obstacle)|
    ensures |Select(EditPoint(points, idx, xText, yText), Sentry)| == |Select(points, Sentry)|
  {
    SameKindsSameSizes(points, EditPoint(points, idx, xText, yText));
  }

  lemma {:induction false} SameKindsSameSizes(a: seq<Tagged>, b: seq<Tagged>)
    requires |a| == |b|
    requires forall j :: 0 <= j < |a| ==> a[j].kind == b[j].kind
    ensures |Select(a, Obstacle)| == |Select(b, Obstacle)|
    ensures |Select(a, Sentry)| == |Select(b, Sentry)|
  {
    if a != [] {
      SameKindsSameSizes(a[1..], b[1..]);
    }
  }

  // ---------------------------------------------------------------------
  // CSV rows
  // ---------------------------------------------------------------------

  /** The point a loaded row contributes, if any: rows with fewer than four
      fields, the header row (first field "index" in any case), rows whose
      stripped, lower-cased type is neither obstacle nor sentry and rows whose
      x or y is not an integer are skipped. */
  function RowPoint(row: seq<string>): Option<Tagged> {
    if |row| < 4 then None
    else if Text.Lower(row[0]) == "index" then None
    else
      match (KindOf(Text.Lower(Text.Strip(row[1]))), Text.ParseInt(row[2]), Text.ParseInt(row[3]))
      case (Some(k), Some(x), Some(y)) => Some(Tagged(k, Point(x, y)))
      case _ => None
  }

  /** The kind a type field names, if it names one. */
  function KindOf(name: string): (k: Option<Kind>)
    ensures k.Some? ==> KindName(k.value) == name
    ensures k.None? <==> name !in {"obstacle", "sentry"}
  {
    if name == "obstacle" then Some(Obstacle)
    else if name == "sentry" then Some(Sentry)
    else None
  }

  /** The points one row contributes: none or one. */
  function RowPoints(row: seq<string>): (r: seq<Tagged>)
    ensures |r| <= 1
  {
    match RowPoint(row)
    case Some(p) => [p]
    case None => []
  }

  /** The row loop of load_csv: the accepted rows' points, in file order. */
  function LoadRows(rows: seq<seq<string>>): (r: seq<Tagged>)
    ensures |r| <= |rows|
  {
    Concat(rows, RowPoints)
  }

  /** The concatenation of f over rows, in order. */
  function Concat(rows: seq<seq<string>>, f: seq<string> -> seq<Tagged>): (r: seq<Tagged>)
    requires forall row :: |f(row)| <= 1
    ensures |r| <= |rows|
  {
    if rows == [] then [] else f(rows[0]) + Concat(rows[1..], f)
  }

  lemma {:induction false} ConcatAppend(a: seq<seq<string>>, b: seq<seq<string>>, f: seq<string> -> seq<Tagged>)
    requires forall row :: |f(row)| <= 1
    ensures Concat(a + b, f) == Concat(a, f) + Concat(b, f)
  {
    if a == [] {
      assert a + b == b;
    } else {
      var head := f(a[0]);
      assert (a + b)[0] == a[0];
      assert (a + b)[1..] == a[1..] + b;
      ConcatAppend(a[1..], b, f);
      calc {
        Concat(a + b, f);
        head + Concat(a[1..] + b, f);
        head + (Concat(a[1..], f) + Concat(b, f));
        (head + Concat(a[1..], f)) + Concat(b, f);
        Concat(a, f) + Concat(b, f);
      }
    }
  }

  /** When every row g writes for a point yields that point back under f,
      the numbered rows of a point list yield the list. */
  lemma {:induction false} ConcatNumbered(points: seq<Tagged>, first: nat,
      g: (nat, Tagged) -> seq<string>, f: seq<string> -> seq<Tagged>)
    requires forall row :: |f(row)| <= 1
    requires forall n: nat, p: Tagged :: f(g(n, p)) == [p]
    ensures Concat(Numbered(points, first, g), f) == points
  {
    if points != [] {
      var head, rest := g(first, points[0]), Numbered(points[1..], first + 1, g);
      ConcatNumbered(points[1..], first + 1, g, f);
      ConcatCons(head, rest, f);
      calc {
        Concat(Numbered(points, first, g), f);
        Concat([head] + rest, f);
        f(head) + Concat(rest, f);
        [points[0]] + points[1..];
        points;
      }
    }
  }

  lemma ConcatCons(row: seq<string>, rows: seq<seq<string>>, f: seq<string> -> seq<Tagged>)
    requires forall row :: |f(row)| <= 1
    ensures Concat([row] + rows, f) == f(row) + Concat(rows, f)
  {
    assert ([row] + rows)[0] == row && ([row] + rows)[1..] == rows;
  }

  /** Rows that each yield nothing yield nothing. */
  lemma {:induction false} ConcatNone(rows: seq<seq<string>>, f: seq<string> -> seq<Tagged>)
    requires forall row :: |f(row)| <= 1
    requires forall i :: 0 <= i < |rows| ==> f(rows[i]) == []
    ensures Concat(rows, f) == []
  {
    if rows != [] {
      ConcatNone(rows[1..], f);
    }
  }

  /** Loading a file in two parts loads the parts one after the other. */
  lemma LoadRowsAppend(a: seq<seq<string>>, b: seq<seq<string>>)
    ensures LoadRows(a + b) == LoadRows(a) + LoadRows(b)
  {
    ConcatAppend(a, b, RowPoints);
  }

  /** One saved point row: its 1-based index, type, x and y. */
  function PointRow(index: nat, p: Tagged): seq<string> {
    [Text.IntToString(index), KindName(p.kind), Text.IntToString(p.at.x), Text.IntToString(p.at.y)]
  }

  /** The point rows of save_csv, numbered from first in list order. */
  function PointRows(points: seq<Tagged>, first: nat): (rows: seq<seq<string>>)
    ensures |rows| == |points|
    ensures forall i :: 0 <= i < |points| ==> rows[i] == PointRow(first + i, points[i])
  {
    Numbered(points, first, PointRow)
  }

  /** The rows g writes for the points, numbered from first in list order. */
  function Numbered(points: seq<Tagged>, first: nat, g: (nat, Tagged) -> seq<string>): (rows: seq<seq<string>>)
    ensures |rows| == |points|
    ensures forall i :: 0 <= i < |points| ==> rows[i] == g(first + i, points[i])
  {
    if points == [] then [] else [g(first, points[0])] + Numbered(points[1..], first + 1, g)
  }

  const Header: seq<string> := ["index", "type", "x", "y"]

  /** The rows save_csv writes: nothing at all for an empty list; otherwise
      the summary row and a blank row when a trace result exists and there
      are at least three obstacles, then the header, then one row per point. */
  function SaveRows(points: seq<Tagged>, viewing: Option<(nat, nat)>): (rows: Option<seq<seq<string>>>)
    ensures rows.None? <==> points == []
    ensures rows.Some? ==>
      var summary := viewing.Some? && |Select(points, Obstacle)| >= 3;
      && |rows.value| == |points| + 1 + (if summary then 2 else 0)
      && (|rows.value[0]| == 2 <==> summary)
      && (summary ==>
            && rows.value[0] == ["Sentries viewing outside",
                 Text.IntToString(viewing.value.0) + "/" + Text.IntToString(viewing.value.1)]
            && rows.value[1] == [])
      && rows.value[|rows.value| - |points| - 1] == Header
      && (forall i :: 0 <= i < |points| ==>
            rows.value[|rows.value| - |points| + i] == PointRow(i + 1, points[i]))
  {
    if points == [] then None
    else
      var summary :=
        if viewing.Some? && |Select(points, Obstacle)| >= 3 then
          [["Sentries viewing outside",
            Text.IntToString(viewing.value.0) + "/" + Text.IntToString(viewing.value.1)], []]
        else [];
      Some(summary + [Header] + PointRows(points, 1))
  }

  /** The row filter yields p exactly when the row has at least four fields,
      its first field is not the header word in any case, its stripped and
      lower-cased type names p's kind and its x and y fields are p's
      coordinates as integers. Fields after the fourth are ignored. */
  lemma RowLoads(row: seq<string>, p: Tagged)
    ensures RowPoint(row) == Some(p) <==>
      && |row| >= 4
      && Text.Lower(row[0]) != "index"
      && Text.Lower(Text.Strip(row[1])) == KindName(p.kind)
      && Text.ParseInt(row[2]) == Some(p.at.x)
      && Text.ParseInt(row[3]) == Some(p.at.y)
  {
    if |row| >= 4 {
      var name := Text.Lower(Text.Strip(row[1]));
      assert KindOf(name) == Some(p.kind) <==> name == KindName(p.kind);
    }
  }

  /** The row filter skips a row exactly when it is too short, starts with
      the header word, has an unknown type or a non-integer coordinate. */
  lemma RowSkipped(row: seq<string>)
    ensures RowPoint(row) == None <==>
      || |row| < 4
      || Text.Lower(row[0]) == "index"
      || Text.Lower(Text.Strip(row[1])) !in {"obstacle", "sentry"}
      || Text.ParseInt(row[2]) == None
      || Text.ParseInt(row[3]) == None
  {
  }

  /** A saved point row loads back as the point it was written from. */
  lemma PointRowLoads(index: nat, p: Tagged)
    ensures RowPoint(PointRow(index, p)) == Some(p)
  {
    var row := PointRow(index, p);
    Text.IntToStringIsNotAWord(index, "index");
    Text.ParseIntRoundTrip(p.at.x);
    Text.ParseIntRoundTrip(p.at.y);
    KindNameLoads(p.kind);
    RowLoads(row, p);
  }

  lemma KindNameLoads(k: Kind)
    ensures Text.Lower(Text.Strip(KindName(k))) == KindName(k)
  {
    Text.StripUnpadded(KindName(k));
    var n := KindName(k);
    assert forall i :: 0 <= i < |n| ==> Text.LowerChar(n[i]) == n[i];
    assert Text.Lower(n) == n;
  }

  /** The written point rows load back as the point list. */
  lemma PointRowsLoad(points: seq<Tagged>, first: nat)
    ensures LoadRows(PointRows(points, first)) == points
  {
    EveryPointRowYields();
    ConcatNumbered(points, first, PointRow, RowPoints);
  }

  lemma EveryPointRowYields()
    ensures forall n: nat, p: Tagged :: RowPoints(PointRow(n, p)) == [p]
  {
    forall n: nat, p: Tagged
      ensures RowPoints(PointRow(n, p)) == [p]
    {
      PointRowYields(PointRow(n, p), n, p);
    }
  }

  /** A saved point row yields exactly the point it was written from. */
  lemma PointRowYields(row: seq<string>, index: nat, p: Tagged)
    requires row == PointRow(index, p)
    ensures RowPoints(row) == [p]
  {
    PointRowLoads(index, p);
    Accepted(row, p);
  }

  lemma Accepted(row: seq<string>, p: Tagged)
    requires RowPoint(row) == Some(p)
    ensures RowPoints(row) == [p]
  {
  }

  /** Rows with fewer than four fields are skipped. */
  lemma ShortRowSkipped(row: seq<string>)
    requires |row| < 4
    ensures RowPoints(row) == []
  {
  }

  /** The header row is skipped: its first field is the header word. */
  lemma HeaderSkipped()
    ensures RowPoints(Header) == []
  {
    var first := Header[0];
    assert first == "index";
    Text.LowerOfLower(first);
  }

  /** The summary and blank rows, when written, and the header are skipped. */
  lemma SummarySkipped(summary: seq<seq<string>>)
    requires summary == [] || (|summary| == 2 && |summary[0]| < 4 && |summary[1]| < 4)
    ensures LoadRows(summary + [Header]) == []
  {
    var rows := summary + [Header];
    forall i | 0 <= i < |rows|
      ensures RowPoints(rows[i]) == []
    {
      if i == |rows| - 1 {
        HeaderSkipped();
      } else {
        ShortRowSkipped(rows[i]);
      }
    }
    ConcatNone(rows, RowPoints);
  }

  /** Loading a file the application saved gives back the saved point list:
      the summary, blank and header rows are all skipped by the row filter. */
  lemma SaveThenLoad(points: seq<Tagged>, viewing: Option<(nat, nat)>)
    requires points != []
    ensures LoadRows(SaveRows(points, viewing).value) == points
  {
    var rows := SaveRows(points, viewing).value;
    var body := PointRows(points, 1);
    var pre := rows[..|rows| - |points|];
    assert rows == pre + body;
    SummarySkipped(pre[..|pre| - 1]);
    assert pre == pre[..|pre| - 1] + [Header];
    LoadRowsAppend(pre, body);
    PointRowsLoad(points, 1);
  }
}
