/** Folding quiet runs of checkpoints (web/src/lib/history.js, `fold`). */
module Timeline {
  import opened Basics

  /** A checkpoint as the panel sees it; `at` is absent when its date cannot be read. */
  datatype Point = Point(labelled: bool, milestone: bool, author: string, at: Option<int>)

  datatype Row = Single(point: Point) | Folded(first: Point, last: Point, hidden: seq<Point>)

  const RUN: nat := 3

  const SESSION_GAP: int := 15 * 60 * 1000

  predicate IsQuiet(point: Point) { !point.labelled && !point.milestone }

  function Apart(x: int, y: int): int { if x < y then y - x else x - y }

  predicate StartsSession(before: Point, after: Point) {
    before.at.Some? && after.at.Some? && Apart(after.at.value, before.at.value) >= SESSION_GAP
  }

  /** Point i goes on the quiet run of the point before it. */
  predicate Continues(points: seq<Point>, i: nat)
    requires 0 < i < |points|
  {
    && IsQuiet(points[i - 1]) && IsQuiet(points[i]) && points[i].author == points[i - 1].author
    && !StartsSession(points[i - 1], points[i])
  }

  /** Unmarked points of one author, unless both have a date and a quarter of an hour or more lies between them. */
  lemma ContinuesMeans(points: seq<Point>, i: nat)
    requires 0 < i < |points|
    ensures var before, after := points[i - 1], points[i];
      Continues(points, i)
      <==> && !(before.labelled || before.milestone || after.labelled || after.milestone)
           && before.author == after.author
           && (before.at.Some? && after.at.Some? ==>
                 after.at.value - before.at.value < 900000 && before.at.value - after.at.value < 900000)
  {
  }

  /** A longest run. */
  ghost predicate IsRun(points: seq<Point>, lo: nat, hi: nat) {
    && lo < hi <= |points|
    && (lo > 0 ==> !Continues(points, lo)) && (hi < |points| ==> !Continues(points, hi))
    && forall i :: lo < i < hi ==> Continues(points, i)
  }

  function Singles(points: seq<Point>): seq<Row> {
    if points == [] then [] else Singles(points[..|points| - 1]) + [Single(points[|points| - 1])]
  }

  function RowsOfRun(run: seq<Point>): seq<Row>
    requires run != []
  {
    if |run| < RUN then Singles(run) else [Folded(run[0], run[|run| - 1], run[1..|run| - 1])]
  }

  /** Three points or more become one row, fewer a row each. */
  lemma {:induction false} RowsOfRunMeans(run: seq<Point>)
    requires run != []
    ensures |run| >= 3 ==> |RowsOfRun(run)| == 1 && RowsOfRun(run)[0].Folded?
    ensures |run| < 3 ==> |RowsOfRun(run)| == |run| && forall row :: row in RowsOfRun(run) ==> row.Single?
  {
    SinglesLength(run);
    forall row | row in Singles(run) ensures row.Single? { SinglesAreSingle(run, row); }
  }

  lemma {:induction false} SinglesLength(points: seq<Point>)
    ensures |Singles(points)| == |points|
  {
    if points != [] { SinglesLength(points[..|points| - 1]); }
  }

  /** The rows come from the longest runs, in order. */
  ghost predicate IsFolding(points: seq<Point>, rows: seq<Row>, starts: seq<nat>, upTo: nat) {
    && starts != [] && starts[0] == 0 && starts[|starts| - 1] == upTo <= |points|
    && (forall g :: 0 <= g < |starts| - 1 ==> IsRun(points, starts[g], starts[g + 1]))
    && rows == RowsBy(points, starts)
  }

  function RowsBy(points: seq<Point>, starts: seq<nat>): seq<Row> {
    if |starts| < 2 then []
    else
      var lo, hi := starts[|starts| - 2], starts[|starts| - 1];
      RowsBy(points, starts[..|starts| - 1]) + if lo < hi <= |points| then RowsOfRun(points[lo..hi]) else []
  }

  function PointsOf(row: Row): seq<Point> {
    match row
    case Single(point) => [point]
    case Folded(first, last, hidden) => [first] + hidden + [last]
  }

  /** All points behind the rows, hidden ones included. */
  function Unfolded(rows: seq<Row>): seq<Point> {
    if rows == [] then [] else Unfolded(rows[..|rows| - 1]) + PointsOf(rows[|rows| - 1])
  }

  lemma {:induction false} UnfoldedJoins(rows: seq<Row>, more: seq<Row>)
    ensures Unfolded(rows + more) == Unfolded(rows) + Unfolded(more)
  {
    hide PointsOf;
    if more == [] {
      assert rows + more == rows;
    } else {
      UnfoldedJoins(rows, more[..|more| - 1]);
      assert (rows + more)[..|rows + more| - 1] == rows + more[..|more| - 1];
    }
  }

  lemma {:induction false} SinglesUnfold(points: seq<Point>)
    ensures Unfolded(Singles(points)) == points
  {
    if points != [] {
      SinglesUnfold(points[..|points| - 1]);
      UnfoldedJoins(Singles(points[..|points| - 1]), [Single(points[|points| - 1])]);
      assert [Single(points[|points| - 1])][..0] == [];
    }
  }

  lemma RunUnfolds(run: seq<Point>)
    requires run != []
    ensures Unfolded(RowsOfRun(run)) == run
  {
    if |run| < RUN {
      SinglesUnfold(run);
    } else {
      assert RowsOfRun(run)[..0] == [];
      assert [run[0]] + run[1..|run| - 1] + [run[|run| - 1]] == run;
    }
  }

  /** No checkpoint is lost, doubled or moved by folding. */
  lemma {:induction false} FoldingKeepsAll(points: seq<Point>, rows: seq<Row>, starts: seq<nat>, upTo: nat)
    requires IsFolding(points, rows, starts, upTo)
    ensures Unfolded(rows) == points[..upTo]
    decreases |starts|
  {
    hide Continues, RowsOfRun, PointsOf;
    if |starts| > 1 {
      var front := starts[..|starts| - 1];
      var lo := starts[|starts| - 2];
      assert IsRun(points, lo, upTo);
      FoldingKeepsAll(points, RowsBy(points, front), front, lo);
      RunUnfolds(points[lo..upTo]);
      UnfoldedJoins(RowsBy(points, front), RowsOfRun(points[lo..upTo]));
      assert points[..lo] + points[lo..upTo] == points[..upTo];
    }
  }

  /** What a folded row leaves out is quiet, and so are the ends it shows; at least three points, all by one author. */
  ghost predicate IsQuietRow(row: Row) {
    row.Folded? ==>
      && IsUnmarked(row.first) && IsUnmarked(row.last) && row.last.author == row.first.author
      && row.hidden != [] && forall i :: 0 <= i < |row.hidden| ==>
        IsUnmarked(row.hidden[i]) && row.hidden[i].author == row.first.author
  }

  ghost predicate IsUnmarked(point: Point) { !(point.labelled || point.milestone) }

  lemma {:induction false} OneAuthor(points: seq<Point>, lo: nat, hi: nat, i: nat)
    requires lo < hi <= |points| && lo <= i < hi && IsQuiet(points[lo])
    requires forall k :: lo < k < hi ==> Continues(points, k)
    ensures IsQuiet(points[i]) && points[i].author == points[lo].author
  {
    if i > lo {
      OneAuthor(points, lo, hi, i - 1);
      assert Continues(points, i);
    }
  }

  lemma {:induction false} SinglesAreSingle(points: seq<Point>, row: Row)
    requires row in Singles(points)
    ensures row.Single?
  {
    if row != Single(points[|points| - 1]) { SinglesAreSingle(points[..|points| - 1], row); }
  }

  lemma {:induction false} FoldedAreQuiet(points: seq<Point>, rows: seq<Row>, starts: seq<nat>, upTo: nat, row: Row)
    requires IsFolding(points, rows, starts, upTo) && row in rows
    ensures IsQuietRow(row)
    decreases |starts|
  {
    hide Continues, IsQuietRow;
    var front := starts[..|starts| - 1];
    var lo := starts[|starts| - 2];
    var run := points[lo..upTo];
    assert IsRun(points, lo, upTo);
    if row in RowsBy(points, front) {
      FoldedAreQuiet(points, RowsBy(points, front), front, lo, row);
    } else if |run| < RUN {
      SinglesAreSingle(run, row);
      SingleIsQuiet(row);
    } else {
      FoldedRunIsQuiet(points, lo, upTo);
    }
  }

  lemma SingleIsQuiet(row: Row)
    requires row.Single?
    ensures IsQuietRow(row)
  {
  }

  lemma FoldedRunIsQuiet(points: seq<Point>, lo: nat, hi: nat)
    requires IsRun(points, lo, hi) && hi - lo >= RUN
    ensures IsQuietRow(RowsOfRun(points[lo..hi])[0])
  {
    var run := points[lo..hi];
    var row := RowsOfRun(run)[0];
    assert Continues(points, lo + 1);
    OneAuthor(points, lo, hi, hi - 1);
    hide Continues;
    forall i | 0 <= i < |row.hidden| ensures IsUnmarked(row.hidden[i]) && row.hidden[i].author == row.first.author {
      OneAuthor(points, lo, hi, lo + 1 + i);
      assert row.hidden[i] == run[i + 1] == points[lo + 1 + i];
    }
  }

  ghost predicate AreRows(points: seq<Point>, rows: seq<Row>) {
    exists starts :: IsFolding(points, rows, starts, |points|)
  }

  method Fold(points: seq<Point>) returns (rows: seq<Row>)
    ensures AreRows(points, rows)
    ensures Unfolded(rows) == points
    ensures forall row :: row in rows ==> IsQuietRow(row)
  {
    hide IsFolding, AreRows, RowsOfRun, IsQuietRow, Unfolded, StartsSession;
    rows := [];
    ghost var starts: seq<nat> := [0];
    assert IsFolding(points, [], [0], 0) by { NoRows(points); }
    var at: nat := 0;
    while at < |points|
      invariant at <= |points| && IsFolding(points, rows, starts, at)
      invariant at == 0 || at == |points| || !Continues(points, at)
    {
      var end: nat := at;
      if IsQuiet(points[at]) {
        while end + 1 < |points| && IsQuiet(points[end + 1]) && points[end + 1].author == points[at].author
              && !StartsSession(points[end], points[end + 1])
          invariant at <= end < |points|
          invariant points[end].author == points[at].author && IsQuiet(points[end])
          invariant forall i :: at < i <= end ==> Continues(points, i)
        {
          end := end + 1;
        }
      }
      OneMoreRun(points, rows, starts, at, end + 1);
      rows := rows + RowsOfRun(points[at..end + 1]);
      starts := starts + [end + 1];
      at := end + 1;
    }
    Finished(points, rows, starts);
  }

  lemma Finished(points: seq<Point>, rows: seq<Row>, starts: seq<nat>)
    requires IsFolding(points, rows, starts, |points|)
    ensures AreRows(points, rows) && Unfolded(rows) == points
    ensures forall row :: row in rows ==> IsQuietRow(row)
  {
    hide RowsBy, IsQuietRow, Unfolded, IsRun;
    FoldingKeepsAll(points, rows, starts, |points|);
    assert points[..|points|] == points;
    forall row | row in rows ensures IsQuietRow(row) { FoldedAreQuiet(points, rows, starts, |points|, row); }
  }

  lemma NoRows(points: seq<Point>)
    ensures IsFolding(points, [], [0], 0)
  {
  }

  lemma OneMoreRun(points: seq<Point>, rows: seq<Row>, starts: seq<nat>, at: nat, hi: nat)
    requires IsFolding(points, rows, starts, at) && at < hi <= |points|
    requires at > 0 ==> !Continues(points, at)
    requires hi < |points| ==> !Continues(points, hi)
    requires forall i :: at < i < hi ==> Continues(points, i)
    ensures IsFolding(points, rows + RowsOfRun(points[at..hi]), starts + [hi], hi)
  {
    hide Continues;
    assert IsRun(points, at, hi);
    var all := starts + [hi];
    assert all[..|all| - 1] == starts;
    forall g | 0 <= g < |all| - 1 ensures IsRun(points, all[g], all[g + 1]) {
      if g < |starts| - 1 { assert IsRun(points, starts[g], starts[g + 1]); }
    }
  }
}
