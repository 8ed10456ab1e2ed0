/** `AllStockScoresTab`: the sort state of the score table and the rows in
    display order.  Only numeric columns are sorted here (see README). */
module AllStockScoresTab {
  import opened Base
  import ScoreBuckets

  datatype Direction = Asc | Desc

  /** `sortColumn` (`None` for `null`) and `sortDirection` */
  datatype SortState = SortState(column: Option<string>, direction: Direction)

  const InitialSort: SortState := SortState(None, Desc)

  /** `handleSort(column)`: the current column flips direction, any other
      column becomes current, descending. */
  function HandleSort(s: SortState, column: string): (r: SortState)
    ensures r.column == Some(column)
    ensures s.column != Some(column) ==> r.direction == Desc
    ensures s.column == Some(column) ==> r.direction != s.direction
  {
    if s.column == Some(column) then SortState(s.column, if s.direction == Asc then Desc else Asc)
    else SortState(Some(column), Desc)
  }

  /** Two clicks on the current header restore the state; two clicks on a
      new header leave it current and ascending. */
  lemma DoubleClick(s: SortState, column: string)
    ensures s.column == Some(column) ==> HandleSort(HandleSort(s, column), column) == s
    ensures s.column != Some(column) ==> HandleSort(HandleSort(s, column), column) == SortState(Some(column), Asc)
  {
  }

  /** A table cell. */
  datatype Cell = Number(n: int) | Text(s: string)

  /** A table row: header -> cell. */
  type Row = map<string, Cell>

  /** Every row holds a number under `column`. */
  predicate NumericColumn(rows: seq<Row>, column: string)
  {
    forall i :: 0 <= i < |rows| ==> column in rows[i] && rows[i][column].Number?
  }

  /** The number sorted on: the comparator `a - b` (asc) or `b - a` (desc)
      orders rows by this rank ascending. */
  function Rank(row: Row, column: string, dir: Direction): int
    requires column in row && row[column].Number?
  {
    if dir == Asc then row[column].n else -row[column].n
  }

  predicate SortedByRank(rows: seq<Row>, column: string, dir: Direction)
    requires NumericColumn(rows, column)
  {
    forall i, j :: 0 <= i < j < |rows| ==> Rank(rows[i], column, dir) <= Rank(rows[j], column, dir)
  }

  /** Every row ranks at least `v`. */
  predicate RankAtLeast(rows: seq<Row>, column: string, dir: Direction, v: int)
    requires NumericColumn(rows, column)
  {
    forall k :: 0 <= k < |rows| ==> v <= Rank(rows[k], column, dir)
  }

  /** Places `x` after every row of no greater rank, so equal rows keep
      their order. */
  function Insert(x: Row, sorted: seq<Row>, column: string, dir: Direction): (r: seq<Row>)
    requires column in x && x[column].Number?
    requires NumericColumn(sorted, column)
    ensures |r| == |sorted| + 1
    ensures NumericColumn(r, column)
  {
    if |sorted| == 0 then [x]
    else if Rank(x, column, dir) < Rank(sorted[0], column, dir) then [x] + sorted
    else [sorted[0]] + Insert(x, sorted[1..], column, dir)
  }

  /** Insertion neither loses nor duplicates a row. */
  lemma {:induction false} InsertPermutes(x: Row, sorted: seq<Row>, column: string, dir: Direction)
    requires column in x && x[column].Number?
    requires NumericColumn(sorted, column)
    ensures multiset(Insert(x, sorted, column, dir)) == multiset(sorted) + multiset{x}
    decreases |sorted|
  {
    if |sorted| > 0 && Rank(sorted[0], column, dir) <= Rank(x, column, dir) {
      InsertPermutes(x, sorted[1..], column, dir);
      assert sorted == [sorted[0]] + sorted[1..];
    }
  }

  /** A lower bound on the ranks of the rows and of `x` bounds the result. */
  lemma {:induction false} InsertKeepsLowerBound(x: Row, sorted: seq<Row>, column: string, dir: Direction, v: int)
    requires column in x && x[column].Number?
    requires NumericColumn(sorted, column)
    requires RankAtLeast(sorted, column, dir, v) && v <= Rank(x, column, dir)
    ensures RankAtLeast(Insert(x, sorted, column, dir), column, dir, v)
    decreases |sorted|
  {
    if |sorted| > 0 && Rank(sorted[0], column, dir) <= Rank(x, column, dir) {
      InsertKeepsLowerBound(x, sorted[1..], column, dir, v);
    }
  }

  /** Inserting into a sorted table keeps it sorted. */
  lemma {:induction false} InsertSorted(x: Row, sorted: seq<Row>, column: string, dir: Direction)
    requires column in x && x[column].Number?
    requires NumericColumn(sorted, column) && SortedByRank(sorted, column, dir)
    ensures SortedByRank(Insert(x, sorted, column, dir), column, dir)
    decreases |sorted|
  {
    var r := Insert(x, sorted, column, dir);
    if |sorted| > 0 {
      var h := Rank(sorted[0], column, dir);
      if Rank(x, column, dir) < h {
        assert forall k :: 0 <= k < |sorted| ==> h <= Rank(sorted[k], column, dir);
      } else {
        var rest := Insert(x, sorted[1..], column, dir);
        InsertSorted(x, sorted[1..], column, dir);
        InsertKeepsLowerBound(x, sorted[1..], column, dir, h);
        ConsSorted(sorted[0], rest, column, dir);
      }
    }
  }

  /** A row ranked no higher than every row of a sorted table can head it. */
  lemma ConsSorted(head: Row, rest: seq<Row>, column: string, dir: Direction)
    requires column in head && head[column].Number?
    requires NumericColumn(rest, column) && SortedByRank(rest, column, dir)
    requires RankAtLeast(rest, column, dir, Rank(head, column, dir))
    ensures NumericColumn([head] + rest, column) && SortedByRank([head] + rest, column, dir)
  {
    var r := [head] + rest;
    forall i, j | 0 <= i < j < |r|
      ensures Rank(r[i], column, dir) <= Rank(r[j], column, dir)
    {
      assert r[j] == rest[j - 1];
      if i > 0 {
        assert r[i] == rest[i - 1];
      }
    }
  }

  /** A stable sort by rank, inserting the rows in their original order. */
  function SortByRank(rows: seq<Row>, column: string, dir: Direction): (r: seq<Row>)
    requires NumericColumn(rows, column)
    ensures |r| == |rows|
    ensures multiset(r) == multiset(rows)
    ensures NumericColumn(r, column) && SortedByRank(r, column, dir)
  {
    if |rows| == 0 then []
    else
      var init := rows[..|rows| - 1];
      var last := rows[|rows| - 1];
      assert rows == init + [last];
      var sortedInit := SortByRank(init, column, dir);
      InsertPermutes(last, sortedInit, column, dir);
      InsertSorted(last, sortedInit, column, dir);
      Insert(last, sortedInit, column, dir)
  }

  /** `!sortColumn`: `null` and the empty header both leave the rows alone. */
  predicate Unsorted(s: SortState)
  {
    s.column.None? || s.column.value == ""
  }

  /** `sortedRows` for a numeric sort column. */
  function SortedRows(rows: seq<Row>, s: SortState): (r: seq<Row>)
    requires !Unsorted(s) ==> NumericColumn(rows, s.column.value)
    // no sort column: the rows as given
    ensures Unsorted(s) ==> r == rows
    // otherwise a permutation of the rows
    ensures |r| == |rows| && multiset(r) == multiset(rows)
    // ascending: non-decreasing; descending: non-increasing
    ensures !Unsorted(s) ==> NumericColumn(r, s.column.value)
    ensures !Unsorted(s) && s.direction == Asc ==>
      forall i, j :: 0 <= i < j < |r| ==> r[i][s.column.value].n <= r[j][s.column.value].n
    ensures !Unsorted(s) && s.direction == Desc ==>
      forall i, j :: 0 <= i < j < |r| ==> r[i][s.column.value].n >= r[j][s.column.value].n
  {
    if Unsorted(s) then rows
    else
      var r := SortByRank(rows, s.column.value, s.direction);
      assert forall i, j :: 0 <= i < j < |r| ==>
        Rank(r[i], s.column.value, s.direction) <= Rank(r[j], s.column.value, s.direction);
      r
  }

  /** Sorting a table already in order changes nothing: rows of equal rank
      are never swapped. */
  lemma {:induction false} SortingSortedIsIdentity(rows: seq<Row>, column: string, dir: Direction)
    requires NumericColumn(rows, column) && SortedByRank(rows, column, dir)
    ensures SortByRank(rows, column, dir) == rows
    decreases |rows|
  {
    if |rows| > 0 {
      var init := rows[..|rows| - 1];
      assert NumericColumn(init, column);
      assert SortedByRank(init, column, dir);
      SortingSortedIsIdentity(init, column, dir);
      InsertLargestAppends(rows[|rows| - 1], init, column, dir);
      assert init + [rows[|rows| - 1]] == rows;
    }
  }

  /** Inserting a row ranked no lower than all others appends it. */
  lemma {:induction false} InsertLargestAppends(x: Row, sorted: seq<Row>, column: string, dir: Direction)
    requires column in x && x[column].Number?
    requires NumericColumn(sorted, column) && SortedByRank(sorted, column, dir)
    requires forall i :: 0 <= i < |sorted| ==> Rank(sorted[i], column, dir) <= Rank(x, column, dir)
    ensures Insert(x, sorted, column, dir) == sorted + [x]
    decreases |sorted|
  {
    if |sorted| > 0 {
      InsertLargestAppends(x, sorted[1..], column, dir);
      assert [sorted[0]] + (sorted[1..] + [x]) == sorted + [x];
    }
  }

  /** `getScoreColor`: no clamping here, the thresholds apply to the cell. */
  function ScoreColor(score: int): string
  {
    match ScoreBuckets.BandOf(score)
    case Green => "text-green-700 bg-green-100"
    case Yellow => "text-yellow-700 bg-yellow-100"
    case Red => "text-red-700 bg-red-100"
  }

  /** The table colours every score as the clamping card views do: green
      from 80, yellow from 60, red below, even outside [0, 100]. */
  lemma TableColoursMatchCards(score: int)
    ensures ScoreColor(score) == "text-green-700 bg-green-100" <==> ScoreBuckets.ClampedBand(score) == ScoreBuckets.Green
    ensures ScoreColor(score) == "text-red-700 bg-red-100" <==> ScoreBuckets.ClampedBand(score) == ScoreBuckets.Red
  {
    ScoreBuckets.ClampKeepsBand(score);
    assert "text-green-700 bg-green-100"[5] != "text-yellow-700 bg-yellow-100"[5];
    assert "text-green-700 bg-green-100"[5] != "text-red-700 bg-red-100"[5];
    assert "text-red-700 bg-red-100"[5] != "text-yellow-700 bg-yellow-100"[5];
  }
}
