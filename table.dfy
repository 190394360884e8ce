/**
 * The in-memory table the pipeline holds: a sequence of rows, each a map from
 * column name to cell value, over a fixed set of columns.
 */
module Table {

  /** A cell: a string or an integer (what the CSV reader and the label encoder produce). */
  datatype Value = Str(s: string) | Int(i: int)

  type Row = map<string, Value>

  /** The reasons an operation of the pipeline aborts, by the Python exception behind each. */
  datatype Error =
    | ColumnNotFound(column: string)         // KeyError from `df[col]`; ValueError from `list.remove(col)` when balancing
    | NoLabelColumn                          // the label column is None: KeyError from `df[None]`, ValueError from `list.remove(None)`
    | NotText                                // AttributeError from `.strip()`, TypeError from `re.sub` or the tokenizer, on a non-string cell
    | StopwordsUnavailable(language: string) // LookupError or OSError from the stopword corpus for an unavailable language
    | MixedLabelTypes                        // TypeError from sorting labels that mix strings and numbers
    | EmptyDataset                           // ValueError from the resampler on a table with no rows
    | NoFeatureColumns                       // ValueError from the resampler on a table with only the label column
    | SingleClass                            // ValueError from the resampler on fewer than two classes

  /** Every row has exactly the table's columns. */
  ghost predicate WellFormed(rows: seq<Row>, columns: set<string>) {
    forall i :: 0 <= i < |rows| ==> rows[i].Keys == columns
  }

  /** Every row has column `col`. */
  ghost predicate HasColumn(rows: seq<Row>, col: string) {
    forall i :: 0 <= i < |rows| ==> col in rows[i]
  }

  /** The values of one column, top to bottom (`df[col].tolist()`). */
  function ColumnValues(rows: seq<Row>, col: string): (vals: seq<Value>)
    requires HasColumn(rows, col)
    ensures |vals| == |rows|
    ensures forall i :: 0 <= i < |rows| ==> vals[i] == rows[i][col]
  {
    if rows == [] then [] else ColumnValues(rows[..|rows| - 1], col) + [rows[|rows| - 1][col]]
  }

  /** Column `col` replaced, row by row, by `vals` (`df[col] = vals`). */
  function SetColumn(rows: seq<Row>, col: string, vals: seq<Value>): (r: seq<Row>)
    requires |vals| == |rows|
    ensures |r| == |rows|
    ensures forall i :: 0 <= i < |rows| ==> r[i].Keys == rows[i].Keys + {col}
    ensures forall i :: 0 <= i < |rows| ==> r[i][col] == vals[i]
    ensures forall i, c :: 0 <= i < |rows| && c in rows[i] && c != col ==> r[i][c] == rows[i][c]
  {
    seq(|rows|, i requires 0 <= i < |rows| => rows[i][col := vals[i]])
  }

  /** Replacing one of the table's own columns keeps every row over exactly the table's columns. */
  lemma SetColumnWellFormed(rows: seq<Row>, columns: set<string>, col: string, vals: seq<Value>)
    requires |vals| == |rows| && col in columns && WellFormed(rows, columns)
    ensures WellFormed(SetColumn(rows, col, vals), columns)
  {
  }

  /** Writing a column's own values back changes nothing. */
  lemma SetColumnSame(rows: seq<Row>, col: string)
    requires HasColumn(rows, col)
    ensures SetColumn(rows, col, ColumnValues(rows, col)) == rows
  {
    var r := SetColumn(rows, col, ColumnValues(rows, col));
    forall i | 0 <= i < |rows| ensures r[i] == rows[i] {
      assert r[i].Keys == rows[i].Keys;
    }
  }

  /** Number of rows whose column `col` holds `v` (`(df[col] == v).sum()`). */
  function Count(rows: seq<Row>, col: string, v: Value): (n: nat)
    ensures n <= |rows|
  {
    if rows == [] then 0
    else Count(rows[..|rows| - 1], col, v) + (if col in rows[|rows| - 1] && rows[|rows| - 1][col] == v then 1 else 0)
  }

  /** Counting over two tables stacked on each other adds up. */
  lemma {:induction false} CountAppend(a: seq<Row>, b: seq<Row>, col: string, v: Value)
    ensures Count(a + b, col, v) == Count(a, col, v) + Count(b, col, v)
    decreases |b|
  {
    if b == [] {
      assert a + b == a;
    } else {
      assert (a + b)[..|a + b| - 1] == a + b[..|b| - 1];
      CountAppend(a, b[..|b| - 1], col, v);
    }
  }

  /** A value that occurs in the column is counted at least once, and a counted value occurs. */
  lemma {:induction false} CountPositive(rows: seq<Row>, col: string, v: Value)
    ensures Count(rows, col, v) > 0 <==> exists i :: 0 <= i < |rows| && col in rows[i] && rows[i][col] == v
  {
    if rows != [] {
      var init := rows[..|rows| - 1];
      CountPositive(init, col, v);
      if exists i :: 0 <= i < |init| && col in init[i] && init[i][col] == v {
        var i :| 0 <= i < |init| && col in init[i] && init[i][col] == v;
        assert rows[i] == init[i];
      }
      if exists i :: 0 <= i < |rows| && col in rows[i] && rows[i][col] == v {
        var i :| 0 <= i < |rows| && col in rows[i] && rows[i][col] == v;
        if i < |init| {
          assert init[i] == rows[i];
        }
      }
    }
  }

  /** The distinct values of column `col`: the classes when `col` is the label column. */
  ghost function LabelSet(rows: seq<Row>, col: string): set<Value> {
    set i | 0 <= i < |rows| && col in rows[i] :: rows[i][col]
  }

  /**
   * The end of the Python slice `[:stop]` over a sequence of length `len`:
   * a negative `stop` counts from the end, and the result is clamped to `0..len`.
   */
  function SliceStop(len: nat, stop: int): (k: nat)
    ensures k <= len
  {
    if stop >= 0 then (if stop < len then stop else len)
    else if len + stop > 0 then len + stop else 0
  }

  /** `df.head(n)`: the first `n` rows, or all but the last `-n` rows when `n` is negative. */
  function Head(rows: seq<Row>, n: int): (r: seq<Row>)
    ensures |r| <= |rows| && r == rows[..|r|]
    ensures 0 <= n <= |rows| ==> |r| == n
    ensures n > |rows| ==> r == rows
    ensures n < 0 && -n <= |rows| ==> |r| == |rows| + n
    ensures n < 0 && -n > |rows| ==> r == []
  {
    rows[..SliceStop(|rows|, n)]
  }

  /** `head(-n)` for a positive `n` drops the last `n` rows, or every row when there are fewer. */
  lemma HeadNegativeDropsLast(rows: seq<Row>, n: int)
    requires n >= 1
    ensures |rows| >= n ==> Head(rows, -n) == rows[..|rows| - n]
    ensures |rows| < n ==> Head(rows, -n) == []
  {
  }

  /** `head(-0)` is `head(0)`: it keeps no row at all. */
  lemma HeadZero(rows: seq<Row>)
    ensures Head(rows, -0) == []
  {
  }

  /** `head(m)` for a positive `m` keeps the first `m` rows, or every row when there are fewer. */
  lemma HeadPositiveKeepsFirst(rows: seq<Row>, m: int)
    requires m >= 0
    ensures |rows| >= m ==> Head(rows, m) == rows[..m]
    ensures |rows| < m ==> Head(rows, m) == rows
  {
  }
}
