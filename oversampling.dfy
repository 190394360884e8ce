/**
 * Class balancing by random oversampling (imblearn's `RandomOverSampler`
 * with its default strategy): every class that is smaller than the majority
 * class is padded with rows drawn, with replacement, from its own rows, and
 * the drawn rows are appended after the original table.
 */
module Oversampling {
  import opened Wrappers
  import opened Table
  import LabelEncoding

  /** The size of the largest class among the labels of the first `k` rows. */
  function MaxCountUpTo(rows: seq<Row>, col: string, k: nat): (m: nat)
    requires HasColumn(rows, col) && k <= |rows|
    ensures forall i :: 0 <= i < k ==> Count(rows, col, rows[i][col]) <= m
    ensures k == 0 ==> m == 0
    ensures k > 0 ==> exists i :: 0 <= i < k && Count(rows, col, rows[i][col]) == m
  {
    if k == 0 then 0
    else
      var p := MaxCountUpTo(rows, col, k - 1);
      var c := Count(rows, col, rows[k - 1][col]);
      if c > p then c else p
  }

  /** The majority count: no class is larger, and (in a non-empty table) some class has it. */
  function Majority(rows: seq<Row>, col: string): (m: nat)
    requires HasColumn(rows, col)
    ensures forall v :: Count(rows, col, v) <= m
    ensures rows == [] ==> m == 0
    ensures rows != [] ==> exists i :: 0 <= i < |rows| && Count(rows, col, rows[i][col]) == m
  {
    var m := MaxCountUpTo(rows, col, |rows|);
    forall v ensures Count(rows, col, v) <= m {
      CountPositive(rows, col, v);
    }
    m
  }

  /**
   * `after` is a balanced resampling of `before`: the original rows come
   * first and unchanged, every added row is a copy of an original row (so it
   * carries that row's label and features), and every class now has the
   * majority count.
   */
  ghost predicate Oversampled(before: seq<Row>, after: seq<Row>, col: string)
    requires HasColumn(before, col)
    ensures Oversampled(before, after, col) ==>
      forall v :: v in LabelSet(before, col) ==> Count(before, col, v) <= Count(after, col, v)
  {
    && |before| <= |after|
    && after[..|before|] == before
    && (forall i :: |before| <= i < |after| ==> after[i] in before)
    && (forall v :: v in LabelSet(before, col) ==> Count(after, col, v) == Majority(before, col))
  }

  /** The rows whose label is not `x`, in order. */
  function RowsNotOfClass(rows: seq<Row>, col: string, x: Value): (r: seq<Row>)
    requires HasColumn(rows, col)
    ensures HasColumn(r, col)
    ensures |rows| == |r| + Count(rows, col, x)
    ensures forall v :: v != x ==> Count(r, col, v) == Count(rows, col, v)
    ensures forall i :: 0 <= i < |r| ==> r[i][col] != x && r[i] in rows
  {
    if rows == [] then []
    else
      var init := rows[..|rows| - 1];
      var last := rows[|rows| - 1];
      var rest := RowsNotOfClass(init, col, x);
      if last[col] == x then rest
      else
        assert (rest + [last])[..|rest|] == rest;
        rest + [last]
  }

  /** A table whose labels all lie in `classes`, each with `m` rows, has `|classes| * m` rows. */
  lemma {:induction false} UniformCountsTotal(rows: seq<Row>, col: string, classes: set<Value>, m: nat)
    requires HasColumn(rows, col)
    requires forall i :: 0 <= i < |rows| ==> rows[i][col] in classes
    requires forall v :: v in classes ==> Count(rows, col, v) == m
    ensures |rows| == |classes| * m
    decreases classes
  {
    assert rows != [] ==> rows[0][col] in classes;
    if classes != {} {
      var x :| x in classes;
      var rest := RowsNotOfClass(rows, col, x);
      forall i | 0 <= i < |rest| ensures rest[i][col] in classes - {x} {
        var k :| 0 <= k < |rows| && rows[k] == rest[i];
      }
      UniformCountsTotal(rest, col, classes - {x}, m);
      assert |rows| == (|classes| - 1) * m + m;
    }
  }

  /**
   * After oversampling the table has the same classes, and exactly
   * (number of classes) x (majority count) rows.
   */
  lemma OversampledTotal(before: seq<Row>, after: seq<Row>, col: string)
    requires HasColumn(before, col)
    requires Oversampled(before, after, col)
    ensures HasColumn(after, col)
    ensures LabelSet(after, col) == LabelSet(before, col)
    ensures |after| == |LabelSet(before, col)| * Majority(before, col)
  {
    forall i | 0 <= i < |after| ensures col in after[i] && after[i][col] in LabelSet(before, col) {
      if i < |before| {
        assert after[i] == after[..|before|][i];
      } else {
        var k :| 0 <= k < |before| && before[k] == after[i];
      }
    }
    forall v | v in LabelSet(before, col) ensures v in LabelSet(after, col) {
      var k :| 0 <= k < |before| && before[k][col] == v;
      assert after[k] == after[..|before|][k];
    }
    UniformCountsTotal(after, col, LabelSet(before, col), Majority(before, col));
  }

  /**
   * The rows the sampler appends after the originals bring each class
   * exactly up to the majority count.
   */
  lemma OversampledAdded(before: seq<Row>, after: seq<Row>, col: string, v: Value)
    requires HasColumn(before, col)
    requires Oversampled(before, after, col)
    requires v in LabelSet(before, col)
    ensures Count(after[|before|..], col, v) == Majority(before, col) - Count(before, col, v)
  {
    assert after == before + after[|before|..];
    CountAppend(before, after[|before|..], col, v);
  }

  /** Oversampling keeps the table's columns: every row of the result has exactly the old columns. */
  lemma OversampledWellFormed(before: seq<Row>, after: seq<Row>, col: string, columns: set<string>)
    requires WellFormed(before, columns) && HasColumn(before, col)
    requires Oversampled(before, after, col)
    ensures WellFormed(after, columns)
  {
    forall i | 0 <= i < |after| ensures after[i].Keys == columns {
      if i < |before| {
        assert after[i] == after[..|before|][i];
      } else {
        var k :| 0 <= k < |before| && before[k] == after[i];
      }
    }
  }

  /** `(df[col] == v).sum()`, counted row by row. */
  method CountLabel(rows: seq<Row>, col: string, v: Value) returns (n: nat)
    requires HasColumn(rows, col)
    ensures n == Count(rows, col, v)
  {
    n := 0;
    for i := 0 to |rows|
      invariant n == Count(rows[..i], col, v)
    {
      assert rows[..i + 1][..i] == rows[..i];
      if rows[i][col] == v {
        n := n + 1;
      }
    }
    assert rows[..|rows|] == rows;
  }

  /** `np.flatnonzero(y == v)`: the positions of the rows labelled `v`. */
  method MembersOf(rows: seq<Row>, col: string, v: Value) returns (idx: seq<nat>)
    requires HasColumn(rows, col)
    ensures |idx| == Count(rows, col, v)
    ensures forall t :: 0 <= t < |idx| ==> idx[t] < |rows| && rows[idx[t]][col] == v
  {
    idx := [];
    for i := 0 to |rows|
      invariant |idx| == Count(rows[..i], col, v)
      invariant forall t :: 0 <= t < |idx| ==> idx[t] < i && rows[idx[t]][col] == v
    {
      assert rows[..i + 1][..i] == rows[..i];
      if rows[i][col] == v {
        idx := idx + [i];
      }
    }
    assert rows[..|rows|] == rows;
  }

  /** The distinct labels, each once, in order of first appearance. */
  method DistinctLabels(rows: seq<Row>, col: string) returns (classes: seq<Value>)
    requires HasColumn(rows, col)
    ensures forall j, k :: 0 <= j < k < |classes| ==> classes[j] != classes[k]
    ensures forall v :: v in classes <==> v in LabelSet(rows, col)
  {
    classes := [];
    for i := 0 to |rows|
      invariant forall j, k :: 0 <= j < k < |classes| ==> classes[j] != classes[k]
      invariant forall v :: v in classes <==> exists k :: 0 <= k < i && rows[k][col] == v
    {
      if rows[i][col] !in classes {
        classes := classes + [rows[i][col]];
      }
    }
  }

  /** The majority count, as the largest class count. */
  method MajorityCount(rows: seq<Row>, col: string, classes: seq<Value>) returns (majority: nat)
    requires HasColumn(rows, col)
    requires forall v :: v in classes <==> v in LabelSet(rows, col)
    ensures majority == Majority(rows, col)
  {
    majority := 0;
    for k := 0 to |classes|
      invariant forall j :: 0 <= j < k ==> Count(rows, col, classes[j]) <= majority
      invariant majority == 0 || exists j :: 0 <= j < k && Count(rows, col, classes[j]) == majority
    {
      var n := CountLabel(rows, col, classes[k]);
      if n > majority {
        majority := n;
      }
    }
    var m := Majority(rows, col);
    if rows != [] {
      var i :| 0 <= i < |rows| && Count(rows, col, rows[i][col]) == m;
      assert rows[i][col] in classes;
      var j :| 0 <= j < |classes| && classes[j] == rows[i][col];
    }
  }

  /** Appending one row adds one to the count of its label only. */
  lemma CountSnoc(rows: seq<Row>, r: Row, col: string, v: Value)
    ensures Count(rows + [r], col, v) == Count(rows, col, v) + (if col in r && r[col] == v then 1 else 0)
  {
    assert (rows + [r])[..|rows|] == rows;
  }

  /**
   * The draws for one class: rows of the class, picked by `rng` among its
   * `members`, appended until the class has `target` rows.
   */
  method PadClass(rows: seq<Row>, col: string, v: Value, members: seq<nat>, target: nat,
                  res0: seq<Row>, rng: nat -> nat, draw0: nat) returns (res: seq<Row>, draw: nat)
    requires HasColumn(rows, col)
    requires members != []
    requires forall t :: 0 <= t < |members| ==> members[t] < |rows| && rows[members[t]][col] == v
    requires |rows| <= |res0| && res0[..|rows|] == rows
    requires forall i :: |rows| <= i < |res0| ==> res0[i] in rows
    requires Count(res0, col, v) <= target
    ensures |rows| <= |res| && res[..|rows|] == rows
    ensures forall i :: |rows| <= i < |res| ==> res[i] in rows
    ensures Count(res, col, v) == target
    ensures forall u :: u != v ==> Count(res, col, u) == Count(res0, col, u)
  {
    res, draw := res0, draw0;
    var have := CountLabel(res0, col, v);
    for t := have to target
      invariant |rows| <= |res| && res[..|rows|] == rows
      invariant forall i :: |rows| <= i < |res| ==> res[i] in rows
      invariant Count(res, col, v) == t
      invariant forall u :: u != v ==> Count(res, col, u) == Count(res0, col, u)
    {
      var row := rows[members[rng(draw) % |members|]];
      forall u ensures Count(res + [row], col, u) == Count(res, col, u) + (if row[col] == u then 1 else 0) {
        CountSnoc(res, row, col, u);
      }
      assert (res + [row])[..|rows|] == res[..|rows|];
      res := res + [row];
      draw := draw + 1;
    }
  }

  /**
   * `fit_resample`: the rows of each class, drawn with replacement until
   * the class reaches the majority count, appended after the table. The
   * random draws are the parameter `rng`: the `d`-th draw of the run takes
   * the class member at position `rng(d)` modulo the class size.
   */
  method Oversample(rows: seq<Row>, col: string, rng: nat -> nat) returns (res: seq<Row>)
    requires HasColumn(rows, col)
    ensures Oversampled(rows, res, col)
  {
    var classes := DistinctLabels(rows, col);
    var majority := MajorityCount(rows, col, classes);
    res := rows;
    var draw: nat := 0;
    for k := 0 to |classes|
      invariant |rows| <= |res| && res[..|rows|] == rows
      invariant forall i :: |rows| <= i < |res| ==> res[i] in rows
      invariant forall j :: 0 <= j < k ==> Count(res, col, classes[j]) == majority
      invariant forall j :: k <= j < |classes| ==> Count(res, col, classes[j]) == Count(rows, col, classes[j])
    {
      var members := MembersOf(rows, col, classes[k]);
      assert classes[k] in LabelSet(rows, col);
      CountPositive(rows, col, classes[k]);
      res, draw := PadClass(rows, col, classes[k], members, majority, res, rng, draw);
    }
    forall v | v in LabelSet(rows, col) ensures Count(res, col, v) == majority {
      var j :| 0 <= j < |classes| && classes[j] == v;
    }
  }

  /**
   * The checks `balance_class` makes before resampling, in the order they
   * are reached: the label column must exist, the labels must be of one
   * kind (the target check), the table must have a row and a feature column
   * (the input check), and there must be at least two classes (the sampling
   * strategy check).
   */
  function BalanceCheck(rows: seq<Row>, columns: set<string>, labelCol: Option<string>): (r: Outcome<Error>)
    requires WellFormed(rows, columns)
    ensures labelCol.None? ==> r == Fail(NoLabelColumn)
    ensures labelCol.Some? && labelCol.value !in columns ==> r == Fail(ColumnNotFound(labelCol.value))
    ensures labelCol.Some? && labelCol.value in columns && rows == [] ==> r.Fail?
    ensures r == Pass ==>
      labelCol.Some? && labelCol.value in columns && rows != [] && exists c :: c in columns && c != labelCol.value
    ensures r == Pass <==>
      && labelCol.Some? && labelCol.value in columns
      && LabelEncoding.Uniform(ColumnValues(rows, labelCol.value))
      && rows != [] && columns != {labelCol.value}
      && |LabelEncoding.Classes(ColumnValues(rows, labelCol.value))| >= 2
  {
    if labelCol.None? then Fail(NoLabelColumn)
    else if labelCol.value !in columns then Fail(ColumnNotFound(labelCol.value))
    else
      var vals := ColumnValues(rows, labelCol.value);
      if !LabelEncoding.Uniform(vals) then Fail(MixedLabelTypes)
      else if rows == [] then Fail(EmptyDataset)
      else if columns == {labelCol.value} then Fail(NoFeatureColumns)
      else if |LabelEncoding.Classes(vals)| < 2 then Fail(SingleClass)
      else
        assert columns == (columns - {labelCol.value}) + {labelCol.value};
        Pass
  }

  /** A table that passes the checks has a label column, rows, and at least two classes. */
  lemma BalanceCheckPasses(rows: seq<Row>, columns: set<string>, labelCol: Option<string>)
    requires WellFormed(rows, columns)
    requires BalanceCheck(rows, columns, labelCol) == Pass
    ensures labelCol.Some? && labelCol.value in columns && HasColumn(rows, labelCol.value)
    ensures rows != [] && |LabelSet(rows, labelCol.value)| >= 2
  {
    var col := labelCol.value;
    var vals := ColumnValues(rows, col);
    var cls := LabelEncoding.Classes(vals);
    assert cls[0] != cls[1] by {
      LabelEncoding.LessIsStrictTotal(cls[0], cls[0]);
    }
    assert cls[0] in vals && cls[1] in vals;
    var i0 :| 0 <= i0 < |vals| && vals[i0] == cls[0];
    var i1 :| 0 <= i1 < |vals| && vals[i1] == cls[1];
    assert {cls[0], cls[1]} <= LabelSet(rows, col);
    assert |{cls[0], cls[1]}| == 2;
    SubsetCardinality({cls[0], cls[1]}, LabelSet(rows, col));
  }

  lemma SubsetCardinality(a: set<Value>, b: set<Value>)
    requires a <= b
    ensures |a| <= |b|
  {
    assert b == a + (b - a);
  }

  /** The class counts of a table of one `pos` row followed by two `neg` rows. */
  lemma OneTwoCounts(pos: Row, neg: Row, col: string)
    requires col in pos && col in neg && pos[col] != neg[col]
    ensures Count([pos, neg, neg], col, pos[col]) == 1
    ensures Count([pos, neg, neg], col, neg[col]) == 2
    ensures LabelSet([pos, neg, neg], col) == {pos[col], neg[col]}
  {
    assert [] + [pos] == [pos] && [pos] + [neg] == [pos, neg] && [pos, neg] + [neg] == [pos, neg, neg];
    forall v ensures Count([pos, neg, neg], col, v) ==
      (if pos[col] == v then 1 else 0) + (if neg[col] == v then 2 else 0)
    {
      CountSnoc([], pos, col, v);
      CountSnoc([pos], neg, col, v);
      CountSnoc([pos, neg], neg, col, v);
    }
    var rows := [pos, neg, neg];
    assert LabelSet(rows, col) == {pos[col], neg[col]} by {
      assert rows[0][col] == pos[col] && rows[1][col] == neg[col];
    }
  }

  /** In that table the majority class has two rows. */
  lemma OneTwoMajority(pos: Row, neg: Row, col: string)
    requires col in pos && col in neg && pos[col] != neg[col]
    ensures Majority([pos, neg, neg], col) == 2
  {
    var rows := [pos, neg, neg];
    OneTwoCounts(pos, neg, col);
    var m := Majority(rows, col);
    var i :| 0 <= i < 3 && Count(rows, col, rows[i][col]) == m;
    assert rows[i][col] == pos[col] || rows[i][col] == neg[col];
    assert Count(rows, col, neg[col]) <= m;
  }

  /**
   * One `pos` row and two `neg` rows: after oversampling there are two rows
   * of each class, four in all, the extra row a copy of the `pos` row.
   */
  lemma OneTwoBalanceExample(pos: Row, neg: Row, col: string, after: seq<Row>)
    requires col in pos && col in neg && pos[col] != neg[col]
    requires Oversampled([pos, neg, neg], after, col)
    ensures |after| == 4
    ensures Count(after, col, pos[col]) == 2 && Count(after, col, neg[col]) == 2
    ensures after[3] == pos
  {
    var rows := [pos, neg, neg];
    OneTwoCounts(pos, neg, col);
    OneTwoMajority(pos, neg, col);
    OversampledTotal(rows, after, col);
    assert |{pos[col], neg[col]}| == 2;
    assert |after| == 4;
    assert pos[col] in LabelSet(rows, col) && neg[col] in LabelSet(rows, col);
    assert after[..3] == rows;
    assert after == rows + [after[3]];
    CountSnoc(rows, after[3], col, pos[col]);
  }
}
