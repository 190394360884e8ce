/**
 * Label encoding: either substitution through a given dictionary
 * (`Series.replace`) or the fitted encoding of sklearn's `LabelEncoder`,
 * which numbers the distinct labels 0..k-1 in sorted order.
 */
module LabelEncoding {
  import opened Wrappers
  import opened Table
  import opened PyStrings

  /**
   * Python's `<` between two labels of the same kind. Labels of different
   * kinds are never compared: `Uniform` rules them out before sorting.
   */
  predicate Less(a: Value, b: Value) {
    match (a, b)
    case (Int(x), Int(y)) => x < y
    case (Str(x), Str(y)) => StrLess(x, y)
    case (Int(_), Str(_)) => true
    case (Str(_), Int(_)) => false
  }

  lemma LessIsStrictTotal(a: Value, b: Value)
    ensures !Less(a, a)
    ensures Less(a, b) ==> !Less(b, a)
    ensures a == b || Less(a, b) || Less(b, a)
  {
    if a.Str? {
      StrLessIrreflexive(a.s);
    }
    if a.Str? && b.Str? {
      StrLessAsymmetric(a.s, b.s);
      StrLessTrichotomous(a.s, b.s);
    }
  }

  lemma LessTransitive(a: Value, b: Value, c: Value)
    requires Less(a, b) && Less(b, c)
    ensures Less(a, c)
  {
    if a.Str? && b.Str? && c.Str? {
      StrLessTransitive(a.s, b.s, c.s);
    }
  }

  /** The labels are all strings or all numbers, the inputs `LabelEncoder` accepts. */
  predicate Uniform(vals: seq<Value>) {
    (forall i :: 0 <= i < |vals| ==> vals[i].Str?) || (forall i :: 0 <= i < |vals| ==> vals[i].Int?)
  }

  predicate StrictlySorted(s: seq<Value>) {
    forall i, j :: 0 <= i < j < |s| ==> Less(s[i], s[j])
  }

  /** `x` put into its place in a strictly sorted sequence, unless it is already there. */
  function Insert(x: Value, s: seq<Value>): (r: seq<Value>)
    requires StrictlySorted(s)
    ensures StrictlySorted(r)
    ensures forall v :: v in r <==> v == x || v in s
  {
    if s == [] then [x]
    else
      LessIsStrictTotal(x, s[0]);
      if x == s[0] then s
      else if Less(x, s[0]) then
        assert forall j :: 0 <= j < |s| ==> Less(x, s[j]) by {
          forall j | 0 < j < |s| ensures Less(x, s[j]) {
            LessTransitive(x, s[0], s[j]);
          }
        }
        [x] + s
      else
        var rest := Insert(x, s[1..]);
        assert forall j :: 0 <= j < |rest| ==> Less(s[0], rest[j]) by {
          forall j | 0 <= j < |rest| ensures Less(s[0], rest[j]) {
            assert rest[j] in rest;
            if rest[j] != x {
              var k :| 0 <= k < |s[1..]| && s[1..][k] == rest[j];
              assert s[k + 1] == rest[j];
            }
          }
        }
        [s[0]] + rest
  }

  /** The fitted classes (`LabelEncoder.classes_`): the distinct labels in increasing order. */
  function Classes(vals: seq<Value>): (cls: seq<Value>)
    ensures StrictlySorted(cls)
    ensures forall v :: v in cls <==> v in vals
  {
    if vals == [] then []
    else Insert(vals[|vals| - 1], Classes(vals[..|vals| - 1]))
  }

  /** Position of `v` among the classes (the code `transform` gives it). */
  function IndexOf(cls: seq<Value>, v: Value): (k: nat)
    requires v in cls
    ensures k < |cls| && cls[k] == v
  {
    if cls[0] == v then 0 else 1 + IndexOf(cls[1..], v)
  }

  /** In a strictly sorted sequence each value sits at one position only. */
  lemma SortedIndexUnique(cls: seq<Value>, j: nat)
    requires StrictlySorted(cls) && j < |cls|
    ensures IndexOf(cls, cls[j]) == j
  {
    var k := IndexOf(cls, cls[j]);
    LessIsStrictTotal(cls[j], cls[j]);
  }

  /** A strictly sorted sequence is determined by its elements. */
  lemma {:induction false} SortedUnique(a: seq<Value>, b: seq<Value>)
    requires StrictlySorted(a) && StrictlySorted(b)
    requires forall v :: v in a <==> v in b
    ensures a == b
  {
    assert a != [] ==> a[0] in b;
    assert b != [] ==> b[0] in a;
    if a != [] && b != [] {
      assert a[0] == b[0] by {
        assert a[0] in b && b[0] in a;
        var i :| 0 <= i < |a| && a[i] == b[0];
        var j :| 0 <= j < |b| && b[j] == a[0];
        LessIsStrictTotal(a[0], b[0]);
      }
      forall v ensures v in a[1..] <==> v in b[1..] {
        if v in a[1..] {
          var i :| 1 <= i < |a| && a[i] == v;
          LessIsStrictTotal(v, v);
          assert v in b;
          var k :| 0 <= k < |b| && b[k] == v;
          assert k != 0;
          assert b[1..][k - 1] == v;
        }
        if v in b[1..] {
          var i :| 1 <= i < |b| && b[i] == v;
          LessIsStrictTotal(v, v);
          assert v in a;
          var k :| 0 <= k < |a| && a[k] == v;
          assert k != 0;
          assert a[1..][k - 1] == v;
        }
      }
      SortedUnique(a[1..], b[1..]);
      assert a == [a[0]] + a[1..] && b == [b[0]] + b[1..];
    }
  }

  /** A sequence without repetitions has as many distinct elements as it is long. */
  lemma {:induction false} SortedCardinality(s: seq<Value>)
    requires StrictlySorted(s)
    ensures |set v | v in s| == |s|
  {
    if s != [] {
      SortedCardinality(s[1..]);
      LessIsStrictTotal(s[0], s[0]);
      assert s[0] !in s[1..];
      assert (set v | v in s) == (set v | v in s[1..]) + {s[0]};
    }
  }

  /** `LabelEncoder().fit_transform(vals)`: each label replaced by its rank among the distinct labels. */
  function EncodeAll(vals: seq<Value>): (codes: seq<Value>)
    ensures |codes| == |vals|
  {
    var cls := Classes(vals);
    seq(|vals|, i requires 0 <= i < |vals| => Int(IndexOf(cls, vals[i])))
  }

  /** The number of distinct labels (`len(le.classes_)`). */
  ghost function NumClasses(vals: seq<Value>): nat {
    |set v | v in vals|
  }

  /**
   * The fitted codes are 0..k-1 for k distinct labels, every one of them is
   * used, and they follow the order of the labels: equal labels get equal
   * codes and a smaller label a smaller code.
   */
  lemma EncodeAllCodes(vals: seq<Value>)
    ensures forall i :: 0 <= i < |vals| ==> EncodeAll(vals)[i].Int? && 0 <= EncodeAll(vals)[i].i < NumClasses(vals)
    ensures forall c :: 0 <= c < NumClasses(vals) ==> exists i :: 0 <= i < |vals| && EncodeAll(vals)[i] == Int(c)
    ensures forall i, j :: 0 <= i < |vals| && 0 <= j < |vals| ==>
      (Less(vals[i], vals[j]) <==> EncodeAll(vals)[i].i < EncodeAll(vals)[j].i)
    ensures forall i, j :: 0 <= i < |vals| && 0 <= j < |vals| ==>
      (vals[i] == vals[j] <==> EncodeAll(vals)[i] == EncodeAll(vals)[j])
  {
    var cls := Classes(vals);
    SortedCardinality(cls);
    assert (set v | v in cls) == (set v | v in vals);
    forall c | 0 <= c < NumClasses(vals) ensures exists i :: 0 <= i < |vals| && EncodeAll(vals)[i] == Int(c) {
      assert c < |cls|;
      assert cls[c] in cls;
      var i :| 0 <= i < |vals| && vals[i] == cls[c];
      SortedIndexUnique(cls, c);
      assert EncodeAll(vals)[i] == Int(c);
    }
    forall i, j | 0 <= i < |vals| && 0 <= j < |vals|
      ensures (Less(vals[i], vals[j]) <==> EncodeAll(vals)[i].i < EncodeAll(vals)[j].i)
      ensures (vals[i] == vals[j] <==> EncodeAll(vals)[i] == EncodeAll(vals)[j])
    {
      var ci, cj := IndexOf(cls, vals[i]), IndexOf(cls, vals[j]);
      LessIsStrictTotal(vals[i], vals[j]);
      LessIsStrictTotal(vals[i], vals[i]);
      if ci < cj {
        assert Less(cls[ci], cls[cj]);
      } else if cj < ci {
        assert Less(cls[cj], cls[ci]);
      }
    }
  }

  /** The codes depend only on which labels occur: two columns with the same distinct labels encode a label alike. */
  lemma EncodeDeterministic(vals: seq<Value>, other: seq<Value>, i: nat, j: nat)
    requires forall v :: v in vals <==> v in other
    requires i < |vals| && j < |other| && vals[i] == other[j]
    ensures EncodeAll(vals)[i] == EncodeAll(other)[j]
  {
    SortedUnique(Classes(vals), Classes(other));
  }

  /** `Series.replace(d)`: each label that is a key of `d` becomes its value, the others stay. */
  function ReplaceAll(vals: seq<Value>, d: map<Value, Value>): (r: seq<Value>)
    ensures |r| == |vals|
  {
    seq(|vals|, i requires 0 <= i < |vals| => if vals[i] in d then d[vals[i]] else vals[i])
  }

  /**
   * `encode_label(label_encoding_dict)` on the table: substitution through the
   * dictionary when one is given, the fitted encoding otherwise.
   */
  function EncodeRows(rows: seq<Row>, columns: set<string>, labelCol: Option<string>, dict: Option<map<Value, Value>>): (r: Result<seq<Row>, Error>)
    requires WellFormed(rows, columns)
    ensures labelCol.None? ==> r == Failure(NoLabelColumn)
    ensures labelCol.Some? && labelCol.value !in columns ==> r == Failure(ColumnNotFound(labelCol.value))
    ensures labelCol.Some? && labelCol.value in columns && dict.Some? ==> r.Success?
    ensures r.Failure? && labelCol.Some? && labelCol.value in columns ==> dict.None? && r.error == MixedLabelTypes
    ensures r.Success? ==>
      labelCol.Some? && |r.value| == |rows| && WellFormed(r.value, columns)
      && forall i, c :: 0 <= i < |rows| && c in columns && c != labelCol.value ==> r.value[i][c] == rows[i][c]
  {
    if labelCol.None? then Failure(NoLabelColumn)
    else if labelCol.value !in columns then Failure(ColumnNotFound(labelCol.value))
    else
      var vals := ColumnValues(rows, labelCol.value);
      match dict
      case Some(d) => Success(SetColumn(rows, labelCol.value, ReplaceAll(vals, d)))
      case None =>
        if Uniform(vals) then Success(SetColumn(rows, labelCol.value, EncodeAll(vals)))
        else Failure(MixedLabelTypes)
  }

  /**
   * With a dictionary, mapped labels become their codes, unmapped labels pass
   * through, and no other column and no row count changes.
   */
  lemma EncodeWithDictionary(rows: seq<Row>, columns: set<string>, col: string, d: map<Value, Value>)
    requires WellFormed(rows, columns) && col in columns
    ensures EncodeRows(rows, columns, Some(col), Some(d)).Success?
    ensures var r := EncodeRows(rows, columns, Some(col), Some(d)).value;
      |r| == |rows| && WellFormed(r, columns)
      && (forall i :: 0 <= i < |rows| && rows[i][col] in d ==> r[i][col] == d[rows[i][col]])
      && (forall i :: 0 <= i < |rows| && rows[i][col] !in d ==> r[i][col] == rows[i][col])
      && (forall i, c :: 0 <= i < |rows| && c in columns && c != col ==> r[i][c] == rows[i][c])
  {
    SetColumnWellFormed(rows, columns, col, ReplaceAll(ColumnValues(rows, col), d));
  }

  /**
   * Without a dictionary, a uniform label column is replaced by the fitted
   * codes; a column mixing strings and numbers is refused; nothing else changes.
   */
  lemma EncodeWithoutDictionary(rows: seq<Row>, columns: set<string>, col: string)
    requires WellFormed(rows, columns) && col in columns
    ensures var vals := ColumnValues(rows, col);
      EncodeRows(rows, columns, Some(col), None) ==
        if Uniform(vals) then Success(SetColumn(rows, col, EncodeAll(vals))) else Failure(MixedLabelTypes)
    ensures var vals := ColumnValues(rows, col);
      Uniform(vals) ==>
        var r := SetColumn(rows, col, EncodeAll(vals));
        |r| == |rows| && WellFormed(r, columns)
        && (forall i :: 0 <= i < |rows| ==> r[i][col] == EncodeAll(vals)[i])
        && (forall i, c :: 0 <= i < |rows| && c in columns && c != col ==> r[i][c] == rows[i][c])
  {
    SetColumnWellFormed(rows, columns, col, EncodeAll(ColumnValues(rows, col)));
  }

  /** The labels `pos, neg, neg` are fitted to the classes `neg < pos` and encoded `1, 0, 0`. */
  lemma PosNegExample()
    ensures Classes([Str("pos"), Str("neg"), Str("neg")]) == [Str("neg"), Str("pos")]
    ensures EncodeAll([Str("pos"), Str("neg"), Str("neg")]) == [Int(1), Int(0), Int(0)]
  {
    var vals := [Str("pos"), Str("neg"), Str("neg")];
    var cls := [Str("neg"), Str("pos")];
    assert StrLess("neg", "pos");
    assert StrictlySorted(cls);
    SortedUnique(Classes(vals), cls);
    assert IndexOf(cls, Str("neg")) == 0;
    assert IndexOf(cls, Str("pos")) == 1;
  }
}
