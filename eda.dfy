/**
 * The `EDA` object: it holds one table, read once from the raw data, plus
 * the name of its label column, and its methods rewrite the table in place.
 */
module Eda {
  import opened Wrappers
  import opened Table
  import opened Preprocess
  import opened LabelEncoding
  import opened Oversampling

  class EDA {
    /** Where the table was read from (a CSV path); kept and never used again. */
    const rawData: string
    /** The columns of the table; no operation adds or drops a column. */
    const columns: set<string>
    /** The label column; `None` for an unsupervised dataset. */
    const labelCol: Option<string>
    /** The current table (`__original_data`). */
    var data: seq<Row>

    ghost predicate Valid()
      reads this
    {
      WellFormed(data, columns)
    }

    /** `__init__`: `table` is what the CSV reader produced from `rawData`. */
    constructor (rawData: string, table: seq<Row>, columns: set<string>, labelCol: Option<string> := None)
      requires WellFormed(table, columns)
      ensures Valid()
      ensures this.rawData == rawData && this.columns == columns && this.labelCol == labelCol
      ensures data == table
    {
      this.rawData := rawData;
      this.columns := columns;
      this.labelCol := labelCol;
      data := table;
    }

    /** `get_data`: the current table, every row of it over the table's columns. */
    function GetData(): (rows: seq<Row>)
      reads this
      ensures Valid() ==> WellFormed(rows, columns)
      ensures rows == data
    {
      data
    }

    /** `get_lable_column`: the label column given at construction. */
    function GetLabelColumn(): (c: Option<string>)
      reads this
      ensures c == labelCol
    {
      labelCol
    }

    /**
     * `preprocess_text`: the text column copied out into a list, each enabled
     * step run over the list in turn, and the list written back. Any failure
     * happens before the write-back, so the table is then left as it was.
     * `corpus` stands for the stopword lists the corpus download provides.
     */
    method PreprocessText(textIndex: string, corpus: map<string, set<string>>,
                          opts: TextOptions := DefaultTextOptions()) returns (outcome: Outcome<Error>)
      requires Valid()
      modifies this
      ensures Valid()
      ensures match PreprocessTable(old(data), columns, textIndex, opts, corpus)
        case Success(t) => outcome == Pass && data == t
        case Failure(e) => outcome == Fail(e) && data == old(data)
    {
      if textIndex !in columns {
        return Fail(ColumnNotFound(textIndex));
      }
      var vals := ColumnValues(data, textIndex);
      var textLst := new Value[|vals|](i requires 0 <= i < |vals| => vals[i]);
      assert textLst[..] == vals;
      var ok: bool;
      if opts.toLowercase {
        ok := RewriteColumn(textLst, Lowercase);
        if !ok {
          return Fail(NotText);
        }
      }
      assert StepIf(opts.toLowercase, Lowercase, vals) == Success(textLst[..]);
      ghost var v1 := textLst[..];
      if opts.removeHtmlTags {
        ok := RewriteColumn(textLst, RemoveHtml);
        if !ok {
          return Fail(NotText);
        }
      }
      assert StepIf(opts.removeHtmlTags, RemoveHtml, v1) == Success(textLst[..]);
      ghost var v2 := textLst[..];
      if opts.removeNonwordChars {
        ok := RewriteColumn(textLst, RemoveNonword);
        if !ok {
          return Fail(NotText);
        }
      }
      assert StepIf(opts.removeNonwordChars, RemoveNonword, v2) == Success(textLst[..]);
      ghost var v3 := textLst[..];
      if opts.removeStopwords {
        var stop := ResolveStopwords(opts, corpus);
        if stop.Failure? {
          return Fail(stop.error);
        }
        ok := RewriteColumn(textLst, RemoveStopwords(stop.value));
        if !ok {
          return Fail(NotText);
        }
      }
      assert PreprocessColumn(vals, opts, corpus) == Success(textLst[..]);
      SetColumnWellFormed(data, columns, textIndex, textLst[..]);
      data := SetColumn(data, textIndex, textLst[..]);
      return Pass;
    }

    /**
     * `encode_label`: the label column replaced through `dict` when one is
     * given, otherwise by the label encoder's codes.
     */
    method EncodeLabel(dict: Option<map<Value, Value>> := None) returns (outcome: Outcome<Error>)
      requires Valid()
      modifies this
      ensures Valid()
      ensures match EncodeRows(old(data), columns, labelCol, dict)
        case Success(t) => outcome == Pass && data == t
        case Failure(e) => outcome == Fail(e) && data == old(data)
    {
      var r := EncodeRows(data, columns, labelCol, dict);
      match r {
        case Success(t) =>
          if dict.Some? {
            EncodeWithDictionary(data, columns, labelCol.value, dict.value);
          } else {
            EncodeWithoutDictionary(data, columns, labelCol.value);
          }
          data := t;
          outcome := Pass;
        case Failure(e) =>
          outcome := Fail(e);
      }
    }

    /**
     * `balance_class`: random oversampling of the minority classes up to the
     * majority count. `balanceMethod` is accepted and not read; `rng` stands
     * for the sampler's seeded random draws.
     */
    method BalanceClass(rng: nat -> nat, balanceMethod: string := "oversampling") returns (outcome: Outcome<Error>)
      requires Valid()
      modifies this
      ensures Valid()
      ensures BalanceCheck(old(data), columns, labelCol).Fail? ==>
        outcome == BalanceCheck(old(data), columns, labelCol) && data == old(data)
      ensures BalanceCheck(old(data), columns, labelCol) == Pass ==>
        outcome == Pass && labelCol.Some? && labelCol.value in columns && Oversampled(old(data), data, labelCol.value)
    {
      outcome := BalanceCheck(data, columns, labelCol);
      if outcome.Fail? {
        return;
      }
      var col := labelCol.value;
      var resampled := Oversample(data, col, rng);
      OversampledWellFormed(data, resampled, col, columns);
      data := resampled;
    }

    /**
     * `delete_samples_from_data`: `head(-number)`. A positive `number` drops
     * that many rows from the end; `0` drops every row; a negative `number`
     * keeps only the first `-number` rows.
     */
    method DeleteSamplesFromData(number: int := 100)
      requires Valid()
      modifies this
      ensures Valid()
      ensures data == Head(old(data), -number)
      ensures number >= 1 && |old(data)| >= number ==> data == old(data)[..|old(data)| - number]
      ensures number == 0 ==> data == []
      ensures number >= 1 && |old(data)| <= number ==> data == []
      ensures number < 0 && |old(data)| >= -number ==> data == old(data)[..-number]
      ensures number < 0 && |old(data)| < -number ==> data == old(data)
    {
      data := Head(data, -number);
    }
  }
}
