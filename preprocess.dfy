/**
 * Text preprocessing of one column: up to four rewrites, each run over the
 * whole column before the next starts, in the fixed order lowercase, HTML
 * removal, non-word replacement, stopword removal.
 */
module Preprocess {
  import opened Wrappers
  import opened Table
  import opened Chars
  import opened TextSteps

  /** The parameters of `preprocess_text`, apart from the column name. */
  datatype TextOptions = TextOptions(
    toLowercase: bool,
    removeHtmlTags: bool,
    removeHtmlList: seq<string>,          // accepted and never read
    removeNonwordChars: bool,
    removeStopwords: bool,
    stopwordsLanguage: string,
    customizedStopwords: Option<set<string>>,
    lemmatize: bool)                      // accepted and never read

  /** The defaults of the public `preprocess_text`. */
  function DefaultTextOptions(): (opts: TextOptions)
    ensures opts.toLowercase && opts.removeHtmlTags && opts.removeNonwordChars && opts.removeStopwords
    ensures opts.customizedStopwords.None? && !opts.lemmatize
  {
    TextOptions(true, true, ["<br />"], true, true, "english", None, false)
  }

  /** At least one rewrite is enabled, so every cell of the column is read as a string. */
  predicate AnyStep(opts: TextOptions) {
    opts.toLowercase || opts.removeHtmlTags || opts.removeNonwordChars || opts.removeStopwords
  }

  datatype Step = Lowercase | RemoveHtml | RemoveNonword | RemoveStopwords(stop: set<string>)

  function ApplyStep(step: Step, s: string): string {
    match step
    case Lowercase => LowercaseStep(s)
    case RemoveHtml => RemoveHtmlStep(s)
    case RemoveNonword => NonwordStep(s)
    case RemoveStopwords(stop) => StopwordStep(s, stop)
  }

  predicate AllText(vals: seq<Value>) {
    forall i :: 0 <= i < |vals| ==> vals[i].Str?
  }

  /** One step applied to every cell of a column of strings. */
  function ApplyStepAll(step: Step, vals: seq<Value>): (r: seq<Value>)
    requires AllText(vals)
    ensures |r| == |vals| && AllText(r)
  {
    seq(|vals|, i requires 0 <= i < |vals| => Str(ApplyStep(step, vals[i].s)))
  }

  /** A step if it is enabled; a cell that is not a string aborts it. */
  function StepIf(enabled: bool, step: Step, vals: seq<Value>): (r: Result<seq<Value>, Error>)
    ensures !enabled ==> r == Success(vals)
    ensures enabled ==> (r.Success? <==> AllText(vals))
    ensures r.Failure? ==> r.error == NotText
    ensures enabled && r.Success? ==>
      |r.value| == |vals| && forall i :: 0 <= i < |vals| ==> r.value[i] == Str(ApplyStep(step, vals[i].s))
  {
    if !enabled then Success(vals)
    else if AllText(vals) then Success(ApplyStepAll(step, vals))
    else Failure(NotText)
  }

  /**
   * The stopword set: the customised list when one is given, otherwise the
   * corpus entry for the language (`corpus` stands for the stopword lists the
   * corpus download makes available).
   */
  function ResolveStopwords(opts: TextOptions, corpus: map<string, set<string>>): (r: Result<set<string>, Error>)
    ensures opts.customizedStopwords.Some? ==> r == Success(opts.customizedStopwords.value)
    ensures opts.customizedStopwords.None? && opts.stopwordsLanguage in corpus ==> r == Success(corpus[opts.stopwordsLanguage])
    ensures opts.customizedStopwords.None? && opts.stopwordsLanguage !in corpus ==> r == Failure(StopwordsUnavailable(opts.stopwordsLanguage))
  {
    match opts.customizedStopwords
    case Some(words) => Success(words)
    case None =>
      if opts.stopwordsLanguage in corpus then Success(corpus[opts.stopwordsLanguage])
      else Failure(StopwordsUnavailable(opts.stopwordsLanguage))
  }

  /** The whole column, step by step: what the four `for` loops leave in the list. */
  function PreprocessColumn(vals: seq<Value>, opts: TextOptions, corpus: map<string, set<string>>): (r: Result<seq<Value>, Error>)
    ensures !AnyStep(opts) ==> r == Success(vals)
    ensures r.Success? ==> |r.value| == |vals|
    ensures r.Success? && AnyStep(opts) ==> AllText(vals) && AllText(r.value)
    ensures (opts.toLowercase || opts.removeHtmlTags || opts.removeNonwordChars) && !AllText(vals) ==> r == Failure(NotText)
    ensures r.Failure? ==> r.error == NotText || r.error.StopwordsUnavailable?
  {
    var v1 :- StepIf(opts.toLowercase, Lowercase, vals);
    var v2 :- StepIf(opts.removeHtmlTags, RemoveHtml, v1);
    var v3 :- StepIf(opts.removeNonwordChars, RemoveNonword, v2);
    if !opts.removeStopwords then Success(v3)
    else
      var stop :- ResolveStopwords(opts, corpus);
      StepIf(true, RemoveStopwords(stop), v3)
  }

  /** One cell through the enabled steps, in order. */
  function PreprocessString(s: string, opts: TextOptions, stop: set<string>): (r: string)
    ensures !AnyStep(opts) ==> r == s
    ensures opts.removeStopwords ==> forall t :: t in Tokenize(r) ==> t !in stop
    ensures opts.removeNonwordChars && !opts.removeStopwords ==> forall i :: 0 <= i < |r| ==> IsWordChar(r[i]) || r[i] == ' '
  {
    var s1 := if opts.toLowercase then LowercaseStep(s) else s;
    var s2 := if opts.removeHtmlTags then RemoveHtmlStep(s1) else s1;
    var s3 := if opts.removeNonwordChars then NonwordStep(s2) else s2;
    if opts.removeStopwords then StopwordStep(s3, stop) else s3
  }

  function PreprocessEach(vals: seq<Value>, opts: TextOptions, stop: set<string>): (r: seq<Value>)
    requires AllText(vals)
    ensures |r| == |vals|
  {
    seq(|vals|, i requires 0 <= i < |vals| => Str(PreprocessString(vals[i].s, opts, stop)))
  }

  /**
   * Running each step over the whole column before the next is the same as
   * running every cell through all enabled steps; with no step enabled the
   * column comes back unchanged.
   */
  lemma PreprocessIsPerValue(vals: seq<Value>, opts: TextOptions, corpus: map<string, set<string>>, stop: set<string>)
    requires opts.removeStopwords ==> ResolveStopwords(opts, corpus) == Success(stop)
    requires AnyStep(opts) ==> AllText(vals)
    ensures AnyStep(opts) ==> PreprocessColumn(vals, opts, corpus) == Success(PreprocessEach(vals, opts, stop))
    ensures !AnyStep(opts) ==> PreprocessColumn(vals, opts, corpus) == Success(vals)
  {
    if AnyStep(opts) {
      var v1 := StepIf(opts.toLowercase, Lowercase, vals).value;
      var v2 := StepIf(opts.removeHtmlTags, RemoveHtml, v1).value;
      var v3 := StepIf(opts.removeNonwordChars, RemoveNonword, v2).value;
      var v4 := if opts.removeStopwords then ApplyStepAll(RemoveStopwords(stop), v3) else v3;
      assert PreprocessColumn(vals, opts, corpus) == Success(v4);
      forall i | 0 <= i < |vals| ensures v4[i] == PreprocessEach(vals, opts, stop)[i] {
        var s := vals[i].s;
        var s1 := if opts.toLowercase then LowercaseStep(s) else s;
        var s2 := if opts.removeHtmlTags then RemoveHtmlStep(s1) else s1;
        var s3 := if opts.removeNonwordChars then NonwordStep(s2) else s2;
        assert v1[i] == Str(s1);
        assert v2[i] == Str(s2);
        assert v3[i] == Str(s3);
      }
      assert v4 == PreprocessEach(vals, opts, stop);
    }
  }

  /**
   * The column preprocessing fails exactly when an enabled step meets a cell
   * that is not a string or the stopword set cannot be obtained; the first
   * three steps run before the stopwords are looked up.
   */
  lemma PreprocessFailure(vals: seq<Value>, opts: TextOptions, corpus: map<string, set<string>>)
    ensures PreprocessColumn(vals, opts, corpus).Failure? <==>
      (AnyStep(opts) && !AllText(vals)) || (opts.removeStopwords && ResolveStopwords(opts, corpus).Failure?)
    ensures (opts.toLowercase || opts.removeHtmlTags || opts.removeNonwordChars) && !AllText(vals) ==>
      PreprocessColumn(vals, opts, corpus) == Failure(NotText)
    ensures !(opts.toLowercase || opts.removeHtmlTags || opts.removeNonwordChars) && opts.removeStopwords
            && ResolveStopwords(opts, corpus).Failure? ==>
      PreprocessColumn(vals, opts, corpus) == Failure(ResolveStopwords(opts, corpus).error)
  {
    if opts.toLowercase && AllText(vals) {
      assert AllText(ApplyStepAll(Lowercase, vals));
    }
    if opts.removeStopwords && ResolveStopwords(opts, corpus).Success? && (!AnyStep(opts) || AllText(vals)) {
      PreprocessIsPerValue(vals, opts, corpus, ResolveStopwords(opts, corpus).value);
    }
  }

  /**
   * `__preprocess_text` on the whole table: the column is looked up, run
   * through the enabled steps, and written back in place of the old one.
   */
  function PreprocessTable(rows: seq<Row>, columns: set<string>, textIndex: string, opts: TextOptions,
                           corpus: map<string, set<string>>): (r: Result<seq<Row>, Error>)
    requires WellFormed(rows, columns)
    ensures textIndex !in columns ==> r == Failure(ColumnNotFound(textIndex))
    ensures r.Failure? && textIndex in columns ==> r.error == NotText || r.error.StopwordsUnavailable?
    ensures r.Success? ==> |r.value| == |rows| && WellFormed(r.value, columns)
    ensures r.Success? ==> forall i, c :: 0 <= i < |rows| && c in columns && c != textIndex ==> r.value[i][c] == rows[i][c]
  {
    if textIndex !in columns then Failure(ColumnNotFound(textIndex))
    else
      var vals :- PreprocessColumn(ColumnValues(rows, textIndex), opts, corpus);
      Success(SetColumn(rows, textIndex, vals))
  }

  /**
   * A successful preprocessing keeps the rows and columns, rewrites every
   * cell of the text column through the enabled steps, and leaves every
   * other cell alone; a missing column is reported as such.
   */
  lemma PreprocessTableFacts(rows: seq<Row>, columns: set<string>, textIndex: string, opts: TextOptions,
                             corpus: map<string, set<string>>, stop: set<string>)
    requires WellFormed(rows, columns)
    requires opts.removeStopwords ==> ResolveStopwords(opts, corpus) == Success(stop)
    ensures textIndex !in columns ==> PreprocessTable(rows, columns, textIndex, opts, corpus) == Failure(ColumnNotFound(textIndex))
    ensures PreprocessTable(rows, columns, textIndex, opts, corpus).Success? ==>
      var r := PreprocessTable(rows, columns, textIndex, opts, corpus).value;
      && |r| == |rows| && WellFormed(r, columns)
      && (AnyStep(opts) ==> forall i :: 0 <= i < |rows| ==>
            rows[i][textIndex].Str? && r[i][textIndex] == Str(PreprocessString(rows[i][textIndex].s, opts, stop)))
      && (!AnyStep(opts) ==> r == rows)
      && (forall i, c :: 0 <= i < |rows| && c in columns && c != textIndex ==> r[i][c] == rows[i][c])
  {
    if textIndex in columns && PreprocessTable(rows, columns, textIndex, opts, corpus).Success? {
      var vals := ColumnValues(rows, textIndex);
      PreprocessFailure(vals, opts, corpus);
      PreprocessIsPerValue(vals, opts, corpus, stop);
      var out := PreprocessColumn(vals, opts, corpus).value;
      SetColumnWellFormed(rows, columns, textIndex, out);
      if !AnyStep(opts) {
        SetColumnSame(rows, textIndex);
      }
    }
  }

  /** The HTML list and the lemmatize flag have no effect. */
  lemma UnusedOptionsIgnored(vals: seq<Value>, opts: TextOptions, corpus: map<string, set<string>>, html: seq<string>, lemmatize: bool)
    ensures PreprocessColumn(vals, opts.(removeHtmlList := html, lemmatize := lemmatize), corpus) == PreprocessColumn(vals, opts, corpus)
  {
  }

  /**
   * One step over the list in place (`for i in range(len(text_lst))`); a cell
   * that is not a string aborts the loop, and the caller then drops the list.
   */
  method RewriteColumn(textLst: array<Value>, step: Step) returns (ok: bool)
    modifies textLst
    ensures ok == AllText(old(textLst[..]))
    ensures ok ==> textLst[..] == ApplyStepAll(step, old(textLst[..]))
  {
    ghost var orig := textLst[..];
    for i := 0 to textLst.Length
      invariant AllText(orig[..i])
      invariant textLst[..i] == ApplyStepAll(step, orig[..i])
      invariant textLst[i..] == orig[i..]
    {
      if !textLst[i].Str? {
        assert orig[i] == textLst[..][i..][0];
        return false;
      }
      assert orig[..i + 1] == orig[..i] + [orig[i]];
      textLst[i] := Str(ApplyStep(step, textLst[i].s));
      assert textLst[..i + 1] == textLst[..i] + [textLst[i]];
    }
    assert orig[..textLst.Length] == orig;
    return true;
  }
}
