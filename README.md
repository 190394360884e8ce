# EDA text-classification preprocessing, modelled in Dafny

This project models the `EDA` class of `pipeline/nlp_pipeline_eda.py` and the
line rewrite of `scripts/clean_whitespace.py`.

`EDA` holds one table, read from a CSV file, and the name of its label column
(`None` for an unsupervised dataset). Its methods change that table in place:

- `preprocess_text` copies one text column into a list. It runs up to four
  rewrites over the list, in a fixed order: strip and lowercase, delete
  `<br />`, blank every non-word character, drop stopwords. Then it writes
  the list back.
- `encode_label` replaces the label column. With a dictionary, it substitutes
  through the dictionary. Without one, it uses the codes of a fitted
  `LabelEncoder`.
- `balance_class` pads every minority class up to the majority count. The
  padding rows are random copies of the class's own rows
  (`RandomOverSampler`).
- `delete_samples_from_data` keeps `head(-number)` of the table.
- `get_data` and `get_lable_column` read the state.

The whitespace script rewrites each line of a file: each tab becomes eight
spaces, trailing whitespace (including the line ending) is removed, and one
`\n` is written after the line.

Files:

- `wrappers.dfy` — `Option`, `Result` (usable with `:-`), and `Outcome` for a
  method that either passes or fails.
- `chars.dfy` — the character classes behind `str.isspace`, `\s`, `\w` and
  `str.lower`.
- `py_strings.dfy` — `strip`, `rstrip`, `lower` and string `<`.
- `table.dfy` — the table (rows as maps from column name to cell), the errors,
  counting, and `head`.
- `text_steps.dfy` — the four per-string rewrites and the word-punctuation
  tokenizer.
- `preprocess.dfy` — one column through the enabled rewrites, and the in-place
  loop over the list.
- `label_encoding.dfy` — `LabelEncoder` (sorted distinct classes, code = rank)
  and dictionary substitution.
- `oversampling.dfy` — random oversampling and the checks the resampler makes
  before it starts.
- `eda.dfy` — the `EDA` class itself.
- `clean_whitespace.dfy` — the line rewrite and the loop over a file's lines.

Every operation that can fail returns a `Result` or an `Outcome`. Each
`Table.Error` constructor carries a comment naming the Python exception it
stands for. When an operation fails, the table is left as it was.

## Model

| member | source | states |
|---|---|---|
| Eda.EDA.constructor | pipeline/nlp_pipeline_eda.py:17-25 | the object holds the raw-data reference, the table read from it and the label column (`None` by default) |
| Eda.EDA.GetData | pipeline/nlp_pipeline_eda.py:104-105 | returns the current table; in a valid object every row has exactly the table's columns |
| Eda.EDA.GetLabelColumn | pipeline/nlp_pipeline_eda.py:108-109 | returns the label column given at construction; no method changes it |
| Eda.EDA.PreprocessText | pipeline/nlp_pipeline_eda.py:39-80 | on success the table becomes `PreprocessTable` of the old table. On any failure (missing column, non-string cell, no stopword list) the error is reported and the table is unchanged. The column set is kept |
| Eda.EDA.EncodeLabel | pipeline/nlp_pipeline_eda.py:82-87 | on success the table becomes `EncodeRows` of the old table; on failure the table is unchanged; the column set is kept |
| Eda.EDA.BalanceClass | pipeline/nlp_pipeline_eda.py:89-97 | when the resampler's checks fail, their error is returned and the table is unchanged; otherwise the new table is `Oversampled` from the old one, and the column set is kept |
| Eda.EDA.DeleteSamplesFromData | pipeline/nlp_pipeline_eda.py:112-113 | the table becomes `head(-number)`: a positive `number` drops that many rows from the end (all rows if fewer), `0` drops every row, and a negative `number` keeps the first `-number` rows |
| Chars.IsWhitespace | pipeline/nlp_pipeline_eda.py:48 | the characters `str.isspace` accepts, the same set as the regular-expression class `\s`. It is what `strip` removes here and what `rstrip` removes at scripts/clean_whitespace.py:26 |
| Chars.IsWordChar | pipeline/nlp_pipeline_eda.py:60 | the regular-expression class `\w` on ASCII text: letters, digits and the underscore. Its complement `\W` is what the non-word step blanks, and the tokenizer at line 72 groups runs of it into words |
| Chars.Lower | pipeline/nlp_pipeline_eda.py:48 | lowering a character never changes whether it is whitespace or a word character |
| Chars.WordCharIsNotWhitespace | pipeline/nlp_pipeline_eda.py:72 | `\w` and `\s` are disjoint |
| Chars.LowerIdempotent | pipeline/nlp_pipeline_eda.py:48 | lowering a character twice is the same as lowering it once |
| Chars.KindOf | pipeline/nlp_pipeline_eda.py:72 | a character is a word character, whitespace, or punctuation, and the first two are told apart exactly by `\w` and `\s` |
| PyStrings.LStrip | pipeline/nlp_pipeline_eda.py:48 | the result is a suffix of the input; it does not start with whitespace; everything removed was whitespace |
| PyStrings.RStrip | scripts/clean_whitespace.py:26 | the result is a prefix of the input; it does not end with whitespace; everything removed was whitespace |
| PyStrings.Strip | pipeline/nlp_pipeline_eda.py:48 | the result is no longer than the input and has no whitespace at either end; it is empty exactly when the input is all whitespace |
| PyStrings.StripIsInfix | pipeline/nlp_pipeline_eda.py:48 | what `strip` keeps is one contiguous piece of the input, starting at some position `k`, and everything before and after it is whitespace |
| PyStrings.StripNoop | pipeline/nlp_pipeline_eda.py:48 | a string that already has no whitespace at its ends is left as it is by `strip` and `rstrip` |
| PyStrings.LowerStr | pipeline/nlp_pipeline_eda.py:48 | `lower` keeps the length |
| PyStrings.StrLess | pipeline/nlp_pipeline_eda.py:84-85 | Python's `<` on strings: code point by code point, a proper prefix first. It is the order the encoder sorts string labels by |
| PyStrings.StrLessIrreflexive | pipeline/nlp_pipeline_eda.py:84-85 | no string is below itself in Python's string order |
| PyStrings.StrLessAsymmetric | pipeline/nlp_pipeline_eda.py:84-85 | the string order is asymmetric |
| PyStrings.StrLessTrichotomous | pipeline/nlp_pipeline_eda.py:84-85 | any two strings are equal or ordered one way |
| PyStrings.StrLessTransitive | pipeline/nlp_pipeline_eda.py:84-85 | the string order is transitive |
| Table.ColumnValues | pipeline/nlp_pipeline_eda.py:43 | `tolist()` has one value per row, each the row's cell in that column |
| Table.SetColumnWellFormed | pipeline/nlp_pipeline_eda.py:76-77 | writing one of the table's own columns back leaves every row over exactly the table's columns |
| Table.SetColumn | pipeline/nlp_pipeline_eda.py:76-77 | writing a column keeps the row count, puts the new value in each row, adds only that column, and leaves every other cell as it was |
| Table.SetColumnSame | pipeline/nlp_pipeline_eda.py:76-77 | writing a column's own values back changes nothing |
| Table.Count | pipeline/nlp_pipeline_eda.py:94-95 | a class count never exceeds the number of rows |
| Table.CountPositive | pipeline/nlp_pipeline_eda.py:94-95 | a label has a positive count exactly when some row carries it |
| Table.SliceStop | pipeline/nlp_pipeline_eda.py:113 | the end of a slice is clamped to the length |
| Table.Head | pipeline/nlp_pipeline_eda.py:113 | `head(n)` is a prefix of the table: `n` rows for `0 <= n <= len`, all rows for a larger `n`, `len + n` rows for a negative `n` down to `-len`, and no rows below that |
| Table.HeadNegativeDropsLast | pipeline/nlp_pipeline_eda.py:113 | `head(-n)` for positive `n` drops the last `n` rows, or every row when there are fewer |
| Table.HeadZero | pipeline/nlp_pipeline_eda.py:113 | `head(-0)` keeps no row |
| Table.HeadPositiveKeepsFirst | pipeline/nlp_pipeline_eda.py:113 | `head(m)` for `m >= 0` keeps the first `m` rows, or all rows when there are fewer |
| TextSteps.LowercaseStep | pipeline/nlp_pipeline_eda.py:48 | the result is no longer than the input and has no whitespace at its ends |
| TextSteps.LowerStrIdempotent | pipeline/nlp_pipeline_eda.py:48 | `lower` applied twice is the same as once |
| TextSteps.LowercaseIdempotent | pipeline/nlp_pipeline_eda.py:44-48 | stripping and lowercasing a value twice is the same as once |
| TextSteps.LowercaseNoStrip | pipeline/nlp_pipeline_eda.py:48 | a value with no whitespace at its ends is only lowered |
| TextSteps.RemoveAll | pipeline/nlp_pipeline_eda.py:54 | deleting the pattern never makes a string longer (the converse directions are the three lemmas below) |
| TextSteps.RemoveAllDeletesOnly | pipeline/nlp_pipeline_eda.py:54 | the input is the result's characters, in order, with whole copies of the pattern between them: only complete occurrences are deleted, and nothing is added, changed or reordered |
| TextSteps.RemoveAllNoOccurrence | pipeline/nlp_pipeline_eda.py:54 | a string without an occurrence of the pattern is unchanged |
| TextSteps.RemoveAllShortens | pipeline/nlp_pipeline_eda.py:54 | a string in which the pattern occurs anywhere gets strictly shorter |
| TextSteps.RemoveAllUnchangedIff | pipeline/nlp_pipeline_eda.py:54 | the deletion leaves a string unchanged exactly when the pattern does not occur in it |
| TextSteps.PatternCount | pipeline/nlp_pipeline_eda.py:54 | the number of positions where the pattern occurs is at most the length of the string |
| TextSteps.RemoveAllCount | pipeline/nlp_pipeline_eda.py:54 | for a pattern that cannot overlap itself, the string shrinks by the pattern length once for every occurrence, so every occurrence is deleted |
| TextSteps.RemoveHtmlStep | pipeline/nlp_pipeline_eda.py:50-54 | the HTML step never makes a value longer |
| TextSteps.RemoveHtmlDeletesEveryTag | pipeline/nlp_pipeline_eda.py:50-54 | every `<br />` in the value is deleted: the value shrinks by six characters per tag, and it is unchanged exactly when it holds none |
| TextSteps.RemoveHtmlExample1 | pipeline/nlp_pipeline_eda.py:54 | `" <br />/>"` becomes `" />"` |
| TextSteps.RemoveHtmlExample2 | pipeline/nlp_pipeline_eda.py:54 | `"r <br />/>"` becomes `"r />"` |
| TextSteps.RemoveHtmlExample3 | pipeline/nlp_pipeline_eda.py:54 | `"br <br />/>"` becomes `"br />"` |
| TextSteps.RemoveHtmlExample4 | pipeline/nlp_pipeline_eda.py:54 | `"<br <br />/>"` becomes `"<br />"` |
| TextSteps.RemoveHtmlSinglePass | pipeline/nlp_pipeline_eda.py:54 | one pass over `"<br <br />/>"` leaves `"<br />"`, and a second pass would delete that, so the step is not idempotent |
| TextSteps.NonwordStep | pipeline/nlp_pipeline_eda.py:60 | the length is kept, every word character stays where it is, and every other character becomes a space |
| TextSteps.NonwordOnlyWordsAndSpaces | pipeline/nlp_pipeline_eda.py:56-60 | after the step only word characters and spaces are left |
| TextSteps.NonwordIdempotent | pipeline/nlp_pipeline_eda.py:56-60 | blanking non-word characters twice is the same as once |
| TextSteps.HelloWorldExample | pipeline/nlp_pipeline_eda.py:44-60 | lowercasing and then blanking `"Hello, World!"` gives `"hello  world "` |
| TextSteps.RunLength | pipeline/nlp_pipeline_eda.py:72 | the length of the longest run of one character kind at the front |
| TextSteps.Tokenize | pipeline/nlp_pipeline_eda.py:72 | every token is a non-empty run of word characters or of punctuation |
| TextSteps.Join | pipeline/nlp_pipeline_eda.py:74 | joining no tokens gives the empty string; otherwise the result starts with the first token (its round trip with the tokenizer is `TokenizeJoin`) |
| TextSteps.KeepNonStopwords | pipeline/nlp_pipeline_eda.py:73 | a token is kept exactly when it is in the input and not a stopword; the result is empty exactly when every token is a stopword |
| TextSteps.KeepNonStopwordsAppend | pipeline/nlp_pipeline_eda.py:73 | filtering distributes over concatenation, so the kept tokens stay in order |
| TextSteps.KeepNonStopwordsIdempotent | pipeline/nlp_pipeline_eda.py:73 | filtering twice keeps the same tokens as filtering once |
| TextSteps.AllStopwordsGiveEmpty | pipeline/nlp_pipeline_eda.py:71-74 | a value whose tokens are all stopwords becomes the empty string |
| TextSteps.TokenizeLeadingToken | pipeline/nlp_pipeline_eda.py:72 | a token followed by whitespace or by nothing is tokenized as itself first |
| TextSteps.TokenizeJoin | pipeline/nlp_pipeline_eda.py:72-74 | tokenizing the space-joined tokens gives the same tokens back |
| TextSteps.StopwordStep | pipeline/nlp_pipeline_eda.py:71-74 | the tokens of the result are exactly the non-stopword tokens of the input, in their original order, so no stopword token is left |
| TextSteps.StopwordIdempotent | pipeline/nlp_pipeline_eda.py:71-74 | removing stopwords from an already cleaned value changes nothing |
| TextSteps.TokenizeCat | pipeline/nlp_pipeline_eda.py:72 | `"cat"` is one token |
| TextSteps.TokenizeTheCat | pipeline/nlp_pipeline_eda.py:72 | `"The cat"` is the tokens `"The"` and `"cat"` |
| TextSteps.StopwordMatchIsCaseSensitive | pipeline/nlp_pipeline_eda.py:73 | stopwords match by exact equality: `"The cat"` with the stopword `"the"` stays `"The cat"` |
| Preprocess.DefaultTextOptions | pipeline/nlp_pipeline_eda.py:116-117 | by default all four rewrites are on, no custom stopword list is given, and lemmatize is off |
| Preprocess.ApplyStepAll | pipeline/nlp_pipeline_eda.py:47-48 | a rewrite over a column of strings keeps its length and gives strings |
| Preprocess.StepIf | pipeline/nlp_pipeline_eda.py:44-60 | a disabled step leaves the column alone; an enabled step succeeds exactly when every cell is a string, then rewrites each cell, and otherwise fails with the non-string error |
| Preprocess.ResolveStopwords | pipeline/nlp_pipeline_eda.py:65-70 | a custom list wins; otherwise the language's corpus list is used; with no such list the lookup fails |
| Preprocess.PreprocessColumn | pipeline/nlp_pipeline_eda.py:43-74 | with no step enabled the column is returned as it is; success keeps the length and yields strings; a non-string cell with one of the first three steps on is reported as such; the only errors are a non-string cell and a missing stopword list |
| Preprocess.PreprocessString | pipeline/nlp_pipeline_eda.py:44-74 | with no step on a value is unchanged; with stopword removal on no token of the result is a stopword; with non-word blanking last, only word characters and spaces remain |
| Preprocess.PreprocessIsPerValue | pipeline/nlp_pipeline_eda.py:44-74 | running each step over the whole column before the next gives the same as running each value through all enabled steps; with no step enabled the column comes back unchanged |
| Preprocess.PreprocessFailure | pipeline/nlp_pipeline_eda.py:44-74 | the preprocessing fails exactly when an enabled step meets a non-string cell or the stopword list cannot be had. A non-string cell is reported first when an earlier step is on |
| Preprocess.PreprocessTable | pipeline/nlp_pipeline_eda.py:43-77 | a missing text column is reported as such, and any other failure is a non-string cell or a missing stopword list. On success the rows and columns are kept and no cell outside the text column changes |
| Preprocess.PreprocessTableFacts | pipeline/nlp_pipeline_eda.py:43-77 | a missing text column is reported as such. On success the row count and columns are kept, each text cell becomes its per-value result, and every other cell is unchanged |
| Preprocess.UnusedOptionsIgnored | pipeline/nlp_pipeline_eda.py:39-40 | `remove_html_list` and `lemmatize` have no effect |
| Preprocess.RewriteColumn | pipeline/nlp_pipeline_eda.py:47-48 | each of the four in-place loops (also lines 53-54, 59-60 and 71-74) succeeds exactly when every cell is a string, and then leaves each cell rewritten by the step |
| LabelEncoding.Less | pipeline/nlp_pipeline_eda.py:84-85 | the order the encoder sorts labels by: numbers by value, strings by `StrLess`. The two kinds are never compared, see below |
| LabelEncoding.Uniform | pipeline/nlp_pipeline_eda.py:85 | the labels are all strings or all numbers. Without it, sorting them raises TypeError, which is `MixedLabelTypes` |
| LabelEncoding.LessIsStrictTotal | pipeline/nlp_pipeline_eda.py:84-85 | the label order is irreflexive, asymmetric and total |
| LabelEncoding.LessTransitive | pipeline/nlp_pipeline_eda.py:84-85 | the label order is transitive |
| LabelEncoding.Insert | pipeline/nlp_pipeline_eda.py:84-85 | inserting into a sorted class list keeps it strictly sorted and adds exactly the new label |
| LabelEncoding.Classes | pipeline/nlp_pipeline_eda.py:84-85 | the fitted classes are strictly sorted and are exactly the labels that occur |
| LabelEncoding.IndexOf | pipeline/nlp_pipeline_eda.py:85 | the code of a class is its position in the class list |
| LabelEncoding.SortedIndexUnique | pipeline/nlp_pipeline_eda.py:85 | in the class list each class has exactly one position |
| LabelEncoding.SortedUnique | pipeline/nlp_pipeline_eda.py:84-85 | two strictly sorted lists with the same members are equal, so the fitted classes are unique |
| LabelEncoding.SortedCardinality | pipeline/nlp_pipeline_eda.py:84-85 | the class list has as many entries as there are distinct labels |
| LabelEncoding.EncodeAll | pipeline/nlp_pipeline_eda.py:85 | one code per label |
| LabelEncoding.EncodeAllCodes | pipeline/nlp_pipeline_eda.py:83-85 | the codes are 0..k-1 for k distinct labels, and each is used. Two labels are equal exactly when their codes are, and one label is smaller exactly when its code is |
| LabelEncoding.EncodeDeterministic | pipeline/nlp_pipeline_eda.py:83-85 | the code of a label depends only on which labels occur, not on their order or repetition |
| LabelEncoding.ReplaceAll | pipeline/nlp_pipeline_eda.py:87 | substitution keeps the number of labels |
| LabelEncoding.EncodeRows | pipeline/nlp_pipeline_eda.py:82-87 | no label column and a missing label column are errors; with a dictionary the encoding cannot fail, without one it fails only on mixed label types; success keeps the rows and columns and changes no cell outside the label column |
| LabelEncoding.EncodeWithDictionary | pipeline/nlp_pipeline_eda.py:86-87 | with a dictionary, mapped labels become their values and unmapped labels stay. Nothing else changes, and it cannot fail |
| LabelEncoding.EncodeWithoutDictionary | pipeline/nlp_pipeline_eda.py:83-85 | without a dictionary, a column of all-string or all-number labels is replaced by the fitted codes; a mixed column is refused; no other cell changes |
| LabelEncoding.PosNegExample | pipeline/nlp_pipeline_eda.py:83-85 | the labels `pos, neg, neg` give classes `neg, pos` and codes `1, 0, 0` |
| Oversampling.MaxCountUpTo | pipeline/nlp_pipeline_eda.py:94-95 | the largest class count among the first `k` rows' labels is an upper bound for them, and it is reached |
| Oversampling.Majority | pipeline/nlp_pipeline_eda.py:94-95 | no class is larger than the majority count, and in a non-empty table some class reaches it |
| Oversampling.UniformCountsTotal | pipeline/nlp_pipeline_eda.py:94-97 | a table whose labels lie in a set of classes, each with `m` rows, has `classes x m` rows |
| Oversampling.OversampledTotal | pipeline/nlp_pipeline_eda.py:94-97 | after oversampling the classes are the same, and the table has (number of classes) x (majority count) rows |
| Oversampling.OversampledWellFormed | pipeline/nlp_pipeline_eda.py:97 | oversampling keeps the table's columns in every row |
| Oversampling.CountLabel | pipeline/nlp_pipeline_eda.py:94-95 | the loop counts the rows of a class |
| Oversampling.MembersOf | pipeline/nlp_pipeline_eda.py:94-95 | the loop lists positions of rows of the class, as many as the class count |
| Oversampling.DistinctLabels | pipeline/nlp_pipeline_eda.py:94-95 | the loop lists each label that occurs exactly once |
| Oversampling.MajorityCount | pipeline/nlp_pipeline_eda.py:94-95 | the loop finds the majority count |
| Oversampling.PadClass | pipeline/nlp_pipeline_eda.py:94-95 | the draws for one class append copies of its own rows until it reaches the target count. The original rows stay in front, and other classes keep their counts |
| Oversampling.Oversampled | pipeline/nlp_pipeline_eda.py:93-97 | in a balanced resampling no class loses rows: each class count after is at least its count before |
| Oversampling.Oversample | pipeline/nlp_pipeline_eda.py:93-97 | the result is `Oversampled`: the original rows first and unchanged, each added row a copy of an original row, every class at the majority count |
| Oversampling.OversampledAdded | pipeline/nlp_pipeline_eda.py:93-95 | the rows appended after the originals hold, for each class, exactly the majority count minus that class's original count |
| Oversampling.BalanceCheck | pipeline/nlp_pipeline_eda.py:89-95 | no label column and a label missing from the columns are reported as such, and an empty table always fails. A table passes exactly when its label column is one of its columns, its labels are all strings or all numbers, it has at least one row, at least one other column, and at least two classes |
| Oversampling.BalanceCheckPasses | pipeline/nlp_pipeline_eda.py:89-95 | a table that passes the resampler's checks has a label column in its columns, at least one row and at least two classes |
| Oversampling.OneTwoCounts | pipeline/nlp_pipeline_eda.py:94-95 | one `pos` row and two `neg` rows have counts 1 and 2 and exactly those two classes |
| Oversampling.OneTwoMajority | pipeline/nlp_pipeline_eda.py:94-95 | that table's majority count is 2 |
| Oversampling.OneTwoBalanceExample | pipeline/nlp_pipeline_eda.py:94-97 | oversampling that table gives four rows, two per class; the added row is a copy of the `pos` row |
| CleanWhitespace.Blanks | scripts/clean_whitespace.py:14 | `' ' * n` has `n` characters, all spaces |
| CleanWhitespace.Occurrences | scripts/clean_whitespace.py:26 | a character count is zero exactly when the character does not occur |
| CleanWhitespace.OccurrencesAppend | scripts/clean_whitespace.py:25-26 | character counts over concatenated text add up |
| CleanWhitespace.ReplaceTabs | scripts/clean_whitespace.py:26 | no tab is left; each tab adds `tabsize - 1` characters; only spaces are introduced |
| CleanWhitespace.ReplaceTabsAppend | scripts/clean_whitespace.py:26 | tab replacement works piece by piece over concatenation |
| CleanWhitespace.ReplaceTabsNoTab | scripts/clean_whitespace.py:26 | text without tabs is unchanged |
| CleanWhitespace.RStripSnocSpace | scripts/clean_whitespace.py:26 | `rstrip` ignores a whitespace character added at the end |
| CleanWhitespace.RStripIdempotent | scripts/clean_whitespace.py:26 | `rstrip` twice is the same as once |
| CleanWhitespace.CleanLine | scripts/clean_whitespace.py:26 | the written line ends in `\n`, has no tab, and has no whitespace just before the `\n` |
| CleanWhitespace.CleanLineSingleNewline | scripts/clean_whitespace.py:26 | a line with or without its newline is written the same, with its single newline at the end |
| CleanWhitespace.CleanLineIdempotent | scripts/clean_whitespace.py:26 | cleaning an already cleaned line changes nothing |
| CleanWhitespace.ReplaceTabsExample | scripts/clean_whitespace.py:26 | in `"a\tb \r\n"` the tab becomes eight spaces and the rest stays |
| CleanWhitespace.RStripTail | scripts/clean_whitespace.py:26 | `rstrip` removes exactly an all-whitespace tail after a non-whitespace end |
| CleanWhitespace.CleanLineExample | scripts/clean_whitespace.py:26 | the line rewrite, as a function of any string, turns `"a\tb \r\n"` into `"a"`, eight spaces, `"b\n"` |
| CleanWhitespace.CleanAll | scripts/clean_whitespace.py:25-26 | the written file contains no tab, and a non-empty file ends in `\n` |
| CleanWhitespace.SingleNewlineAtEnd | scripts/clean_whitespace.py:26 | text whose only newline is its last character has one newline |
| CleanWhitespace.IsLine | scripts/clean_whitespace.py:25 | what iterating over a text file yields: a string with no newline except possibly as its last character |
| CleanWhitespace.CleanLineOfLine | scripts/clean_whitespace.py:25-26 | a line as read from the file gives exactly one newline, at the end |
| CleanWhitespace.CleanAllNewlines | scripts/clean_whitespace.py:25-26 | the written file has as many lines as were read |
| CleanWhitespace.AppendCleanLine | scripts/clean_whitespace.py:25-26 | appending a cleaned line keeps the text free of trailing blanks |
| CleanWhitespace.CleanAllNoTrailingWhitespace | scripts/clean_whitespace.py:25-26 | no line of the written file ends in whitespace |
| CleanWhitespace.CleanFile | scripts/clean_whitespace.py:25-26 | the write loop produces exactly the cleaned lines, one after another |

## Left out

- Reading the CSV file (`pd.read_csv`, with `error_bad_lines`, the engine and the encoding): the constructor takes the parsed table as an argument. Which rows a malformed file would drop is not modelled.
- Column order and the pandas index: a row is a map from column name to cell. The column order of the table that `balance_class` rebuilds with `pd.concat`, and index alignment on write-back, are not modelled.
- Cell types other than strings and integers (floats, NaN, booleans) are not modelled. pandas dtype inference (for example, whether a replaced column becomes numeric) is not modelled either.
- `\w` and `str.lower()` are modelled for ASCII only: non-ASCII letters and digits count as punctuation, and non-ASCII letters are not lowered. The whitespace set is CPython's full `str.isspace` list.
- The stopword corpus download (`nltk.download`) is a network and file operation. It becomes the parameter `corpus`, a map from language to stopword set. A language missing from the map is the download failure. The `wordnet` download is not modelled.
- `RandomOverSampler`'s random number generator (seeded with 0) becomes the parameter `rng`. The model proves what holds for every sequence of draws, not which rows seed 0 draws.
- Oversampling.Oversample: the order of the appended rows follows the model's class order (first appearance), not necessarily the resampler's order of classes.
- The `print` calls and `display_original_data` / `__display_original_data` only write to the console and are not modelled.
- `__unpack_data` and `__pack_data` return `None` and do nothing, so they are not modelled. The accepted-but-unread arguments (`remove_html_list`, `lemmatize`, `balance_method`) are kept as parameters without effect.
- `get_data` returns the live DataFrame, so a caller can mutate it behind the object. That aliasing is not modelled: `GetData` returns the table as a value.
- Eda.EDA.BalanceClass: when several checks would fail at once, the model reports the first in the order label column, label types, rows, feature columns, class count. The libraries' own precedence in such cases is not guaranteed to match.
- LabelEncoding.Less: integers and strings are never compared with each other, because mixed label columns are refused before sorting. The order between the two kinds is arbitrary.
- The whitespace script's command-line handling, the temporary `.new` file, `os.rename` and the messages it prints are file and console I/O and are not modelled. Splitting a file into lines (universal-newline reading) is not modelled either: `CleanFile` takes the lines as read.
