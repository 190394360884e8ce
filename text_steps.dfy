/**
 * The four per-string rewrites of the text preprocessing step, each as a
 * function on one string, with the properties that characterise it.
 */
module TextSteps {
  import opened Chars
  import opened PyStrings

  // ---------------------------------------------------------------------
  // Step 1: `s.strip().lower()`

  function LowercaseStep(s: string): (r: string)
    ensures |r| <= |s|
    ensures r == [] || (!IsWhitespace(r[0]) && !IsWhitespace(r[|r| - 1]))
  {
    LowerStr(Strip(s))
  }

  lemma LowerStrIdempotent(t: string)
    ensures LowerStr(LowerStr(t)) == LowerStr(t)
  {
    forall i | 0 <= i < |t| ensures LowerStr(LowerStr(t))[i] == LowerStr(t)[i] {
      LowerIdempotent(t[i]);
    }
  }

  /** Lowercasing a lowercased value changes nothing. */
  lemma LowercaseIdempotent(s: string)
    ensures LowercaseStep(LowercaseStep(s)) == LowercaseStep(s)
  {
    var t := Strip(s);
    var u := LowerStr(t);
    assert u == LowercaseStep(s);
    StripNoop(u);
    LowerStrIdempotent(t);
  }

  // ---------------------------------------------------------------------
  // Step 2: `re.sub(r'<br />', '', s)`

  /** The only markup the HTML step removes. */
  const BrTag: string := "<br />"

  /**
   * Every occurrence of the non-empty `pat`, found left to right without
   * overlap, deleted in a single pass (what `re.sub(pat, '', s)` does for a
   * pattern without metacharacters).
   */
  function RemoveAll(s: string, pat: string): (r: string)
    requires pat != []
    ensures |r| <= |s|
    decreases |s|
  {
    if |s| < |pat| then s
    else if s[..|pat|] == pat then
      assert s == s[..|pat|] + s[|pat|..];
      RemoveAll(s[|pat|..], pat)
    else
      assert s == [s[0]] + s[1..];
      [s[0]] + RemoveAll(s[1..], pat)
  }

  /** `pat` occurs in `s` at position `i`. */
  predicate OccursAt(s: string, pat: string, i: int) {
    0 <= i && i + |pat| <= |s| && s[i..i + |pat|] == pat
  }

  /**
   * `r` is `s` with some whole, non-overlapping copies of `pat` cut out: read
   * left to right, `s` is the characters of `r`, in order, with copies of
   * `pat` between them.
   */
  predicate CutsCopiesOf(s: string, r: string, pat: string)
    decreases |s|
  {
    if s == [] then r == []
    else
      (pat != [] && |pat| <= |s| && s[..|pat|] == pat && CutsCopiesOf(s[|pat|..], r, pat))
      || (r != [] && r[0] == s[0] && CutsCopiesOf(s[1..], r[1..], pat))
  }

  /** Cutting out no copy at all. */
  lemma {:induction false} CutsNothing(s: string, pat: string)
    ensures CutsCopiesOf(s, s, pat)
    decreases |s|
  {
    if s != [] {
      CutsNothing(s[1..], pat);
    }
  }

  /**
   * The step only deletes, and only whole copies of the pattern: the result
   * is the input with copies of `pat` cut out, so its characters are the
   * input's, in the same order.
   */
  lemma RemoveAllDeletesOnly(s: string, pat: string)
    requires pat != []
    ensures multiset(RemoveAll(s, pat)) <= multiset(s)
    ensures CutsCopiesOf(s, RemoveAll(s, pat), pat)
  {
    RemoveAllCuts(s, pat);
    CutsSubMultiset(s, RemoveAll(s, pat), pat);
  }

  lemma {:induction false} RemoveAllCuts(s: string, pat: string)
    requires pat != []
    ensures CutsCopiesOf(s, RemoveAll(s, pat), pat)
    decreases |s|
  {
    if |s| < |pat| {
      CutsNothing(s, pat);
    } else if s[..|pat|] == pat {
      RemoveAllCuts(s[|pat|..], pat);
    } else {
      RemoveAllCuts(s[1..], pat);
      var r := RemoveAll(s, pat);
      assert r[0] == s[0] && r[1..] == RemoveAll(s[1..], pat);
    }
  }

  /** Cutting out copies of a pattern only removes characters. */
  lemma {:induction false} CutsSubMultiset(s: string, r: string, pat: string)
    requires CutsCopiesOf(s, r, pat)
    ensures multiset(r) <= multiset(s)
    decreases |s|
  {
    if s != [] {
      if pat != [] && |pat| <= |s| && s[..|pat|] == pat && CutsCopiesOf(s[|pat|..], r, pat) {
        CutsSubMultiset(s[|pat|..], r, pat);
        assert s == s[..|pat|] + s[|pat|..];
      } else {
        CutsSubMultiset(s[1..], r[1..], pat);
        assert s == [s[0]] + s[1..];
        assert r == [r[0]] + r[1..];
      }
    }
  }

  /** A string without an occurrence of the pattern is left as it is. */
  lemma {:induction false} RemoveAllNoOccurrence(s: string, pat: string)
    requires pat != []
    requires forall i :: !OccursAt(s, pat, i)
    ensures RemoveAll(s, pat) == s
    decreases |s|
  {
    if |s| >= |pat| {
      assert !OccursAt(s, pat, 0);
      assert s[..|pat|] != pat;
      forall i ensures !OccursAt(s[1..], pat, i) {
        if OccursAt(s[1..], pat, i) {
          assert s[1..][i..i + |pat|] == s[i + 1..i + 1 + |pat|];
          assert OccursAt(s, pat, i + 1);
        }
      }
      RemoveAllNoOccurrence(s[1..], pat);
      assert s == [s[0]] + s[1..];
    }
  }

  /** An occurrence anywhere is deleted, so the string gets shorter. */
  lemma {:induction false} RemoveAllShortens(s: string, pat: string, i: int)
    requires pat != [] && OccursAt(s, pat, i)
    ensures |RemoveAll(s, pat)| < |s|
    decreases |s|
  {
    if s[..|pat|] != pat {
      assert i != 0;
      assert s[1..][i - 1..i - 1 + |pat|] == s[i..i + |pat|];
      RemoveAllShortens(s[1..], pat, i - 1);
    }
  }

  /** The step leaves a string alone exactly when the pattern does not occur in it. */
  lemma RemoveAllUnchangedIff(s: string, pat: string)
    requires pat != []
    ensures RemoveAll(s, pat) == s <==> forall i :: !OccursAt(s, pat, i)
  {
    if forall i :: !OccursAt(s, pat, i) {
      RemoveAllNoOccurrence(s, pat);
    } else {
      var i :| OccursAt(s, pat, i);
      RemoveAllShortens(s, pat, i);
    }
  }

  /** Two occurrences of `pat` can only overlap if they start at the same place. */
  predicate SelfOverlapFree(pat: string) {
    forall d :: 0 < d < |pat| ==> pat[d..] != pat[..|pat| - d]
  }

  /** The number of positions at which `pat` occurs in `s`, overlapping ones included. */
  function PatternCount(s: string, pat: string): (n: nat)
    requires pat != []
    ensures n <= |s|
    decreases |s|
  {
    if |s| < |pat| then 0
    else (if OccursAt(s, pat, 0) then 1 else 0) + PatternCount(s[1..], pat)
  }

  /** Behind an occurrence of an overlap-free pattern, the next `|pat| - 1` positions hold none. */
  lemma {:induction false} PatternCountSkip(s: string, pat: string, k: nat)
    requires pat != [] && SelfOverlapFree(pat) && OccursAt(s, pat, 0)
    requires 1 <= k <= |pat|
    ensures PatternCount(s[1..], pat) == PatternCount(s[k..], pat)
    decreases k
  {
    if k > 1 {
      var j := k - 1;
      PatternCountSkip(s, pat, j);
      var t := s[j..];
      assert t[1..] == s[k..];
      if |t| >= |pat| {
        assert t[..|pat| - j] == s[j..|pat|] == pat[j..] != pat[..|pat| - j];
        assert t[..|pat|][..|pat| - j] == t[..|pat| - j];
        assert !OccursAt(t, pat, 0);
        assert PatternCount(t, pat) == PatternCount(t[1..], pat);
      } else {
        assert PatternCount(t, pat) == 0 == PatternCount(t[1..], pat);
      }
    }
  }

  /**
   * For a pattern that cannot overlap itself, the step deletes every
   * occurrence: the string shrinks by `|pat|` for each one.
   */
  lemma {:induction false} RemoveAllCount(s: string, pat: string)
    requires pat != [] && SelfOverlapFree(pat)
    ensures |s| - |RemoveAll(s, pat)| == |pat| * PatternCount(s, pat)
    decreases |s|
  {
    if |s| >= |pat| {
      if s[..|pat|] == pat {
        var n := PatternCount(s[|pat|..], pat);
        RemoveAllCount(s[|pat|..], pat);
        PatternCountSkip(s, pat, |pat|);
        assert OccursAt(s, pat, 0);
        assert PatternCount(s, pat) == n + 1;
        assert RemoveAll(s, pat) == RemoveAll(s[|pat|..], pat);
        MulSucc(|pat|, n);
      } else {
        RemoveAllCount(s[1..], pat);
        assert !OccursAt(s, pat, 0);
        assert PatternCount(s, pat) == PatternCount(s[1..], pat);
        assert RemoveAll(s, pat) == [s[0]] + RemoveAll(s[1..], pat);
      }
    }
  }

  lemma MulSucc(p: int, n: int)
    ensures p * (n + 1) == p * n + p
  {
  }

  lemma BrTagSelfOverlapFree()
    ensures SelfOverlapFree(BrTag)
  {
    forall d | 0 < d < |BrTag| ensures BrTag[d..] != BrTag[..|BrTag| - d] {
      assert BrTag[d..][0] == BrTag[d] != '<' == BrTag[..|BrTag| - d][0];
    }
  }

  /**
   * Every `<br />` in the value is deleted: the value shrinks by six
   * characters per tag, and it is unchanged exactly when it holds none.
   */
  lemma RemoveHtmlDeletesEveryTag(s: string)
    ensures |s| - |RemoveHtmlStep(s)| == |BrTag| * PatternCount(s, BrTag)
    ensures RemoveHtmlStep(s) == s <==> forall i :: !OccursAt(s, BrTag, i)
  {
    BrTagSelfOverlapFree();
    RemoveAllCount(s, BrTag);
    RemoveAllUnchangedIff(s, BrTag);
  }

  function RemoveHtmlStep(s: string): (r: string)
    ensures |r| <= |s|
  {
    RemoveAll(s, BrTag)
  }

  /** A character that does not start the pattern is kept and the scan moves on by one. */
  lemma RemoveAllKeeps(c: char, s: string, pat: string, k: nat)
    requires k < |pat| <= |s| + 1 && ([c] + s)[k] != pat[k]
    ensures RemoveAll([c] + s, pat) == [c] + RemoveAll(s, pat)
  {
    assert ([c] + s)[..|pat|][k] != pat[k];
    assert ([c] + s)[1..] == s;
  }

  /** An occurrence at the front is deleted and the scan resumes after it. */
  lemma RemoveAllSkips(s: string, pat: string)
    requires pat != []
    ensures RemoveAll(pat + s, pat) == RemoveAll(s, pat)
  {
    assert (pat + s)[..|pat|] == pat && (pat + s)[|pat|..] == s;
  }

  lemma RemoveHtmlExample1()
    ensures RemoveAll(" <br />/>", BrTag) == " />"
  {
    RemoveAllSkips("/>", BrTag);
    assert BrTag + "/>" == "<br />/>";
    RemoveAllKeeps(' ', "<br />/>", BrTag, 0);
    assert [' '] + "<br />/>" == " <br />/>";
  }

  lemma RemoveHtmlExample2()
    ensures RemoveAll("r <br />/>", BrTag) == "r />"
  {
    RemoveHtmlExample1();
    RemoveAllKeeps('r', " <br />/>", BrTag, 0);
    assert ['r'] + " <br />/>" == "r <br />/>";
  }

  lemma RemoveHtmlExample3()
    ensures RemoveAll("br <br />/>", BrTag) == "br />"
  {
    RemoveHtmlExample2();
    RemoveAllKeeps('b', "r <br />/>", BrTag, 0);
    assert ['b'] + "r <br />/>" == "br <br />/>";
  }

  /**
   * The removal is a single pass: a tag that only forms once an inner tag is
   * deleted survives, so the step is not idempotent.
   */
  lemma RemoveHtmlSinglePass()
    ensures RemoveHtmlStep("<br <br />/>") == BrTag
    ensures RemoveHtmlStep(BrTag) == ""
  {
    RemoveHtmlExample4();
    assert ['<'] + "br />" == BrTag;
    RemoveAllSkips("", BrTag);
    assert BrTag + "" == BrTag;
  }

  lemma RemoveHtmlExample4()
    ensures RemoveAll("<br <br />/>", BrTag) == ['<'] + "br />"
  {
    var t := "br <br />/>";
    assert (['<'] + t)[4] == t[3] == '<' && BrTag[4] == '/';
    RemoveHtmlExample3();
    RemoveAllKeeps('<', t, BrTag, 4);
    assert ['<'] + t == "<br <br />/>";
  }

  // ---------------------------------------------------------------------
  // Step 3: `re.sub(r'[\W]', ' ', s)`

  /** Every character outside `\w` becomes a space; word characters stay where they are. */
  function NonwordStep(s: string): (r: string)
    ensures |r| == |s|
    ensures forall i :: 0 <= i < |s| && IsWordChar(s[i]) ==> r[i] == s[i]
    ensures forall i :: 0 <= i < |s| && !IsWordChar(s[i]) ==> r[i] == ' '
  {
    seq(|s|, i requires 0 <= i < |s| => if IsWordChar(s[i]) then s[i] else ' ')
  }

  /** After the replacement only word characters and spaces are left. */
  lemma NonwordOnlyWordsAndSpaces(s: string)
    ensures forall i :: 0 <= i < |NonwordStep(s)| ==> IsWordChar(NonwordStep(s)[i]) || NonwordStep(s)[i] == ' '
  {
  }

  lemma NonwordIdempotent(s: string)
    ensures NonwordStep(NonwordStep(s)) == NonwordStep(s)
  {
  }

  // ---------------------------------------------------------------------
  // Step 4: `' '.join([t for t in WordPunctTokenizer().tokenize(s) if t not in stop])`

  /** A token: a non-empty run of word characters or a non-empty run of punctuation. */
  predicate IsToken(t: string) {
    t != [] && KindOf(t[0]) != Space && forall i :: 0 <= i < |t| ==> KindOf(t[i]) == KindOf(t[0])
  }

  /** Length of the longest prefix of `s` made of characters of kind `k`. */
  function RunLength(s: string, k: CharKind): (n: nat)
    ensures n <= |s|
    ensures forall i :: 0 <= i < n ==> KindOf(s[i]) == k
    ensures n < |s| ==> KindOf(s[n]) != k
  {
    if s == [] || KindOf(s[0]) != k then 0 else 1 + RunLength(s[1..], k)
  }

  /**
   * The word-punctuation tokenizer, regular expression `\w+|[^\w\s]+`:
   * whitespace is skipped, and each maximal run of word characters or of
   * punctuation is one token.
   */
  function Tokenize(s: string): (toks: seq<string>)
    ensures forall i :: 0 <= i < |toks| ==> IsToken(toks[i])
    decreases |s|
  {
    if s == [] then []
    else if KindOf(s[0]) == Space then Tokenize(s[1..])
    else
      var n := RunLength(s, KindOf(s[0]));
      [s[..n]] + Tokenize(s[n..])
  }

  /** `' '.join(toks)`: the first token starts the result and the last one ends it. */
  function Join(toks: seq<string>): (r: string)
    ensures toks == [] ==> r == ""
    ensures toks != [] ==> |toks[0]| <= |r| && r[..|toks[0]|] == toks[0]
  {
    if toks == [] then ""
    else if |toks| == 1 then toks[0]
    else toks[0] + " " + Join(toks[1..])
  }

  /** The tokens not in `stop`, in their original order (the list comprehension). */
  function KeepNonStopwords(toks: seq<string>, stop: set<string>): (kept: seq<string>)
    ensures |kept| <= |toks|
    ensures forall t :: t in kept <==> t in toks && t !in stop
    ensures kept == [] <==> forall i :: 0 <= i < |toks| ==> toks[i] in stop
  {
    if toks == [] then []
    else (if toks[0] in stop then [] else [toks[0]]) + KeepNonStopwords(toks[1..], stop)
  }

  /** Filtering distributes over concatenation: the kept tokens keep their relative order. */
  lemma {:induction false} KeepNonStopwordsAppend(a: seq<string>, b: seq<string>, stop: set<string>)
    ensures KeepNonStopwords(a + b, stop) == KeepNonStopwords(a, stop) + KeepNonStopwords(b, stop)
  {
    if a != [] {
      assert (a + b)[1..] == a[1..] + b;
      KeepNonStopwordsAppend(a[1..], b, stop);
    } else {
      assert a + b == b;
    }
  }

  lemma {:induction false} KeepNonStopwordsIdempotent(toks: seq<string>, stop: set<string>)
    ensures KeepNonStopwords(KeepNonStopwords(toks, stop), stop) == KeepNonStopwords(toks, stop)
  {
    if toks != [] {
      var head := if toks[0] in stop then [] else [toks[0]];
      KeepNonStopwordsAppend(head, KeepNonStopwords(toks[1..], stop), stop);
      KeepNonStopwordsIdempotent(toks[1..], stop);
      assert KeepNonStopwords(head, stop) == head by {
        if head != [] {
          assert head[1..] == [];
        }
      }
    }
  }

  /**
   * The tokens of the result are exactly the tokens of `s` that are not
   * stopwords, in their original order.
   */
  function StopwordStep(s: string, stop: set<string>): (r: string)
    ensures Tokenize(r) == KeepNonStopwords(Tokenize(s), stop)
    ensures forall t :: t in Tokenize(r) ==> t in Tokenize(s) && t !in stop
  {
    var kept := KeepNonStopwords(Tokenize(s), stop);
    KeptAreTokens(Tokenize(s), stop);
    TokenizeJoin(kept);
    Join(kept)
  }

  /** What the filter keeps are tokens when its input was. */
  lemma KeptAreTokens(toks: seq<string>, stop: set<string>)
    requires forall i :: 0 <= i < |toks| ==> IsToken(toks[i])
    ensures forall i :: 0 <= i < |KeepNonStopwords(toks, stop)| ==> IsToken(KeepNonStopwords(toks, stop)[i])
  {
    var kept := KeepNonStopwords(toks, stop);
    forall i | 0 <= i < |kept| ensures IsToken(kept[i]) {
      assert kept[i] in kept;
      var j :| 0 <= j < |toks| && toks[j] == kept[i];
    }
  }

  /** When every token is a stopword the value becomes the empty string. */
  lemma AllStopwordsGiveEmpty(s: string, stop: set<string>)
    requires forall t :: t in Tokenize(s) ==> t in stop
    ensures StopwordStep(s, stop) == ""
  {
  }

  /** Tokenizing a token followed by nothing or by whitespace yields that token first. */
  lemma TokenizeLeadingToken(t: string, rest: string)
    requires IsToken(t)
    requires rest == [] || KindOf(rest[0]) == Space
    ensures Tokenize(t + rest) == [t] + Tokenize(rest)
  {
    var s := t + rest;
    var n := RunLength(s, KindOf(s[0]));
    assert forall i :: 0 <= i < |t| ==> s[i] == t[i];
    assert |t| < |s| ==> s[|t|] == rest[0];
    assert n == |t|;
    assert s[..n] == t && s[n..] == rest;
  }

  /** Leading whitespace is skipped by the tokenizer. */
  lemma TokenizeSkipsSpace(s: string)
    requires s != [] && KindOf(s[0]) == Space
    ensures Tokenize(s) == Tokenize(s[1..])
  {
  }

  /** Re-tokenizing the space-joined tokens gives the tokens back. */
  lemma {:induction false} TokenizeJoin(toks: seq<string>)
    requires forall i :: 0 <= i < |toks| ==> IsToken(toks[i])
    ensures Tokenize(Join(toks)) == toks
  {
    if |toks| == 1 {
      TokenizeLeadingToken(toks[0], "");
      assert toks[0] + "" == toks[0];
    } else if |toks| > 1 {
      var tail := Join(toks[1..]);
      var rest := " " + tail;
      assert Join(toks) == toks[0] + rest;
      TokenizeLeadingToken(toks[0], rest);
      assert rest[1..] == tail;
      TokenizeSkipsSpace(rest);
      TokenizeJoin(toks[1..]);
      assert toks == [toks[0]] + toks[1..];
    }
  }

  /** Removing stopwords twice removes nothing more. */
  lemma StopwordIdempotent(s: string, stop: set<string>)
    ensures StopwordStep(StopwordStep(s, stop), stop) == StopwordStep(s, stop)
  {
    KeepNonStopwordsIdempotent(Tokenize(s), stop);
  }

  lemma TokenizeCat()
    ensures Tokenize("cat") == ["cat"]
  {
    assert RunLength("", Word) == 0;
    assert RunLength("t", Word) == 1;
    assert RunLength("at", Word) == 2;
    assert RunLength("cat", Word) == 3;
    assert "cat"[..3] == "cat" && "cat"[3..] == "";
  }

  lemma TokenizeTheCat()
    ensures Tokenize("The cat") == ["The", "cat"]
  {
    TokenizeCat();
    assert " cat"[1..] == "cat";
    TokenizeSkipsSpace(" cat");
    assert RunLength(" cat", Word) == 0;
    assert RunLength("e cat", Word) == 1;
    assert RunLength("he cat", Word) == 2;
    assert RunLength("The cat", Word) == 3;
    assert "The cat"[..3] == "The" && "The cat"[3..] == " cat";
  }

  /** Matching is by exact string equality: an upper-case token escapes a lower-case stopword list. */
  lemma StopwordMatchIsCaseSensitive()
    ensures StopwordStep("The cat", {"the"}) == "The cat"
  {
    TokenizeTheCat();
    KeepTheCat();
    JoinTheCat();
  }

  lemma KeepTheCat()
    ensures KeepNonStopwords(["The", "cat"], {"the"}) == ["The", "cat"]
  {
    assert KeepNonStopwords(["cat"], {"the"}) == ["cat"];
  }

  lemma JoinTheCat()
    ensures Join(["The", "cat"]) == "The cat"
  {
    assert ["The", "cat"][1..] == ["cat"];
  }

  /** Lowercasing and then blanking the punctuation of `"Hello, World!"` gives `"hello  world "`. */
  lemma HelloWorldExample()
    ensures NonwordStep(LowercaseStep("Hello, World!")) == "hello  world "
  {
    LowercaseHello();
    NonwordHello();
  }

  lemma LowercaseHello()
    ensures LowercaseStep("Hello, World!") == "hello, world!"
  {
    var s := "Hello, World!";
    LowercaseNoStrip(s);
    assert LowerStr(s) == "hello, world!";
  }

  /** A value without whitespace at its ends is only lowered. */
  lemma LowercaseNoStrip(s: string)
    requires s == [] || (!IsWhitespace(s[0]) && !IsWhitespace(s[|s| - 1]))
    ensures LowercaseStep(s) == LowerStr(s)
  {
    StripNoop(s);
  }

  lemma NonwordHello()
    ensures NonwordStep("hello, world!") == "hello  world "
  {
  }
}
