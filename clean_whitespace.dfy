/**
 * The whitespace cleaner: every line of a file has each tab replaced by
 * eight spaces and its trailing whitespace (line ending included) removed,
 * and is then written back followed by a single `\n`.
 */
module CleanWhitespace {
  import opened Chars
  import opened PyStrings

  /** The number of spaces written in place of one tab. */
  const TabSize: nat := 8

  /** `' ' * n`: `n` blanks. */
  function Blanks(n: nat): (r: string)
    ensures |r| == n
    ensures forall i :: 0 <= i < n ==> r[i] == ' '
  {
    if n == 0 then [] else Blanks(n - 1) + [' ']
  }

  /** How many times `c` occurs in `s`. */
  function Occurrences(s: string, c: char): (n: nat)
    ensures n <= |s|
    ensures n == 0 <==> c !in s
  {
    if s == [] then 0
    else Occurrences(s[..|s| - 1], c) + (if s[|s| - 1] == c then 1 else 0)
  }

  lemma {:induction false} OccurrencesAppend(a: string, b: string, c: char)
    ensures Occurrences(a + b, c) == Occurrences(a, c) + Occurrences(b, c)
    decreases |b|
  {
    if b == [] {
      assert a + b == a;
    } else {
      assert (a + b)[..|a + b| - 1] == a + b[..|b| - 1];
      OccurrencesAppend(a, b[..|b| - 1], c);
    }
  }

  /** `line.replace('\t', ' ' * tabsize)`: no tab is left, and each tab has become `TabSize` characters. */
  function ReplaceTabs(s: string): (r: string)
    ensures '\t' !in r
    ensures |r| == |s| + (TabSize - 1) * Occurrences(s, '\t')
    ensures forall c :: c in r && c != ' ' ==> c in s
  {
    if s == [] then []
    else
      var head := if s[|s| - 1] == '\t' then Blanks(TabSize) else [s[|s| - 1]];
      ReplaceTabs(s[..|s| - 1]) + head
  }

  /** Replacing tabs line by line or on the joined text gives the same result. */
  lemma {:induction false} ReplaceTabsAppend(a: string, b: string)
    ensures ReplaceTabs(a + b) == ReplaceTabs(a) + ReplaceTabs(b)
    decreases |b|
  {
    if b == [] {
      assert a + b == a;
    } else {
      assert (a + b)[..|a + b| - 1] == a + b[..|b| - 1];
      ReplaceTabsAppend(a, b[..|b| - 1]);
    }
  }

  /** A string without tabs is left as it is. */
  lemma {:induction false} ReplaceTabsNoTab(s: string)
    requires '\t' !in s
    ensures ReplaceTabs(s) == s
    decreases |s|
  {
    if s != [] {
      assert '\t' !in s[..|s| - 1];
      ReplaceTabsNoTab(s[..|s| - 1]);
      assert s[..|s| - 1] + [s[|s| - 1]] == s;
    }
  }

  /** Trailing whitespace removal ignores a whitespace character added at the end. */
  lemma RStripSnocSpace(s: string, c: char)
    requires IsWhitespace(c)
    ensures RStrip(s + [c]) == RStrip(s)
  {
    assert (s + [c])[..|s|] == s;
  }

  /** Removing trailing whitespace twice is the same as once. */
  lemma RStripIdempotent(s: string)
    ensures RStrip(RStrip(s)) == RStrip(s)
  {
  }

  /** The rewrite of one line read from the file. */
  function CleanLine(line: string): (r: string)
    ensures |r| >= 1 && r[|r| - 1] == '\n'
    ensures '\t' !in r
    ensures |r| == 1 || !IsWhitespace(r[|r| - 2])
  {
    RStrip(ReplaceTabs(line)) + "\n"
  }

  /** A line with no newline inside it comes out with its single newline at the end only. */
  lemma CleanLineSingleNewline(body: string)
    requires '\n' !in body
    ensures CleanLine(body + "\n") == CleanLine(body)
    ensures '\n' !in CleanLine(body)[..|CleanLine(body)| - 1]
  {
    ReplaceTabsAppend(body, "\n");
    assert ReplaceTabs("\n") == "\n";
    RStripSnocSpace(ReplaceTabs(body), '\n');
    var t := RStrip(ReplaceTabs(body));
    assert CleanLine(body)[..|CleanLine(body)| - 1] == t;
    assert forall c :: c in t ==> c in ReplaceTabs(body);
  }

  /** Cleaning a line that was already cleaned changes nothing. */
  lemma CleanLineIdempotent(line: string)
    ensures CleanLine(CleanLine(line)) == CleanLine(line)
  {
    var t := RStrip(ReplaceTabs(line));
    assert '\t' !in t by {
      assert forall c :: c in t ==> c in ReplaceTabs(line);
    }
    ReplaceTabsNoTab(t + "\n");
    RStripSnocSpace(t, '\n');
    RStripIdempotent(ReplaceTabs(line));
  }

  /** One character on its own: a tab widens to `TabSize` spaces, anything else stays. */
  lemma ReplaceTabsChar(c: char)
    ensures ReplaceTabs([c]) == if c == '\t' then Blanks(TabSize) else [c]
  {
    assert [c][..0] == [];
  }

  /** The tab of `"a\tb \r\n"` becomes `Blanks(TabSize)`; the rest is kept. */
  lemma ReplaceTabsExample()
    ensures ReplaceTabs("a\tb \r\n") == "a" + Blanks(TabSize) + "b \r\n"
  {
    var a, b := "a", "b \r\n";
    assert "a\tb \r\n" == (a + "\t") + b;
    ReplaceTabsAppend(a + "\t", b);
    assert (a + "\t")[..|a|] == a;
    ReplaceTabsNoTab(a);
    ReplaceTabsNoTab(b);
  }

  /** Trailing whitespace removal drops exactly an all-whitespace tail after a non-whitespace end. */
  lemma {:induction false} RStripTail(t: string, w: string)
    requires t != [] && !IsWhitespace(t[|t| - 1])
    requires forall i :: 0 <= i < |w| ==> IsWhitespace(w[i])
    ensures RStrip(t + w) == t
    decreases |w|
  {
    if w == [] {
      assert t + w == t;
    } else {
      assert (t + w)[..|t + w| - 1] == t + w[..|w| - 1];
      RStripTail(t, w[..|w| - 1]);
    }
  }

  /**
   * `CleanLine` as a function of any string: the tab widens and the trailing
   * blank, `\r` and `\n` all go. (Reading in text mode turns `\r\n` into
   * `\n`, so the lines the loop sees never end in `\r\n`; the example is
   * about the rewrite itself.)
   */
  lemma CleanLineExample()
    ensures CleanLine("a\tb \r\n") == "a" + Blanks(TabSize) + "b\n"
  {
    ReplaceTabsExample();
    var t := "a" + Blanks(TabSize) + "b";
    var w := " \r\n";
    assert "a" + Blanks(TabSize) + "b \r\n" == t + w;
    assert t[|t| - 1] == 'b';
    RStripTail(t, w);
  }

  /** What the loop writes for the lines of one file. */
  function CleanAll(lines: seq<string>): (out: string)
    ensures '\t' !in out
    ensures lines != [] ==> |out| > 0 && out[|out| - 1] == '\n'
  {
    if lines == [] then [] else CleanAll(lines[..|lines| - 1]) + CleanLine(lines[|lines| - 1])
  }

  /** A line as the file iterator yields it: a newline at most at its end. */
  predicate IsLine(line: string) {
    forall i :: 0 <= i < |line| - 1 ==> line[i] != '\n'
  }

  /** A string whose only newline is its last character has one newline. */
  lemma SingleNewlineAtEnd(r: string)
    requires |r| >= 1 && r[|r| - 1] == '\n' && '\n' !in r[..|r| - 1]
    ensures Occurrences(r, '\n') == 1
  {
  }

  /** A line yields one newline, at its end, and nothing before it is a newline. */
  lemma CleanLineOfLine(line: string)
    requires IsLine(line)
    ensures '\n' !in RStrip(ReplaceTabs(line))
    ensures Occurrences(CleanLine(line), '\n') == 1
  {
    if line != [] && line[|line| - 1] == '\n' {
      var body := line[..|line| - 1];
      assert line == body + "\n";
      assert forall i :: 0 <= i < |body| ==> body[i] != '\n';
      CleanLineSingleNewline(body);
    } else {
      assert forall i :: 0 <= i < |line| ==> line[i] != '\n';
      CleanLineSingleNewline(line);
    }
    var r := CleanLine(line);
    assert r[..|r| - 1] == RStrip(ReplaceTabs(line));
    SingleNewlineAtEnd(r);
  }

  /** Each input line gives exactly one output line. */
  lemma {:induction false} CleanAllNewlines(lines: seq<string>)
    requires forall k :: 0 <= k < |lines| ==> IsLine(lines[k])
    ensures Occurrences(CleanAll(lines), '\n') == |lines|
    decreases |lines|
  {
    if lines != [] {
      var init := lines[..|lines| - 1];
      CleanAllNewlines(init);
      CleanLineOfLine(lines[|lines| - 1]);
      OccurrencesAppend(CleanAll(init), CleanLine(lines[|lines| - 1]), '\n');
    }
  }

  /** No newline is preceded by whitespace other than another newline: no line has trailing blanks. */
  predicate NoBlankBeforeNewline(s: string) {
    forall i :: 0 < i < |s| && s[i] == '\n' ==> s[i - 1] == '\n' || !IsWhitespace(s[i - 1])
  }

  /** Appending a cleaned line to cleaned text keeps it free of trailing blanks. */
  lemma AppendCleanLine(prev: string, r: string)
    requires NoBlankBeforeNewline(prev) && (prev == [] || prev[|prev| - 1] == '\n')
    requires '\n' !in r && (r == [] || !IsWhitespace(r[|r| - 1]))
    ensures NoBlankBeforeNewline(prev + r + "\n")
  {
    var out := prev + r + "\n";
    forall j | |prev| <= j < |prev| + |r| ensures out[j] != '\n' {
      assert out[j] == r[j - |prev|];
    }
    forall i | 0 < i < |out| && out[i] == '\n' ensures out[i - 1] == '\n' || !IsWhitespace(out[i - 1]) {
      if i < |prev| {
        assert out[i] == prev[i] && out[i - 1] == prev[i - 1];
      } else {
        assert i == |prev| + |r|;
        assert |r| > 0 ==> out[i - 1] == r[|r| - 1];
        assert |r| == 0 ==> out[i - 1] == prev[|prev| - 1];
      }
    }
  }

  /** In the written file no line ends in whitespace. */
  lemma {:induction false} CleanAllNoTrailingWhitespace(lines: seq<string>)
    requires forall k :: 0 <= k < |lines| ==> IsLine(lines[k])
    ensures NoBlankBeforeNewline(CleanAll(lines))
    decreases |lines|
  {
    if lines != [] {
      var prev := CleanAll(lines[..|lines| - 1]);
      var line := lines[|lines| - 1];
      CleanAllNoTrailingWhitespace(lines[..|lines| - 1]);
      CleanLineOfLine(line);
      var r := RStrip(ReplaceTabs(line));
      AppendCleanLine(prev, r);
      assert CleanAll(lines) == prev + r + "\n";
    }
  }

  /** `for line in r: w.write(...)`: the cleaned lines, written one after another. */
  method CleanFile(lines: seq<string>) returns (out: string)
    ensures out == CleanAll(lines)
  {
    out := [];
    for i := 0 to |lines|
      invariant out == CleanAll(lines[..i])
    {
      assert lines[..i + 1][..i] == lines[..i];
      out := out + CleanLine(lines[i]);
    }
    assert lines[..|lines|] == lines;
  }
}
