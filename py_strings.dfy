/** The Python string methods the pipeline and the whitespace script call: `strip`, `rstrip`, `lower` and `<`. */
module PyStrings {
  import opened Chars

  /** Leading whitespace removed (`str.lstrip()`): the longest whitespace prefix is dropped. */
  function LStrip(s: string): (r: string)
    ensures |r| <= |s| && r == s[|s| - |r|..]
    ensures r == [] || !IsWhitespace(r[0])
    ensures forall i :: 0 <= i < |s| - |r| ==> IsWhitespace(s[i])
  {
    if s != [] && IsWhitespace(s[0]) then LStrip(s[1..]) else s
  }

  /** Trailing whitespace removed (`str.rstrip()`): the longest whitespace suffix is dropped. */
  function RStrip(s: string): (r: string)
    ensures |r| <= |s| && r == s[..|r|]
    ensures r == [] || !IsWhitespace(r[|r| - 1])
    ensures forall i :: |r| <= i < |s| ==> IsWhitespace(s[i])
  {
    if s != [] && IsWhitespace(s[|s| - 1]) then RStrip(s[..|s| - 1]) else s
  }

  /** `r` is `s[k..k + |r|]` and everything of `s` around it is whitespace. */
  predicate TrimmedAt(s: string, r: string, k: nat) {
    k + |r| <= |s| && r == s[k..k + |r|]
    && (forall i :: 0 <= i < k ==> IsWhitespace(s[i]))
    && (forall i :: k + |r| <= i < |s| ==> IsWhitespace(s[i]))
  }

  /** `str.strip()`: whitespace removed at both ends. */
  function Strip(s: string): (r: string)
    ensures |r| <= |s|
    ensures r == [] || (!IsWhitespace(r[0]) && !IsWhitespace(r[|r| - 1]))
    ensures r == [] <==> forall i :: 0 <= i < |s| ==> IsWhitespace(s[i])
  {
    var l := LStrip(s);
    assert forall i :: |s| - |l| <= i < |s| ==> s[i] == l[i - (|s| - |l|)];
    RStrip(l)
  }

  /**
   * What `strip` keeps is one contiguous piece of the input, and everything
   * around it is whitespace.
   */
  lemma StripIsInfix(s: string)
    ensures exists k :: TrimmedAt(s, Strip(s), k)
  {
    var l := LStrip(s);
    StripInfix(s, l);
    StripTail(s, l);
    var r := RStrip(l);
    assert Strip(s) == r;
    assert TrimmedAt(s, r, |s| - |l|);
  }

  lemma {:induction false} StripInfix(s: string, l: string)
    requires l == LStrip(s)
    ensures RStrip(l) == s[|s| - |l|..|s| - |l| + |RStrip(l)|]
  {
    var k := |s| - |l|;
    assert l == s[k..];
  }

  lemma {:induction false} StripTail(s: string, l: string)
    requires l == LStrip(s)
    ensures forall i :: |s| - |l| + |RStrip(l)| <= i < |s| ==> IsWhitespace(s[i])
  {
    WhitespaceSuffix(s, l, |RStrip(l)|);
  }

  /** Whitespace at the end of a suffix `l` of `s` is whitespace at the end of `s`. */
  lemma {:induction false} WhitespaceSuffix(s: string, l: string, n: nat)
    requires |l| <= |s| && l == s[|s| - |l|..] && n <= |l|
    requires forall j :: n <= j < |l| ==> IsWhitespace(l[j])
    ensures forall i :: |s| - |l| + n <= i < |s| ==> IsWhitespace(s[i])
  {
    var k := |s| - |l|;
    forall i | k + n <= i < |s|
      ensures IsWhitespace(s[i])
    {
      assert s[i] == l[i - k];
    }
  }




  /** A string whose ends are not whitespace is its own strip. */
  lemma StripNoop(s: string)
    requires s == [] || (!IsWhitespace(s[0]) && !IsWhitespace(s[|s| - 1]))
    ensures Strip(s) == s && RStrip(s) == s
  {
  }

  /** `str.lower()`: every character lowered, nothing inserted or removed. */
  function LowerStr(s: string): (r: string)
    ensures |r| == |s|
  {
    seq(|s|, i requires 0 <= i < |s| => Lower(s[i]))
  }

  /** Python's `<` on strings: code-point lexicographic order, a proper prefix is smaller. */
  predicate StrLess(a: string, b: string)
    decreases |a|
  {
    if b == [] then false
    else if a == [] then true
    else if a[0] != b[0] then a[0] < b[0]
    else StrLess(a[1..], b[1..])
  }

  lemma {:induction false} StrLessIrreflexive(a: string)
    ensures !StrLess(a, a)
    decreases |a|
  {
    if a != [] {
      StrLessIrreflexive(a[1..]);
    }
  }

  lemma {:induction false} StrLessAsymmetric(a: string, b: string)
    ensures StrLess(a, b) ==> !StrLess(b, a)
    decreases |a|
  {
    if a != [] && b != [] && a[0] == b[0] {
      StrLessAsymmetric(a[1..], b[1..]);
    }
  }

  lemma {:induction false} StrLessTrichotomous(a: string, b: string)
    ensures a == b || StrLess(a, b) || StrLess(b, a)
    decreases |a|
  {
    if a != [] && b != [] && a[0] == b[0] {
      StrLessTrichotomous(a[1..], b[1..]);
      if a[1..] == b[1..] {
        assert a == [a[0]] + a[1..] && b == [b[0]] + b[1..];
      }
    }
  }

  lemma {:induction false} StrLessTransitive(a: string, b: string, c: string)
    requires StrLess(a, b) && StrLess(b, c)
    ensures StrLess(a, c)
    decreases |a|
  {
    if a != [] && a[0] == b[0] && b[0] == c[0] {
      StrLessTransitive(a[1..], b[1..], c[1..]);
    }
  }
}
