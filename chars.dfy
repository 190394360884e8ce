/**
 * Character classes used by Python's string methods and regular expressions.
 *
 * `IsWhitespace` is exactly the set of characters for which CPython's
 * `str.isspace()` holds; it is what `strip()`, `rstrip()` and the regular
 * expression class `\s` remove or match. `IsWordChar` (the regular expression
 * class `\w`) and `Lower` (`str.lower()`) are given for ASCII only.
 */
module Chars {

  predicate IsWhitespace(c: char) {
    ('\t' <= c <= '\r')                          // \t \n \v \f \r
    || ('\U{1C}' <= c <= '\U{1F}')               // file, group, record and unit separators
    || c == ' '
    || c == '\U{85}' || c == '\U{A0}' || c == '\U{1680}'
    || ('\U{2000}' <= c <= '\U{200A}')
    || c == '\U{2028}' || c == '\U{2029}' || c == '\U{202F}' || c == '\U{205F}'
    || c == '\U{3000}'
  }

  /** The regular expression class `\w`: letters, digits and the underscore. */
  predicate IsWordChar(c: char) {
    ('a' <= c <= 'z') || ('A' <= c <= 'Z') || ('0' <= c <= '9') || c == '_'
  }

  /** `str.lower()` on one character. */
  function Lower(c: char): (l: char)
    ensures IsWhitespace(l) == IsWhitespace(c) && IsWordChar(l) == IsWordChar(c)
  {
    if 'A' <= c <= 'Z' then (c as int + 32) as char else c
  }

  lemma WordCharIsNotWhitespace(c: char)
    ensures IsWordChar(c) ==> !IsWhitespace(c)
  {
  }

  lemma LowerIdempotent(c: char)
    ensures Lower(Lower(c)) == Lower(c)
  {
  }

  /**
   * The three kinds of character the word-punctuation tokenizer
   * (regular expression `\w+|[^\w\s]+`) distinguishes.
   */
  datatype CharKind = Word | Space | Punct

  function KindOf(c: char): (k: CharKind)
    ensures k == Word <==> IsWordChar(c)
    ensures k == Space <==> IsWhitespace(c)
  {
    if IsWordChar(c) then Word else if IsWhitespace(c) then Space else Punct
  }
}
