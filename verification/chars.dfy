/**
 Character classes used by the article parser.

 `IsSpace` is exactly Python's `str.isspace`, which is also the class that
 `\s` matches in a `str` pattern and the set `str.strip()` removes.
 `IsLineBoundary` is the set `str.splitlines` splits on.
 `IsWordChar` and `IsDigit` (the classes `\w` and `\d`) are exact for code
 points below U+0250 (Basic Latin, Latin-1 Supplement, Latin Extended-A and -B)
 and treat every higher code point as neither a word character nor a digit.
 */
module Chars {

  predicate IsSpace(c: char) {
    || c == ' '
    || ('\t' <= c <= '\r')            // \t \n \v \f \r
    || ('\U{1c}' <= c <= '\U{1f}')    // file, group, record and unit separators
    || c == '\U{85}'
    || c == '\U{a0}'
    || c == '\U{1680}'
    || ('\U{2000}' <= c <= '\U{200a}')
    || c == '\U{2028}'
    || c == '\U{2029}'
    || c == '\U{202f}'
    || c == '\U{205f}'
    || c == '\U{3000}'
  }

  /** The characters at which `str.splitlines` ends a line ("\r\n" counts once). */
  predicate IsLineBoundary(c: char) {
    || c == '\n'
    || c == '\r'
    || c == '\U{0b}'
    || c == '\U{0c}'
    || ('\U{1c}' <= c <= '\U{1e}')
    || c == '\U{85}'
    || c == '\U{2028}'
    || c == '\U{2029}'
  }

  predicate IsDigit(c: char) {
    '0' <= c <= '9'
  }

  predicate IsAsciiLetter(c: char) {
    ('a' <= c <= 'z') || ('A' <= c <= 'Z')
  }

  /** `\w`: letters, digits, numerics and the underscore. */
  predicate IsWordChar(c: char) {
    || IsAsciiLetter(c)
    || IsDigit(c)
    || c == '_'
    || c == '\U{aa}' || c == '\U{b2}' || c == '\U{b3}' || c == '\U{b5}'
    || c == '\U{b9}' || c == '\U{ba}' || ('\U{bc}' <= c <= '\U{be}')
    || ('\U{c0}' <= c <= '\U{24f}' && c != '\U{d7}' && c != '\U{f7}')
  }

  /** ASCII lower-casing; see `Matchers.IsStopLine` for why this is all `str.lower` needs here. */
  function ToLowerAscii(c: char): (r: char)
    ensures 'A' <= c <= 'Z' ==> 'a' <= r <= 'z'
    ensures !('A' <= c <= 'Z') ==> r == c
  {
    if 'A' <= c <= 'Z' then (c as int + 32) as char else c
  }

  lemma LineBoundaryIsSpace(c: char)
    requires IsLineBoundary(c)
    ensures IsSpace(c)
  {
  }

  lemma WordCharIsNotSpace(c: char)
    requires IsWordChar(c)
    ensures !IsSpace(c)
  {
  }
}
