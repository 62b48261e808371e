/** The character classes the four metric patterns and `str.strip()` use. */
module Chars {

  /** Python's whitespace test, shared by `\s` in a str pattern and by
      `str.strip()`: the ASCII controls 9-13 and 28-31, the space, and the
      non-ASCII white space characters of Python's table. */
  predicate IsSpace(c: char) {
    var n := c as int;
    || 9 <= n <= 13
    || 28 <= n <= 32
    || n == 0x85 || n == 0xA0 || n == 0x1680
    || 0x2000 <= n <= 0x200A
    || n == 0x2028 || n == 0x2029 || n == 0x202F || n == 0x205F || n == 0x3000
  }

  /** `\d`, restricted to the ASCII digits. */
  predicate IsDigit(c: char) {
    '0' <= c <= '9'
  }

  /** The class `[:\s]` that may stand between a keyword and its value. */
  predicate IsSeparator(c: char) {
    c == ':' || IsSpace(c)
  }

  /** The class `[\d,\.]` of a captured value. */
  predicate IsValueChar(c: char) {
    IsDigit(c) || c == ',' || c == '.'
  }

  predicate IsUpper(c: char) {
    'A' <= c <= 'Z'
  }

  predicate IsLower(c: char) {
    'a' <= c <= 'z'
  }

  /** ASCII case folding, the part of `re.IGNORECASE` the keywords need. */
  function ToLower(c: char): char {
    if IsUpper(c) then (c as int + 32) as char else c
  }

  function ToUpper(c: char): char {
    if IsLower(c) then (c as int - 32) as char else c
  }

  /** The separator class and the value class share no character, which is
      why backtracking never moves the start of a captured value. */
  lemma SeparatorsAndValuesDisjoint(c: char)
    ensures !(IsSeparator(c) && IsValueChar(c))
  {
  }

  /** Two characters that fold to the same letter are either equal or both
      letters; folding therefore never changes membership in any class the
      patterns test, and never changes a non-letter. */
  lemma FoldKeepsClasses(c: char, d: char)
    requires ToLower(c) == ToLower(d)
    ensures IsSpace(c) <==> IsSpace(d)
    ensures IsSeparator(c) <==> IsSeparator(d)
    ensures IsValueChar(c) <==> IsValueChar(d)
    ensures IsValueChar(c) ==> c == d
  {
  }

  /** A character that folds to a lower-case letter is not white space. */
  lemma FoldedLetterIsNotSpace(c: char)
    requires IsLower(ToLower(c))
    ensures !IsSpace(c) && !IsSeparator(c) && !IsValueChar(c)
  {
  }

  lemma FoldUpper(c: char)
    ensures ToLower(ToUpper(c)) == ToLower(c)
    ensures ToLower(ToLower(c)) == ToLower(c)
  {
  }
}
