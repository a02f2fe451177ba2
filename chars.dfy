/**
 * Character classes used by the parser. The text the parser sees has been
 * through clean_text, so every class here is the ASCII version of the
 * corresponding Python class.
 */
module Chars {

  /** A code point in the range \x00-\x7F. */
  predicate IsAscii(c: char) {
    c as int <= 0x7F
  }

  /**
   * Python's str.isspace() on ASCII: space, \t, \n, \v, \f, \r and the
   * four separators \x1c-\x1f.
   */
  predicate IsSpace(c: char) {
    var n := c as int;
    n == 32 || 9 <= n <= 13 || 28 <= n <= 31
  }

  /** The regex class \d. */
  predicate IsDigit(c: char) {
    '0' <= c <= '9'
  }

  predicate IsUpper(c: char) {
    'A' <= c <= 'Z'
  }

  /** The regex class [a-z]. */
  predicate IsLower(c: char) {
    'a' <= c <= 'z'
  }

  /** The regex class \w: letters, digits and the underscore. */
  predicate IsWordChar(c: char) {
    IsUpper(c) || IsLower(c) || IsDigit(c) || c == '_'
  }

  /** str.lower() on one ASCII character. */
  function ToLower(c: char): (r: char)
    ensures IsUpper(c) ==> IsLower(r) && r as int == c as int + 32
    ensures !IsUpper(c) ==> r == c
  {
    if IsUpper(c) then (c as int + 32) as char else c
  }

  /** str.upper() on one ASCII character. */
  function ToUpper(c: char): (r: char)
    ensures IsLower(c) ==> IsUpper(r) && r as int == c as int - 32
    ensures !IsLower(c) ==> r == c
  {
    if IsLower(c) then (c as int - 32) as char else c
  }

  /** Folding case first to upper and then to lower loses nothing. */
  lemma LowerOfUpper(c: char)
    ensures ToLower(ToUpper(c)) == ToLower(c)
  {
  }
}
