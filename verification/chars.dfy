/**
 * Character classes of the string functions the blog relies on
 * (`lower`, `split`, and the regular-expression class `\w`). Form fields
 * and query arguments arrive as unicode strings; the model covers their
 * ASCII range, where `\w` without the UNICODE flag and `lower` are the
 * ASCII classes, and `split` also separates on the four ASCII information
 * separators.
 */
module Chars {

  predicate IsUpper(c: char) {
    'A' <= c <= 'Z'
  }

  predicate IsDigit(c: char) {
    '0' <= c <= '9'
  }

  /** `\w` without the UNICODE flag: letters, digits and the underscore. */
  predicate IsWordChar(c: char) {
    'a' <= c <= 'z' || 'A' <= c <= 'Z' || '0' <= c <= '9' || c == '_'
  }

  /**
   * The ASCII separators of unicode `split()` with no argument: space, tab,
   * LF, VT, FF, CR, and the file, group, record and unit separators.
   */
  predicate IsSpace(c: char) {
    c == ' ' || '\t' <= c <= '\r' || '\U{1C}' <= c <= '\U{1F}'
  }

  /** `lower()` on one ASCII character: a capital becomes its own small letter, nothing else changes. */
  function Lower(c: char): (r: char)
    ensures !IsUpper(r)
    ensures IsWordChar(r) <==> IsWordChar(c)
    ensures !IsUpper(c) ==> r == c
    ensures IsUpper(c) ==> r == "abcdefghijklmnopqrstuvwxyz"[c as int - 'A' as int]
  {
    if IsUpper(c) then (c as int + 32) as char else c
  }
}
