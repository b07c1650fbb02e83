/**
 * Character-level helpers shared by the string rules: ASCII-only case
 * folding, as `java.util.regex` applies it when CASE_INSENSITIVE is set
 * without UNICODE_CASE.
 */
module AsciiText {

  /** Maps 'A'..'Z' to 'a'..'z' and leaves every other character alone. */
  function ToLower(c: char): char
  {
    if 'A' <= c <= 'Z' then (c as int + 32) as char else c
  }

  /** Two characters are equal once both are folded to ASCII lower case. */
  predicate SameIgnoringCase(a: char, b: char)
  {
    ToLower(a) == ToLower(b)
  }
}
