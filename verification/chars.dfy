/** Character classes used by the column-name normalizer and the whitespace strip,
    restricted to ASCII. */
module Chars {

  /** A character Python's `str.isspace` accepts, among the ASCII range:
      tab, line feed, vertical tab, form feed, carriage return (9..13),
      the four information separators (28..31), and space. */
  predicate IsSpace(c: char) {
    c == ' ' || 9 <= c as int <= 13 || 28 <= c as int <= 31
  }

  predicate IsUpper(c: char) {
    'A' <= c <= 'Z'
  }

  /** ASCII lower-casing; every other character is left as it is. */
  function ToLower(c: char): (r: char)
    ensures !IsUpper(r)
    ensures !IsUpper(c) ==> r == c
    ensures IsUpper(c) ==> 'a' <= r <= 'z'
  {
    if IsUpper(c) then (c as int + 32) as char else c
  }
}
