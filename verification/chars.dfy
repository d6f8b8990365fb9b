/**
 Character classes used by the text pipeline, restricted to ASCII.

 Python's `str.isspace`, the `\s` class of a `str` regular expression,
 `str.split()` and `str.strip()` all cut at the same set of characters; on
 ASCII that set is the code points 9 to 13, 28 to 31 and 32. `str.lower()`
 on ASCII only moves 'A'..'Z' to 'a'..'z'.
 */
module Chars {

  /**
   The ASCII characters Python treats as whitespace: tab, line feed, vertical
   tab, form feed, carriage return, the four information separators 0x1C to
   0x1F, and the space.
   */
  predicate IsSpace(c: char) {
    var n := c as int;
    n == 32 || 9 <= n <= 13 || 28 <= n <= 31
  }

  /** True for an ASCII capital letter. */
  predicate IsUpper(c: char) {
    'A' <= c <= 'Z'
  }

  /** `str.lower()` on one character, over ASCII. */
  function ToLower(c: char): (r: char)
    ensures !IsUpper(r)
    ensures IsSpace(r) <==> IsSpace(c)
    ensures !IsUpper(c) ==> r == c
    ensures IsUpper(c) ==> 'a' <= r <= 'z' && r as int - 'a' as int == c as int - 'A' as int
  {
    if IsUpper(c) then (c as int - 'A' as int + 'a' as int) as char else c
  }
}
