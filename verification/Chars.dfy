/** Classes of characters that several parts of the program ask about. */
module Chars {

  predicate IsDigit(c: char) { '0' <= c <= '9' }

  predicate IsAsciiLower(c: char) { 'a' <= c <= 'z' }

  predicate IsAsciiUpper(c: char) { 'A' <= c <= 'Z' }

  function AsciiLower(c: char): char {
    if IsAsciiUpper(c) then (c as int + 32) as char else c
  }

  function AsciiUpper(c: char): char {
    if IsAsciiLower(c) then (c as int - 32) as char else c
  }
}
