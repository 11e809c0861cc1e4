/** The characters that the mail formats give a meaning to. */
module Ascii {
  import opened Fragments

  const CR: byte := 13
  const LF: byte := 10
  const SPACE: byte := 32
  const HYPHEN: byte := 45
  const DOT: byte := 46
  const ZERO: byte := 48
  const NINE: byte := 57

  predicate IsDigit(c: byte) {
    ZERO <= c <= NINE
  }
}
