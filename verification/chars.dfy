/** Character classes shared by the text clean-up and the number
    parsing. */
module Chars {

  /** An ASCII decimal digit. */
  predicate IsDigit(c: char)
  {
    '0' <= c <= '9'
  }
}
