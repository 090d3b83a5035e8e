/** The character classes of the C locale that several files test. */
module Ctype {

  /** isspace */
  predicate IsSpace(c: char) {
    c == ' ' || c == '\t' || c == '\n' || c == '\U{0B}' || c == '\U{0C}' || c == '\r'
  }

  /** Section 7.4.1.10 of ISO C99: space, \f, \n, \r, \t and \v. */
  const SPACES: string := " \U{0C}\n\r\t\U{0B}"

  lemma SpaceIs(c: char)
    ensures IsSpace(c) <==> c in SPACES
  {
    assert SPACES == [' ', '\U{0C}', '\n', '\r', '\t', '\U{0B}'];
  }
}
