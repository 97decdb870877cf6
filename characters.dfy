/**
  The character classes the extractor's pattern is built from, restricted to
  ASCII: Swift's `.whitespace`, `.word` and `.digit` classes and the line
  terminators recognised by `Anchor.startOfLine` (`Character.isNewline`).
 */
module Characters {

  /** `Character.isWhitespace`: tab, line feed, vertical tab, form feed, carriage return, space. */
  predicate IsWhitespace(c: char) {
    c == ' ' || '\t' <= c <= '\r'
  }

  /** `Character.isNewline`: line feed, vertical tab, form feed, carriage return. */
  predicate IsNewline(c: char) {
    '\n' <= c <= '\r'
  }

  /** `.digit`: a decimal digit. */
  predicate IsDigit(c: char) {
    '0' <= c <= '9'
  }

  /** `.word`: a letter, a digit or an underscore. */
  predicate IsWord(c: char) {
    'a' <= c <= 'z' || 'A' <= c <= 'Z' || IsDigit(c) || c == '_'
  }

  /** A character of a signed decimal literal: a digit or the minus sign. */
  predicate IsCodeChar(c: char) {
    IsDigit(c) || c == '-'
  }

  /** The classes above, as values a pattern piece can be given. */
  datatype CharClass = Whitespace | Word | Digit | CodeChar

  predicate InClass(c: char, kind: CharClass) {
    match kind
    case Whitespace => IsWhitespace(c)
    case Word => IsWord(c)
    case Digit => IsDigit(c)
    case CodeChar => IsCodeChar(c)
  }

  /** Every character of `t` belongs to the class `kind`. */
  predicate AllOf(t: string, kind: CharClass) {
    forall k | 0 <= k < |t| :: InClass(t[k], kind)
  }
}
