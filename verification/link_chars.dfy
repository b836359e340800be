/**
  The character class `[\w\s/-]` of the folder-link pattern, as JavaScript
  reads it in a regular expression without the `u` or `i` flag.
 */
module LinkChars {

  /** `\w`: the ASCII word characters `[A-Za-z0-9_]`. */
  predicate IsWordChar(c: char) {
    || ('a' <= c <= 'z')
    || ('A' <= c <= 'Z')
    || ('0' <= c <= '9')
    || c == '_'
  }

  /** `\s`: the ECMAScript WhiteSpace and LineTerminator code points
      (TAB, LF, VT, FF, CR, SPACE, NBSP, ZWNBSP, the other Unicode `Zs`
      spaces, LINE SEPARATOR and PARAGRAPH SEPARATOR). */
  predicate IsWhitespace(c: char) {
    || c == '\t' || c == '\n' || c == '\U{000B}' || c == '\U{000C}' || c == '\r'
    || c == ' ' || c == '\U{00A0}' || c == '\U{1680}'
    || ('\U{2000}' <= c <= '\U{200A}')
    || c == '\U{2028}' || c == '\U{2029}' || c == '\U{202F}' || c == '\U{205F}'
    || c == '\U{3000}' || c == '\U{FEFF}'
  }

  /** A character allowed inside a folder link: `[\w\s/-]`. */
  predicate IsLinkChar(c: char) {
    IsWordChar(c) || IsWhitespace(c) || c == '/' || c == '-'
  }

  /** The brackets that delimit a link are never part of its inner text,
      which is what makes the pattern's match at a given offset unique. */
  lemma BracketsAreNotLinkChars()
    ensures !IsLinkChar('[') && !IsLinkChar(']')
    ensures IsLinkChar('/') && !IsWhitespace('/')
  {
  }
}
