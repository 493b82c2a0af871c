/** Character classes shared by the text-handling modules. */
module Characters {

  /** The White_Space property of Unicode, which trimming uses. */
  predicate IsWhitespace(c: char) {
    || 0x09 as char <= c <= 0x0D as char
    || c in {' ', '\U{85}', '\U{A0}', '\U{1680}', '\U{2028}', '\U{2029}', '\U{202F}', '\U{205F}', '\U{3000}'}
    || '\U{2000}' <= c <= '\U{200A}'
  }

  predicate IsBlank(text: string) {
    forall c | c in text :: IsWhitespace(c)
  }
}
