/**
 * Code points, text, and the Unicode services the library borrows from its host
 * (ICU normalisation, PCRE character properties, mbstring case and kana conversion).
 * Those services are not part of this model: they are the fields of `UnicodeData`,
 * which every operation that needs them takes as a parameter.
 */
module Unicode {
  /** A Unicode scalar value: a code point up to U+10FFFF that is not a surrogate. */
  type CodePoint = c: int | (0 <= c < 0xD800) || (0xE000 <= c <= 0x10FFFF)

  /** Well-formed Unicode text, as the UTF-8 decoder produces it. */
  type Text = seq<CodePoint>

  const TAB: CodePoint := 0x09
  const LF: CodePoint := 0x0A
  const CR: CodePoint := 0x0D
  const SPACE: CodePoint := 0x20
  const LINE_SEPARATOR: CodePoint := 0x2028
  const PARAGRAPH_SEPARATOR: CodePoint := 0x2029

  /**
   * The host's Unicode library.
   *  - nfc: Normalizer::normalize(s, Normalizer::FORM_C)
   *  - isOther: membership in general category C (the regex class \p{C})
   *  - isSpace: the regex class \s under PCRE's Unicode mode
   *  - toUpper, toLower: mb_strtoupper, mb_strtolower
   *  - convertKana: mb_convert_kana with the given option letters
   */
  datatype UnicodeData = UnicodeData(
    nfc: Text -> Text,
    isOther: CodePoint -> bool,
    isSpace: CodePoint -> bool,
    toUpper: Text -> Text,
    toLower: Text -> Text,
    convertKana: (Text, string) -> Text
  )
}
