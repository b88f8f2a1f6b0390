/**
 * Runes and the first-rune split used throughout fflag (runes.go).
 *
 * Strings are sequences of `char`; each char stands for one rune that
 * occupies one byte, so Go's byte lengths and rune counts coincide. The
 * character classes of Go's `unicode.IsLetter` and `unicode.IsNumber` are
 * modelled on their ASCII part.
 */
module Runes {
  /** A Go rune (int32): a code point, or one of the negative error markers. */
  type Rune = int

  const ErrRuneEmptyStr: Rune := -17
  const ErrRuneIdSepBad: Rune := -18
  const ErrRuneShortBad: Rune := -19
  const ErrRuneIdPartsBad: Rune := -20

  /** The rune a char stands for. */
  function RuneOf(c: char): Rune { c as int }

  /** Whether a rune value names a Unicode scalar value (a Dafny char). */
  predicate IsScalarValue(r: Rune) {
    0 <= r < 0xD800 || 0xE000 <= r < 0x11_0000
  }

  /** Go's `string(r)`: the one-rune string, or U+FFFD for a non-character. */
  function RuneString(r: Rune): (s: string)
    ensures |s| == 1
    ensures IsScalarValue(r) ==> RuneOf(s[0]) == r
    ensures !IsScalarValue(r) ==> s == "�"
  {
    if IsScalarValue(r) then [r as char] else "�"
  }

  /** `unicode.IsLetter`, restricted to ASCII. */
  predicate IsLetter(c: char) {
    ('a' <= c <= 'z') || ('A' <= c <= 'Z')
  }

  /** `unicode.IsNumber`, restricted to ASCII. */
  predicate IsNumber(c: char) {
    '0' <= c <= '9'
  }

  /** `unicode.IsLetter` applied to a rune value. */
  predicate IsLetterRune(r: Rune) {
    ('a' as int <= r <= 'z' as int) || ('A' as int <= r <= 'Z' as int)
  }

  /** `unicode.IsNumber` applied to a rune value. */
  predicate IsNumberRune(r: Rune) {
    '0' as int <= r <= '9' as int
  }

  /**
   * FirstRune: the first rune of `s` and the rest of `s` after it, or
   * (ErrRuneEmptyStr, "") for the empty string.
   */
  function FirstRune(s: string): (res: (Rune, string))
    ensures res.0 < 0 <==> s == ""
    ensures s == "" ==> res == (ErrRuneEmptyStr, "")
    ensures s != "" ==> IsScalarValue(res.0) && RuneString(res.0) + res.1 == s
  {
    if |s| == 0 then (ErrRuneEmptyStr, "") else (RuneOf(s[0]), s[1..])
  }

  /** FirstRune undoes prefixing a char. */
  lemma FirstRuneCons(c: char, tail: string)
    ensures FirstRune([c] + tail) == (RuneOf(c), tail)
  {
    assert ([c] + tail)[1..] == tail;
  }
}
