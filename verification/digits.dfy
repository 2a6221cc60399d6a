/** The fixed 23-glyph alphabet shared by parsing and formatting. */
module Digits {
  import opened Wrappers

  /** The radix of the numeral system. */
  const Base: nat := 23

  /** The glyph of every digit value, indexed by that value: `0`-`9`, then `A`-`M`. */
  const Glyphs: string := "0123456789ABCDEFGHIJKLM"

  /** ASCII upper-case mapping; every other character is left unchanged. */
  function UpperAscii(c: char): char {
    if 'a' <= c <= 'z' then (c as int - 32) as char else c
  }

  /** ASCII lower-case mapping; every other character is left unchanged. */
  function LowerAscii(c: char): char {
    if 'A' <= c <= 'Z' then (c as int + 32) as char else c
  }

  /** `c` maps to digit `d` in the character-to-digit table, which holds the
      upper-case and the lower-case form of every glyph. */
  predicate IsKey(c: char, d: nat) {
    d < Base && (c == UpperAscii(Glyphs[d]) || c == LowerAscii(Glyphs[d]))
  }

  /** Looks a character up in the character-to-digit table. */
  function CharToDigit(c: char): (r: Option<nat>)
    ensures r.Some? ==> IsKey(c, r.value)
    ensures r.None? ==> forall d: nat :: !IsKey(c, d)
  {
    if '0' <= c <= '9' then Some(c as int - '0' as int)
    else if 'A' <= c <= 'M' then Some(c as int - 'A' as int + 10)
    else if 'a' <= c <= 'm' then Some(c as int - 'a' as int + 10)
    else None
  }

  /** The glyph emitted for a digit value: always upper case, and read back as that value. */
  function DigitToChar(d: nat): (c: char)
    requires d < Base
    ensures CharToDigit(c) == Some(d)
    ensures UpperAscii(c) == c
  {
    Glyphs[d]
  }

  /** A letter and its upper-case form denote the same digit (or are both rejected). */
  lemma CaseInsensitive(c: char)
    ensures CharToDigit(UpperAscii(c)) == CharToDigit(c)
    ensures CharToDigit(LowerAscii(c)) == CharToDigit(c)
  {
  }

  /** An upper-case table character is the glyph of its own digit value. */
  lemma GlyphOfDigit(c: char)
    requires CharToDigit(c).Some? && UpperAscii(c) == c
    ensures DigitToChar(CharToDigit(c).value) == c
  {
  }
}
