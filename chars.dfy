/**
 * The character classes the editor asks the C library about, taken as
 * their values in the "C" locale over ASCII. Keys are plain `int` codes, as
 * `wgetch` returns them; codes of special keys lie above 255 and belong to
 * no class.
 */
module Chars {

  const TAB: int := 9

  /** `isprint`: the printable ASCII range 0x20..0x7E. */
  predicate IsPrint(key: int)
  {
    0x20 <= key <= 0x7E
  }

  predicate IsDecimalDigit(key: int)
  {
    '0' as int <= key <= '9' as int
  }

  /** `isxdigit`: `0-9`, `a-f` or `A-F`. */
  predicate IsXDigit(key: int)
  {
    IsDecimalDigit(key) || 'a' as int <= key <= 'f' as int || 'A' as int <= key <= 'F' as int
  }

  /** `tolower`: maps `A-Z` to `a-z`, every other code to itself. */
  function ToLower(key: int): int
  {
    if 'A' as int <= key <= 'Z' as int then key - 'A' as int + 'a' as int else key
  }

  /**
   * The nibble value the hex handler computes for a digit key:
   * `key <= '9' ? key - '0' : tolower(key) - 'a' + 10`.
   */
  function HexDigitValue(key: int): (n: int)
    requires IsXDigit(key)
    ensures 0 <= n < 16
    ensures IsDecimalDigit(key) ==> n == key - '0' as int
    ensures 'a' as int <= key <= 'f' as int ==> n == key - 'a' as int + 10
    ensures 'A' as int <= key <= 'F' as int ==> n == key - 'A' as int + 10
  {
    if key <= '9' as int then key - '0' as int else ToLower(key) - 'a' as int + 10
  }

  /** Upper- and lower-case spellings of a hex letter have the same value. */
  lemma HexDigitCaseInsensitive(key: int)
    requires 'a' as int <= key <= 'f' as int
    ensures IsXDigit(key - 32) && HexDigitValue(key - 32) == HexDigitValue(key)
  {
  }
}
