/**
 * Byte-to-text conversion: a byte as eight bit characters or as two
 * lowercase hex digits, written into a caller-supplied character buffer
 * and terminated with NUL. The decoders below are the readings the editor's
 * key handlers apply to those characters, so the round-trip lemmas here
 * show that the text the editor displays is text it would accept back.
 */
module Utilities {
  import opened Bytes
  import opened Chars

  const NUL: char := 0 as char

  /** The digit table the hex conversion indexes. */
  const HEX_CHARS: string := "0123456789abcdef"

  function BitChar(isSet: bool): char
  {
    if isSet then '1' else '0'
  }

  /** The eight bits of `v`, most significant first. */
  function BitString(v: uint8): (s: string)
    ensures |s| == 8
  {
    seq(8, k requires 0 <= k < 8 => BitChar(BitSet(v, 7 - k)))
  }

  /** The high nibble's digit, then the low nibble's digit. */
  function HexString(v: uint8): (s: string)
    ensures |s| == 2
  {
    [HEX_CHARS[(v / 16) % 16], HEX_CHARS[v % 16]]
  }

  /** `byte_to_bit_string`: fills `out[0..8]` with the bits and `out[8]` with NUL. */
  method ByteToBitString(value: uint8, out: array<char>)
    requires out.Length >= 9
    modifies out
    ensures out[..8] == BitString(value) && out[8] == NUL
    ensures forall k :: 9 <= k < out.Length ==> out[k] == old(out[k])
  {
    var bit: int := 7;
    while bit >= 0
      invariant -1 <= bit <= 7
      invariant forall k :: 0 <= k < 7 - bit ==> out[k] == BitChar(BitSet(value, 7 - k))
      invariant forall k :: 8 <= k < out.Length ==> out[k] == old(out[k])
    {
      out[7 - bit] := if BitSet(value, bit) then '1' else '0';
      bit := bit - 1;
    }
    out[8] := NUL;
  }

  /** `byte_to_hex_string`: fills `out[0..2]` with the digits and `out[2]` with NUL. */
  method ByteToHexString(value: uint8, out: array<char>)
    requires out.Length >= 3
    modifies out
    ensures out[..2] == HexString(value) && out[2] == NUL
    ensures forall k :: 3 <= k < out.Length ==> out[k] == old(out[k])
  {
    out[0] := HEX_CHARS[(value / 16) % 16];
    out[1] := HEX_CHARS[value % 16];
    out[2] := NUL;
  }

  /** Character `7 - b` of the bit string is '1' exactly when bit `b` is set. */
  lemma BitStringAt(v: uint8, b: nat)
    requires b < 8
    ensures BitString(v)[7 - b] == '1' <==> BitSet(v, b)
    ensures BitString(v)[7 - b] in {'0', '1'}
  {
  }

  /** A string of '0' and '1' characters. */
  predicate IsBinString(s: string)
  {
    forall i :: 0 <= i < |s| ==> s[i] == '0' || s[i] == '1'
  }

  /** The value of binary digits read most significant first. */
  function BitsValue(s: string): nat
  {
    if s == [] then 0 else 2 * BitsValue(s[..|s| - 1]) + (if s[|s| - 1] == '1' then 1 else 0)
  }

  /** n binary digits hold a value below 2^n. */
  lemma {:induction false} BitsValueBound(s: string)
    ensures BitsValue(s) < Pow2(|s|)
  {
    if s != [] {
      BitsValueBound(s[..|s| - 1]);
    }
  }

  /** The first j bit characters of `v` spell `v >> (8 - j)`. */
  lemma {:induction false} BitStringPrefix(v: uint8, j: nat)
    requires j <= 8
    ensures BitsValue(BitString(v)[..j]) == Shr(v, 8 - j)
  {
    if j == 0 {
      Pow2Byte();
      ShrNarrow(v, 8);
      assert BitString(v)[..0] == [];
    } else {
      var s := BitString(v)[..j];
      assert s[..j - 1] == BitString(v)[..j - 1];
      BitStringPrefix(v, j - 1);
      ShrSucc(v, 8 - j);
    }
  }

  /** Reading the bit string back gives the byte. */
  lemma BitStringRoundTrip(v: uint8)
    ensures IsBinString(BitString(v))
    ensures BitsValue(BitString(v)) == v
  {
    BitStringPrefix(v, 8);
    assert BitString(v)[..8] == BitString(v);
  }

  /** Distinct bytes have distinct bit strings. */
  lemma BitStringInjective(a: uint8, b: uint8)
    requires a != b
    ensures BitString(a) != BitString(b)
  {
    BitStringRoundTrip(a);
    BitStringRoundTrip(b);
  }

  /** Every entry of the digit table is a hex digit of its own index. */
  lemma HexCharsDecode(n: int)
    requires 0 <= n < 16
    ensures IsXDigit(HEX_CHARS[n] as int) && HexDigitValue(HEX_CHARS[n] as int) == n
    ensures HEX_CHARS[n] == ToLower(HEX_CHARS[n] as int) as char
  {
    if n < 10 {
      assert HEX_CHARS[n] as int == '0' as int + n by {
        assert HEX_CHARS[..10] == "0123456789";
      }
    } else {
      assert HEX_CHARS[n] as int == 'a' as int + n - 10 by {
        assert HEX_CHARS[10..] == "abcdef";
      }
    }
  }

  /** The value of a two-digit hex string, high digit first. */
  function HexPairValue(hi: int, lo: int): int
    requires IsXDigit(hi) && IsXDigit(lo)
  {
    HexDigitValue(hi) * 16 + HexDigitValue(lo)
  }

  /** Reading the hex string back gives the byte; its digits are lowercase. */
  lemma HexStringRoundTrip(v: uint8)
    ensures IsXDigit(HexString(v)[0] as int) && IsXDigit(HexString(v)[1] as int)
    ensures HexPairValue(HexString(v)[0] as int, HexString(v)[1] as int) == v
    ensures forall i :: 0 <= i < 2 ==> HexString(v)[i] !in "ABCDEF"
  {
    HexCharsDecode((v / 16) % 16);
    HexCharsDecode(v % 16);
  }

  /** Distinct bytes have distinct hex strings. */
  lemma HexStringInjective(a: uint8, b: uint8)
    requires a != b
    ensures HexString(a) != HexString(b)
  {
    HexStringRoundTrip(a);
    HexStringRoundTrip(b);
  }
}
