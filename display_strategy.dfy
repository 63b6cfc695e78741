/**
 * The two display strategies: a closed pair of variants standing for the
 * `HEX_STRATEGY` and `BIN_STRATEGY` tables of function pointers. Each gives
 * the grid geometry, the accepted input characters, the cell text of a byte,
 * the column header and the text of an empty cell. The strategies' pending
 * input reset changes the editor, so it lives with the editor.
 */
module DisplayStrategies {
  import opened Bytes
  import opened Chars
  import opened Utilities

  datatype DisplayStrategy = HexStrategy | BinStrategy
  {
    /** `bytes_per_line`: cells in one row of the grid. */
    function BytesPerLine(): (n: nat)
      ensures n >= 1
    {
      if HexStrategy? then 16 else 4
    }

    /** `cell_width`: screen columns one formatted cell takes, separator included. */
    function CellWidth(): nat
    {
      if HexStrategy? then 3 else 9
    }

    /** `is_valid_char`: the keys the strategy's data side accepts. */
    predicate IsValidChar(ch: int)
    {
      if HexStrategy? then IsXDigit(ch) else ch == '0' as int || ch == '1' as int
    }

    /** The cell text `format_byte` writes, without its NUL terminator. */
    function Cell(b: uint8): string
    {
      if HexStrategy? then HexString(b) + " " else BitString(b) + " "
    }

    /** `format_byte`: fills `out` with the cell text followed by NUL. */
    method FormatByte(b: uint8, out: array<char>)
      requires out.Length > CellWidth()
      modifies out
      ensures out[..CellWidth()] == Cell(b) && out[CellWidth()] == NUL
      ensures forall k :: CellWidth() < k < out.Length ==> out[k] == old(out[k])
    {
      if HexStrategy? {
        ByteToHexString(b, out);
        out[2] := ' ';
        out[3] := NUL;
        assert out[..3] == out[..2] + [out[2]];
      } else {
        ByteToBitString(b, out);
        out[8] := ' ';
        out[9] := NUL;
        assert out[..9] == out[..8] + [out[8]];
      }
    }

    /** `header_label`: the heading of the data columns. */
    function HeaderLabel(): string
    {
      if HexStrategy? then "Hex" else "Bin"
    }

    /** `empty_cell`: what stands in a cell past the end of the buffer. */
    function EmptyCell(): (s: string)
      ensures |s| == CellWidth()
      ensures forall i :: 0 <= i < |s| ==> s[i] == ' '
    {
      if HexStrategy? then "   " else "         "
    }
  }

  /** Hex rows hold 16 cells of width 3, binary rows 4 cells of width 9. */
  lemma Geometry()
    ensures HexStrategy.BytesPerLine() == 16 && HexStrategy.CellWidth() == 3
    ensures BinStrategy.BytesPerLine() == 4 && BinStrategy.CellWidth() == 9
    ensures HexStrategy.HeaderLabel() == "Hex" && BinStrategy.HeaderLabel() == "Bin"
  {
  }

  /**
   * Every digit a cell shows is a key the same strategy accepts: the hex
   * digits of the hex cell, the '0'/'1' characters of the binary cell.
   */
  lemma ValidChars(s: DisplayStrategy, b: uint8, i: nat)
    requires i < s.CellWidth() - 1
    ensures s.IsValidChar(s.Cell(b)[i] as int)
  {
    if s.HexStrategy? {
      HexStringRoundTrip(b);
      assert s.Cell(b)[i] == HexString(b)[i];
    } else {
      BitStringRoundTrip(b);
      assert s.Cell(b)[i] == BitString(b)[i];
    }
  }

  /**
   * A formatted cell is as wide as the strategy's cell width and as its
   * empty cell, ends in the separating space, and starts with the byte's
   * digits, which read back as the byte.
   */
  lemma CellShape(s: DisplayStrategy, b: uint8)
    ensures |s.Cell(b)| == s.CellWidth() == |s.EmptyCell()|
    ensures s.Cell(b)[s.CellWidth() - 1] == ' '
    ensures s.HexStrategy? ==>
              s.Cell(b)[..2] == HexString(b) && HexPairValue(s.Cell(b)[0] as int, s.Cell(b)[1] as int) == b
    ensures s.BinStrategy? ==> s.Cell(b)[..8] == BitString(b) && BitsValue(s.Cell(b)[..8]) == b
  {
    if s.HexStrategy? {
      assert s.Cell(b)[..2] == HexString(b);
      HexStringRoundTrip(b);
    } else {
      assert s.Cell(b)[..8] == BitString(b);
      BitStringRoundTrip(b);
    }
  }

  /** Distinct bytes format to distinct cells. */
  lemma CellInjective(s: DisplayStrategy, a: uint8, b: uint8)
    requires a != b
    ensures s.Cell(a) != s.Cell(b)
  {
    CellShape(s, a);
    CellShape(s, b);
  }
}
