/**
 * The editor record as a value: the viewport origin, the cursor, the active
 * area and display mode, and the pending partial input. Its index
 * arithmetic and screen layout constants, and the invariant every editing
 * operation keeps.
 */
module EditorRecord {
  import opened Bytes
  import opened DisplayStrategies

  /** Columns of the offset label, of a hex cell and of a binary cell. */
  const OFFSET_COL_WIDTH: int := 8
  const HEX_COL_WIDTH: int := 3
  const BIN_COL_WIDTH: int := 9
  /** The first screen column of the data cells: border, offset label, gap. */
  const HEX_START_X: int := 1 + OFFSET_COL_WIDTH + 1

  /** Which column group holds the cursor. */
  datatype CursorArea = AreaHex | AreaAscii

  datatype DisplayMode = DisplayHex | DisplayBin

  /** The strategy that goes with a display mode. */
  function StrategyOf(mode: DisplayMode): DisplayStrategy
  {
    if mode == DisplayHex then HexStrategy else BinStrategy
  }

  /** The editor's fields apart from its window, buffer pointer and strategy pointer. */
  datatype View = View(
    startOffset: nat,
    cursorY: nat,
    cursorX: nat,
    cursorArea: CursorArea,
    hexPending: int,
    binPendingBits: nat,
    binPendingValue: uint8,
    displayMode: DisplayMode)
  {
    /** `getBytesPerLine`. */
    function BytesPerLine(): (n: nat)
      ensures n == 16 || n == 4
    {
      StrategyOf(displayMode).BytesPerLine()
    }

    /** `getCellWidth`. */
    function CellWidth(): nat
    {
      StrategyOf(displayMode).CellWidth()
    }

    /** `getAsciiStartX`: the first screen column of the ASCII area. */
    function AsciiStartX(): int
    {
      HEX_START_X + BytesPerLine() * CellWidth() + 1
    }

    /** `idx`: the absolute index of the cell at `row`, `col` of the viewport. */
    function Idx(row: nat, col: nat): nat
    {
      startOffset + row * BytesPerLine() + col
    }

    /** The absolute index under the cursor. */
    function Index(): nat
    {
      Idx(cursorY, cursorX)
    }
  }

  /** Pending input is a nibble or none, and fewer than eight bits that fit their count. */
  predicate PendingInv(v: View)
  {
    && (v.hexPending == -1 || 0 <= v.hexPending < 16)
    && v.binPendingBits < 8
    && v.binPendingValue < Pow2(v.binPendingBits)
    && (v.displayMode == DisplayHex ==> v.binPendingBits == 0 && v.binPendingValue == 0)
    && (v.displayMode == DisplayBin ==> v.hexPending == -1)
  }

  /**
   * The cursor is inside the grid and on an existing byte; over an empty
   * buffer it rests at offset 0, row 0, column 0.
   */
  predicate CursorInv(v: View, rows: nat, size: nat)
  {
    && rows >= 1
    && v.cursorX < v.BytesPerLine()
    && v.cursorY < rows
    && (size == 0 ==> v.startOffset == 0 && v.cursorY == 0 && v.cursorX == 0)
    && (size > 0 ==> v.Index() < size)
  }

  predicate Inv(v: View, rows: nat, size: nat)
  {
    PendingInv(v) && CursorInv(v, rows, size)
  }

  /** The state `editor_reset` (and `editor_init`) establishes. */
  function ResetView(): View
  {
    View(0, 0, 0, AreaHex, -1, 0, 0, DisplayHex)
  }

  /** The reset state satisfies the invariant for any buffer and any window of at least one row. */
  lemma ResetInv(rows: nat, size: nat)
    requires rows >= 1
    ensures Inv(ResetView(), rows, size)
    ensures ResetView().Index() == 0
  {
  }

  /**
   * The layout constants: data cells start at column 10, the cell widths
   * agree with the strategies, and the ASCII area starts at column 59 in hex
   * mode and 47 in binary mode.
   */
  lemma Layout(v: View)
    ensures HEX_START_X == 10
    ensures HEX_COL_WIDTH == HexStrategy.CellWidth() && BIN_COL_WIDTH == BinStrategy.CellWidth()
    ensures v.AsciiStartX() == (if v.displayMode == DisplayHex then 59 else 47)
  {
  }

  /** The cursor's index lies in the visible page that starts at `startOffset`. */
  lemma IndexInPage(v: View, rows: nat)
    requires v.cursorY < rows && v.cursorX < v.BytesPerLine()
    ensures v.startOffset <= v.Index() < v.startOffset + rows * v.BytesPerLine()
  {
    RowsFit(v.cursorY, v.cursorX, rows, v.BytesPerLine());
  }
}
