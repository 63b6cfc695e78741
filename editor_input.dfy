/**
 * The editor as the record the input routines update in place. Every
 * method runs the routine's statements on the fields and is proved to
 * leave the record its specification function computes from the old one;
 * the public operations also keep the editor invariant, with the lemmas of
 * the transitions module doing the reasoning.
 */
module EditorInput {
  import opened Bytes
  import opened Chars
  import opened Wrappers
  import opened DataBuffers
  import opened DisplayStrategies
  import opened EditorRecord
  import opened EditorTransitions

  /** The buffer after a key's write, if it issued one. */
  function ApplyWrite(b: BufferState, write: Option<Write>): (r: BufferState)
    ensures r.Size() == b.Size()
    ensures write.None? ==> r == b
    ensures write.Some? ==> r.GetByte(write.value.index) == (if write.value.index < b.Size() then write.value.value else 0)
  {
    if write.Some? then b.SetByte(write.value.index, write.value.value) else b
  }

  class Editor {
    /** The buffer the editor shows; the editor never replaces it. */
    const buffer: DataBuffer
    /** The data rows of the window: its height less the frame and the header. */
    const rows: nat
    var startOffset: nat
    var cursorY: nat
    var cursorX: nat
    var cursorArea: CursorArea
    var hexPending: int
    var binPendingBits: nat
    var binPendingValue: uint8
    var displayMode: DisplayMode
    var strategy: DisplayStrategy

    /** The editor's record as a value. */
    function State(): View
      reads this
    {
      View(startOffset, cursorY, cursorX, cursorArea, hexPending, binPendingBits, binPendingValue, displayMode)
    }

    /** The buffer is well formed, the strategy matches the mode, and the window has a data row. */
    ghost predicate Shape()
      reads this, buffer
    {
      buffer.Valid() && strategy == StrategyOf(displayMode) && rows >= 1
    }

    /** Shape plus the editor invariant over the buffer's current size. */
    ghost predicate Valid()
      reads this, buffer
    {
      Shape() && Inv(State(), rows, buffer.size)
    }

    /** `idx`: the absolute index of a cell of the viewport. */
    function Idx(row: nat, col: nat): (i: nat)
      reads this
      requires strategy == StrategyOf(displayMode)
      ensures i == State().Idx(row, col)
    {
      startOffset + row * strategy.BytesPerLine() + col
    }

    /** `editor_init`: the editor over `buffer`, at the reset state. */
    constructor (buffer: DataBuffer, rows: nat)
      requires buffer.Valid() && rows >= 1
      ensures this.buffer == buffer && this.rows == rows
      ensures Valid() && State() == ResetView()
    {
      this.buffer := buffer;
      this.rows := rows;
      startOffset := 0;
      cursorY := 0;
      cursorX := 0;
      cursorArea := AreaHex;
      hexPending := -1;
      binPendingBits := 0;
      binPendingValue := 0;
      displayMode := DisplayHex;
      strategy := HexStrategy;
      new;
    }

    /** `editor_reset`: back to offset 0, hex area, hex mode, no partial input. */
    method Reset()
      requires buffer.Valid() && rows >= 1
      modifies this
      ensures Valid() && State() == ResetView()
    {
      startOffset := 0;
      cursorY := 0;
      cursorX := 0;
      cursorArea := AreaHex;
      hexPending := -1;
      binPendingBits := 0;
      binPendingValue := 0;
      displayMode := DisplayHex;
      strategy := if displayMode == DisplayHex then HexStrategy else BinStrategy;
      assert buffer.Valid();
      assert strategy == StrategyOf(displayMode);
      assert Shape();
      assert State() == ResetView();
      ResetInv(rows, buffer.size);
      assert Inv(State(), rows, buffer.size);
    }

    /** `strategy->reset_pending`. */
    method ResetPending()
      requires Shape()
      modifies this
      ensures Shape() && State() == EditorTransitions.ResetPending(old(State()))
    {
      match strategy
      case HexStrategy =>
        hexPending := -1;
      case BinStrategy =>
        binPendingBits := 0;
        binPendingValue := 0;
    }

    /** `move_cursor_vertical`. */
    method MoveVertical(deltaY: int, rowCount: int, pageBytes: nat)
      requires Shape()
      modifies this
      ensures Shape()
      ensures State() == EditorTransitions.MoveVertical(old(State()), deltaY, rowCount, pageBytes, buffer.size)
    {
      var bytesPerLine := strategy.BytesPerLine();
      if deltaY < 0 {
        if cursorY > 0 {
          cursorY := cursorY - 1;
        } else if startOffset >= bytesPerLine {
          startOffset := startOffset - bytesPerLine;
        }
      } else if deltaY > 0 {
        var nextIndex := Idx(cursorY + 1, cursorX);
        if cursorY < rowCount - 1 && nextIndex < buffer.size {
          cursorY := cursorY + 1;
        } else if startOffset + pageBytes < buffer.size {
          startOffset := startOffset + bytesPerLine;
        }
      }
    }

    /** `move_cursor_horizontal`. */
    method MoveHorizontal(deltaX: int)
      requires Shape()
      modifies this
      ensures Shape()
      ensures State() == EditorTransitions.MoveHorizontal(old(State()), deltaX, buffer.size)
    {
      var bytesPerLine := strategy.BytesPerLine();
      if deltaX < 0 {
        if cursorX > 0 {
          cursorX := cursorX - 1;
        }
      } else if deltaX > 0 {
        var nextIndex := Idx(cursorY, cursorX + 1);
        if cursorX < bytesPerLine - 1 && nextIndex < buffer.size {
          cursorX := cursorX + 1;
        }
      }
      ResetPending();
    }

    /** `clamp_cursor`. */
    method Clamp()
      requires Shape()
      modifies this
      ensures Shape()
      ensures State() == EditorTransitions.Clamp(old(State()), buffer.size)
    {
      var lineBytes: nat := 0;
      var lineStart := Idx(cursorY, 0);
      var maxPerLine := strategy.BytesPerLine();
      if lineStart < buffer.size {
        lineBytes := buffer.size - lineStart;
        if lineBytes > maxPerLine {
          lineBytes := maxPerLine;
        }
      }
      if cursorX >= lineBytes {
        cursorX := if lineBytes == 0 then 0 else lineBytes - 1;
      }
    }

    /** `advance_cursor`. */
    method Advance()
      requires Shape()
      modifies this
      ensures Shape()
      ensures State() == EditorTransitions.Advance(old(State()), rows, buffer.size)
    {
      var bytesPerLine := strategy.BytesPerLine();
      var nextIndex := Idx(cursorY, cursorX + 1);
      if cursorX < bytesPerLine - 1 && nextIndex < buffer.size {
        cursorX := cursorX + 1;
      } else if nextIndex < buffer.size {
        var rowCount := rows;
        var pageBytes := rowCount * bytesPerLine;
        cursorX := 0;
        MoveVertical(1, rowCount, pageBytes);
      }
      assert State() == AdvanceStep(old(State()), rows, buffer.size);
      ResetPending();
      Clamp();
    }

    /**
     * `editor_move_cursor`. It needs only the shape, since `editor_scroll`
     * calls it on a moved viewport; on a valid editor it keeps validity.
     */
    method MoveCursor(deltaY: int, deltaX: int)
      requires Shape()
      modifies this
      ensures Shape()
      ensures State() == EditorTransitions.MoveCursor(old(State()), deltaY, deltaX, rows, buffer.size)
      ensures old(Valid()) ==> Valid()
    {
      ghost var v := State();
      var rowCount := rows;
      var pageBytes := rowCount * strategy.BytesPerLine();
      MoveVertical(deltaY, rowCount, pageBytes);
      MoveHorizontal(deltaX);
      Clamp();
      if Inv(v, rows, buffer.size) {
        MoveCursorKeepsInv(v, deltaY, deltaX, rows, buffer.size);
      }
    }

    /** `editor_scroll`: moves the start offset, then re-validates the cursor. */
    method Scroll(deltaOffset: int)
      requires Valid()
      modifies this
      ensures Valid()
      ensures State() == EditorTransitions.Scroll(old(State()), deltaOffset, rows, buffer.size)
    {
      ghost var v := State();
      ScrollStart(deltaOffset);
      MoveCursor(0, 0);
      ScrollKeepsInv(v, deltaOffset, rows, buffer.size);
    }

    /** The start-offset half of `editor_scroll`. */
    method ScrollStart(deltaOffset: int)
      requires Shape()
      modifies this
      ensures Shape()
      ensures State() == EditorTransitions.ScrollStart(old(State()), deltaOffset, rows, buffer.size)
    {
      var page := rows * strategy.BytesPerLine();
      if deltaOffset > 0 {
        var maxOffset := if buffer.size > page then buffer.size - page else 0;
        var newOffset := startOffset + deltaOffset;
        if newOffset > maxOffset {
          newOffset := maxOffset;
        }
        startOffset := newOffset;
      } else if deltaOffset < 0 {
        var absOffset := -deltaOffset;
        if absOffset > startOffset {
          startOffset := 0;
        } else {
          startOffset := startOffset - absOffset;
        }
      }
    }

    /** `editor_toggle_area`. */
    method ToggleArea()
      requires Valid()
      modifies this
      ensures Valid()
      ensures State() == EditorTransitions.ToggleArea(old(State()), buffer.size)
    {
      ghost var v := State();
      if cursorArea == AreaHex {
        cursorArea := AreaAscii;
      } else {
        cursorArea := AreaHex;
      }
      Clamp();
      ToggleAreaSpec(v, rows, buffer.size);
    }

    /** `editor_toggle_display_mode`. */
    method ToggleDisplayMode()
      requires Valid()
      modifies this
      ensures Valid()
      ensures State() == EditorTransitions.ToggleDisplayMode(old(State()), rows)
    {
      ghost var v := State();
      var absoluteIndex := startOffset + cursorY * strategy.BytesPerLine() + cursorX;
      displayMode := if displayMode == DisplayHex then DisplayBin else DisplayHex;
      strategy := if displayMode == DisplayHex then HexStrategy else BinStrategy;
      hexPending := -1;
      binPendingBits := 0;
      binPendingValue := 0;
      assert State() == Switched(v);
      Place(absoluteIndex);
      ToggleDisplayModeSpec(v, rows, buffer.size);
    }

    /** The realignment half of `editor_toggle_display_mode`. */
    method Place(absoluteIndex: nat)
      requires Shape()
      modifies this
      ensures Shape()
      ensures State() == EditorTransitions.Place(old(State()), absoluteIndex, rows)
    {
      var bytesPerLine := strategy.BytesPerLine();
      var pageBytes := rows * bytesPerLine;
      if absoluteIndex < startOffset || absoluteIndex >= startOffset + pageBytes {
        startOffset := (absoluteIndex / bytesPerLine) * bytesPerLine;
      }
      var relative := absoluteIndex - startOffset;
      cursorY := relative / bytesPerLine;
      cursorX := relative % bytesPerLine;
    }

    /** `handle_ascii`. */
    method HandleAscii(key: int, index: nat)
      requires Shape()
      modifies this, buffer, buffer.bytes
      ensures Shape() && buffer.bytes == old(buffer.bytes) && buffer.size == old(buffer.size)
      ensures var r := EditorTransitions.HandleAscii(old(State()), key, index, rows, buffer.size);
        State() == r.view && buffer.State() == ApplyWrite(old(buffer.State()), r.write)
    {
      if IsPrint(key) {
        buffer.SetByte(index, key);
        Advance();
      }
    }

    /** `handle_hex_input`. */
    method HandleHexInput(key: int, index: nat)
      requires Shape()
      modifies this, buffer, buffer.bytes
      ensures Shape() && buffer.bytes == old(buffer.bytes) && buffer.size == old(buffer.size)
      ensures var r := EditorTransitions.HandleHexInput(old(State()), key, index, rows, buffer.size);
        State() == r.view && buffer.State() == ApplyWrite(old(buffer.State()), r.write)
    {
      if !IsXDigit(key) {
        return;
      }
      var value := if key <= '9' as int then key - '0' as int else ToLower(key) - 'a' as int + 10;
      if hexPending < 0 {
        hexPending := value;
      } else {
        var byte := (hexPending * 16 + value) % 256;
        buffer.SetByte(index, byte);
        hexPending := -1;
        Advance();
      }
    }

    /** `handle_bin_input`. */
    method HandleBinInput(key: int, index: nat)
      requires Shape()
      modifies this, buffer, buffer.bytes
      ensures Shape() && buffer.bytes == old(buffer.bytes) && buffer.size == old(buffer.size)
      ensures var r := EditorTransitions.HandleBinInput(old(State()), key, index, rows, buffer.size);
        State() == r.view && buffer.State() == ApplyWrite(old(buffer.State()), r.write)
    {
      if key != '0' as int && key != '1' as int {
        return;
      }
      binPendingValue := (binPendingValue * 2 + (key - '0' as int)) % 256;
      binPendingBits := binPendingBits + 1;
      if binPendingBits == 8 {
        buffer.SetByte(index, binPendingValue);
        binPendingBits := 0;
        binPendingValue := 0;
        Advance();
      }
    }

    /**
     * `editor_handle_char`: the key goes to the handler of the cursor's area
     * and the display mode, with the index under the cursor.
     */
    method HandleChar(key: int)
      requires Valid()
      modifies this, buffer, buffer.bytes
      ensures Valid()
      ensures buffer.bytes == old(buffer.bytes)
      ensures buffer.size == old(buffer.size)
      ensures var r := EditorTransitions.HandleChar(old(State()), key, rows, buffer.size);
        State() == r.view && buffer.State() == ApplyWrite(old(buffer.State()), r.write)
    {
      ghost var v := State();
      ghost var r := EditorTransitions.HandleChar(v, key, rows, buffer.size);
      var index := startOffset + cursorY * strategy.BytesPerLine() + cursorX;
      assert index == v.Index();
      if cursorArea == AreaAscii {
        assert r == EditorTransitions.HandleAscii(v, key, index, rows, buffer.size);
        HandleAscii(key, index);
      } else if displayMode == DisplayHex {
        assert r == EditorTransitions.HandleHexInput(v, key, index, rows, buffer.size);
        HandleHexInput(key, index);
      } else {
        assert r == EditorTransitions.HandleBinInput(v, key, index, rows, buffer.size);
        HandleBinInput(key, index);
      }
      HandleCharKeepsInv(v, key, rows, buffer.size);
    }
  }
}
